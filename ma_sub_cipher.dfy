/**
 The monoalphabetic substitution cipher behind the `ma_sub` sub-commands:
 choosing the cipher alphabet, validating it against the message, and the
 character-by-character translation.
 */
module MonoalphabeticSubstitution {
  import opened Alphabet

  datatype Option<T> = None | Some(value: T)

  /** The `typer.BadParameter` errors the cipher raises. */
  datatype CipherError =
    | BothSources               // "Can't specify both --alphabet and --alphabet-file"
    | FileNotFound(path: string) // "Alphabet file not found: <path>"
    | Duplicates                // "The cipher alphabet contains duplicates"
    | IncompleteCoverage        // "The cipher alphabet doesn't cover all characters in the message"

  datatype Result<T> = Ok(value: T) | Err(error: CipherError)

  /**
   An `--alphabet-file` argument: the path and what reading it gives, the
   file's text or `None` when there is no file at that path.
   */
  datatype AlphabetFile = AlphabetFile(path: string, contents: Option<string>)

  /** Python's truth value of an optional string: given and not empty. */
  predicate Given(s: Option<string>) {
    s.Some? && s.value != ""
  }

  /**
   `_load_alphabet`: the cipher alphabet comes from the `--alphabet` string or
   from the `--alphabet-file`, never both; with neither, it is the English
   alphabet. An empty string counts as not given; a path always counts as given.
   */
  function LoadAlphabet(alphabetString: Option<string>, alphabetFile: Option<AlphabetFile>): (r: Result<string>)
    ensures r == Err(BothSources) <==> alphabetFile.Some? && Given(alphabetString)
    ensures alphabetFile.None? && !Given(alphabetString) ==> r == Ok(ALPHABET)
    ensures alphabetFile.None? && Given(alphabetString) ==> r == Ok(alphabetString.value)
    ensures alphabetFile.Some? && !Given(alphabetString) ==>
      r == match alphabetFile.value.contents
           case Some(text) => Ok(text)
           case None => Err(FileNotFound(alphabetFile.value.path))
  {
    if alphabetFile.Some? && Given(alphabetString) then
      Err(BothSources)
    else if !(alphabetFile.Some? || Given(alphabetString)) then
      Ok(ALPHABET)
    else if Given(alphabetString) then
      Ok(alphabetString.value)
    else
      match alphabetFile.value.contents
      case Some(text) => Ok(text)
      case None => Err(FileNotFound(alphabetFile.value.path))
  }

  /** `set(s)` has as many elements as `s` exactly when no character of `s` repeats. */
  lemma {:induction false} DistinctIffNoSmallerSet(s: string)
    ensures |Chars(s)| <= |s|
    ensures |Chars(s)| == |s| <==> Distinct(s)
  {
    if s != [] {
      var rest := s[1..];
      DistinctIffNoSmallerSet(rest);
      assert Chars(s) == {s[0]} + Chars(rest);
      if s[0] in rest {
        assert Chars(s) == Chars(rest);
        var j :| 0 <= j < |rest| && rest[j] == s[0];
        assert s[0] == s[j + 1];
      } else {
        assert Chars(s) == Chars(rest) + {s[0]};
        assert Distinct(s) <==> Distinct(rest) by {
          if Distinct(rest) {
            forall i, j | 0 <= i < j < |s|
              ensures s[i] != s[j]
            {
              if i > 0 {
                assert s[i] == rest[i - 1] && s[j] == rest[j - 1];
              } else {
                assert s[j] == rest[j - 1];
              }
            }
          }
          if Distinct(s) {
            forall i, j | 0 <= i < j < |rest|
              ensures rest[i] != rest[j]
            {
              assert rest[i] == s[i + 1] && rest[j] == s[j + 1];
            }
          }
        }
      }
    }
  }

  /**
   `_validate_alphabet`: an alphabet that repeats a character is refused;
   otherwise a message with a character the alphabet lacks is refused;
   otherwise the result says whether the alphabet is the English one, in which
   case the cipher changes nothing.
   */
  function ValidateAlphabet(message: string, alphabet: string): (r: Result<bool>)
    ensures r == Err(Duplicates) <==> !Distinct(alphabet)
    ensures r == Err(IncompleteCoverage) <==>
      Distinct(alphabet) && exists i :: 0 <= i < |message| && message[i] !in alphabet
    ensures r.Ok? <==> Distinct(alphabet) && forall i :: 0 <= i < |message| ==> message[i] in alphabet
    ensures r.Ok? ==> (r.value <==> alphabet == ALPHABET)
  {
    DistinctIffNoSmallerSet(alphabet);
    if |Chars(alphabet)| != |alphabet| then
      Err(Duplicates)
    else if exists i :: 0 <= i < |message| && message[i] !in alphabet then
      Err(IncompleteCoverage)
    else
      Ok(alphabet == ALPHABET)
  }

  /** The index of the last occurrence of `c` in `s`. */
  predicate LastAt(s: string, i: int) {
    0 <= i < |s| && s[i] !in s[i + 1..]
  }

  /**
   `str.maketrans(from, to)`: each character of `from` maps to the character of
   `to` at the same place; when a character occurs in `from` more than once,
   its last occurrence decides.
   */
  function MakeTrans(from: string, to: string): (table: map<char, char>)
    requires |from| == |to|
    ensures table.Keys == Chars(from)
  {
    if from == [] then map[]
    else
      var n := |from| - 1;
      assert Chars(from) == Chars(from[..n]) + {from[n]} by {
        assert from == from[..n] + [from[n]];
      }
      MakeTrans(from[..n], to[..n])[from[n] := to[n]]
  }

  /**
   The translation table sends the character at the last occurrence `i` in
   `from` to the character of `to` at place `i`.
   */
  lemma {:induction false} MakeTransAt(from: string, to: string, i: int)
    requires |from| == |to| && LastAt(from, i)
    ensures from[i] in MakeTrans(from, to) && MakeTrans(from, to)[from[i]] == to[i]
  {
    var n := |from| - 1;
    if i < n {
      LastAtInit(from, i);
      MakeTransAt(from[..n], to[..n], i);
    }
  }

  /** A last occurrence before the end of `s` is still one once the final character is cut off. */
  lemma LastAtInit(s: string, i: int)
    requires LastAt(s, i) && i < |s| - 1
    ensures LastAt(s[..|s| - 1], i) && s[i] != s[|s| - 1]
  {
    var n := |s| - 1;
    assert s[..n][i + 1..] == s[i + 1..n];
    assert s[i + 1..][n - i - 1] == s[n];
  }

  /** `message.translate(table)`: mapped characters are replaced, all others kept. */
  function Translate(message: string, table: map<char, char>): (r: string)
    ensures |r| == |message|
  {
    seq(|message|, i requires 0 <= i < |message| => if message[i] in table then table[message[i]] else message[i])
  }

  /**
   `_ma_sub_cipher`: encrypting replaces the English alphabet's `i`-th letter
   by the cipher alphabet's `i`-th character; decrypting replaces a cipher
   character by the English letter at its place; everything else is kept.
   `str.maketrans` demands two strings of equal length.
   */
  function SubCipher(message: string, cipherAlphabet: string, encrypting: bool): (r: string)
    requires |cipherAlphabet| == ALPHABET_LEN
    ensures |r| == |message|
  {
    var table := if encrypting then MakeTrans(ALPHABET, cipherAlphabet) else MakeTrans(cipherAlphabet, ALPHABET);
    Translate(message, table)
  }

  /**
   Encrypting keeps the length, sends the English letter at place `j` to the
   cipher alphabet's character at place `j`, and keeps every character that
   is not a lowercase letter.
   */
  lemma EncryptAt(message: string, cipherAlphabet: string, i: int)
    requires |cipherAlphabet| == ALPHABET_LEN && 0 <= i < |message|
    ensures |SubCipher(message, cipherAlphabet, true)| == |message|
    ensures SubCipher(message, cipherAlphabet, true)[i] ==
      if IsLower(message[i]) then cipherAlphabet[Pos(message[i])] else message[i]
  {
    var c := message[i];
    AlphabetMembers(c);
    if IsLower(c) {
      AlphabetDistinct();
      DistinctLastAt(ALPHABET, Pos(c));
      MakeTransAt(ALPHABET, cipherAlphabet, Pos(c));
    }
  }

  /**
   Decrypting keeps the length, sends the cipher character at place `j` to the
   English letter at place `j` (the last such place, should the cipher
   alphabet repeat a character), and keeps every character the cipher alphabet
   does not hold.
   */
  lemma DecryptAt(message: string, cipherAlphabet: string, i: int, j: int)
    requires |cipherAlphabet| == ALPHABET_LEN && 0 <= i < |message|
    requires LastAt(cipherAlphabet, j) && message[i] == cipherAlphabet[j]
    ensures |SubCipher(message, cipherAlphabet, false)| == |message|
    ensures SubCipher(message, cipherAlphabet, false)[i] == ALPHABET[j]
  {
    MakeTransAt(cipherAlphabet, ALPHABET, j);
  }

  lemma DecryptKeeps(message: string, cipherAlphabet: string, i: int)
    requires |cipherAlphabet| == ALPHABET_LEN && 0 <= i < |message|
    requires message[i] !in cipherAlphabet
    ensures |SubCipher(message, cipherAlphabet, false)| == |message|
    ensures SubCipher(message, cipherAlphabet, false)[i] == message[i]
  {
  }

  /** In an alphabet without repetition, every place is the last occurrence of its character. */
  lemma DistinctLastAt(s: string, j: int)
    requires Distinct(s) && 0 <= j < |s|
    ensures LastAt(s, j)
  {
    var rest := s[j + 1..];
    forall m | 0 <= m < |rest|
      ensures rest[m] != s[j]
    {
      assert rest[m] == s[j + 1 + m];
    }
  }

  /**
   With a cipher alphabet of 26 distinct characters, decrypting an encrypted
   message of lowercase letters gives the message back.
   */
  lemma RoundTrip(message: string, cipherAlphabet: string)
    requires |cipherAlphabet| == ALPHABET_LEN && Distinct(cipherAlphabet)
    requires forall i :: 0 <= i < |message| ==> IsLower(message[i])
    ensures SubCipher(SubCipher(message, cipherAlphabet, true), cipherAlphabet, false) == message
  {
    var secret := SubCipher(message, cipherAlphabet, true);
    var plain := SubCipher(secret, cipherAlphabet, false);
    assert |plain| == |message|;
    forall i | 0 <= i < |message|
      ensures plain[i] == message[i]
    {
      EncryptAt(message, cipherAlphabet, i);
      var j := Pos(message[i]);
      AlphabetMembers(message[i]);
      DistinctLastAt(cipherAlphabet, j);
      DecryptAt(secret, cipherAlphabet, i, j);
    }
  }

  /**
   With a cipher alphabet of 26 distinct characters, encrypting a decrypted
   message written in the cipher alphabet gives the message back.
   */
  lemma InverseRoundTrip(message: string, cipherAlphabet: string)
    requires |cipherAlphabet| == ALPHABET_LEN && Distinct(cipherAlphabet)
    requires forall i :: 0 <= i < |message| ==> message[i] in cipherAlphabet
    ensures SubCipher(SubCipher(message, cipherAlphabet, false), cipherAlphabet, true) == message
  {
    var plain := SubCipher(message, cipherAlphabet, false);
    var secret := SubCipher(plain, cipherAlphabet, true);
    assert |plain| == |message|;
    assert |secret| == |message|;
    forall i | 0 <= i < |message|
      ensures secret[i] == message[i]
    {
      var j :| 0 <= j < |cipherAlphabet| && cipherAlphabet[j] == message[i];
      DistinctLastAt(cipherAlphabet, j);
      DecryptAt(message, cipherAlphabet, i, j);
      AlphabetAt(j);
      EncryptAt(plain, cipherAlphabet, i);
    }
  }

  /** With the English alphabet as the cipher alphabet, both directions change nothing. */
  lemma EnglishAlphabetIsIdentity(message: string, encrypting: bool)
    ensures |ALPHABET| == ALPHABET_LEN
    ensures SubCipher(message, ALPHABET, encrypting) == message
  {
    var r := SubCipher(message, ALPHABET, encrypting);
    forall i | 0 <= i < |message|
      ensures r[i] == message[i]
    {
      var c := message[i];
      AlphabetMembers(c);
      if encrypting {
        EncryptAt(message, ALPHABET, i);
      } else if IsLower(c) {
        AlphabetDistinct();
        DistinctLastAt(ALPHABET, Pos(c));
        DecryptAt(message, ALPHABET, i, Pos(c));
      } else {
        DecryptKeeps(message, ALPHABET, i);
      }
    }
  }

  /**
   A validation that reports the English alphabet announces a cipher that
   changes nothing, in either direction.
   */
  lemma SameAsEnglishIsIdentity(message: string, alphabet: string, encrypting: bool)
    requires ValidateAlphabet(message, alphabet) == Ok(true)
    ensures |alphabet| == ALPHABET_LEN
    ensures SubCipher(message, alphabet, encrypting) == message
  {
    EnglishAlphabetIsIdentity(message, encrypting);
  }

  /**
   A message that passes validation against a 26-character cipher alphabet
   survives decrypting then encrypting; when the cipher alphabet holds only
   lowercase letters, it also survives encrypting then decrypting.
   */
  lemma ValidatedRoundTrip(message: string, cipherAlphabet: string)
    requires |cipherAlphabet| == ALPHABET_LEN && ValidateAlphabet(message, cipherAlphabet).Ok?
    ensures SubCipher(SubCipher(message, cipherAlphabet, false), cipherAlphabet, true) == message
    ensures (forall j :: 0 <= j < |cipherAlphabet| ==> IsLower(cipherAlphabet[j])) ==>
      SubCipher(SubCipher(message, cipherAlphabet, true), cipherAlphabet, false) == message
  {
    InverseRoundTrip(message, cipherAlphabet);
    if forall j :: 0 <= j < |cipherAlphabet| ==> IsLower(cipherAlphabet[j]) {
      RoundTrip(message, cipherAlphabet);
    }
  }

  /**
   A message of lowercase letters encrypts to `r` when `r` holds, at each
   place, the cipher character standing where the message's letter stands in
   the English alphabet.
   */
  lemma EncryptMatches(message: string, cipherAlphabet: string, r: string)
    requires |cipherAlphabet| == ALPHABET_LEN && |r| == |message|
    requires forall i :: 0 <= i < |message| ==> IsLower(message[i]) && r[i] == cipherAlphabet[Pos(message[i])]
    ensures SubCipher(message, cipherAlphabet, true) == r
  {
    forall i | 0 <= i < |message|
      ensures SubCipher(message, cipherAlphabet, true)[i] == r[i]
    {
      EncryptAt(message, cipherAlphabet, i);
    }
  }

  /**
   The documented example: "helloworld" under "qazwsxedcrfvtgbyhnujmikolp"
   encrypts to "dsvvbkbnvw", which decrypts back.
   */
  lemma HelloWorld()
    ensures SubCipher("helloworld", "qazwsxedcrfvtgbyhnujmikolp", true) == "dsvvbkbnvw"
    ensures SubCipher("dsvvbkbnvw", "qazwsxedcrfvtgbyhnujmikolp", false) == "helloworld"
  {
    EncryptMatches("helloworld", "qazwsxedcrfvtgbyhnujmikolp", "dsvvbkbnvw");
    RoundTrip("helloworld", "qazwsxedcrfvtgbyhnujmikolp");
  }
}
