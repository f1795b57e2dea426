/**
 The alphabet shared by the three ciphers: `string.ascii_lowercase`, its
 length, the "is this a letter" test and `str.find` on it.
 */
module Alphabet {

  /** `len(ALPHABET)`: 26. */
  const ALPHABET_LEN: int := 26

  /**
   `string.ascii_lowercase`, bound to `ALPHABET` in the Caesar and substitution
   modules and used directly by the square generator.
   */
  const ALPHABET: string := LowercaseLetters()

  /** The letters 'a' to 'z': the one at place `i` is the `i`-th letter after 'a'. */
  function LowercaseLetters(): string {
    seq(ALPHABET_LEN, i => if 0 <= i < ALPHABET_LEN then ('a' as int + i) as char else 'a')
  }

  /** A lowercase ASCII letter. */
  predicate IsLower(c: char) {
    'a' <= c <= 'z'
  }

  /** `str.isalpha`, restricted to ASCII: the upper- and lowercase letters. */
  predicate IsAlpha(c: char) {
    IsLower(c) || 'A' <= c <= 'Z'
  }

  /** The place of a lowercase letter in the alphabet. */
  function Pos(c: char): int {
    c as int - 'a' as int
  }

  /** No character occurs twice in `s`. */
  predicate Distinct(s: string) {
    forall i, j :: 0 <= i < j < |s| ==> s[i] != s[j]
  }

  /** The set of characters of `s`, that is, Python's `set(s)`. */
  function Chars(s: string): set<char> {
    set c | c in s
  }

  /** The alphabet is the 26 lowercase letters, in order and without repetition. */
  lemma AlphabetAt(i: int)
    requires 0 <= i < ALPHABET_LEN
    ensures ALPHABET[i] == ('a' as int + i) as char
    ensures IsLower(ALPHABET[i]) && Pos(ALPHABET[i]) == i
  {
  }

  lemma AlphabetMembers(c: char)
    ensures c in ALPHABET <==> IsLower(c)
    ensures IsLower(c) ==> 0 <= Pos(c) < ALPHABET_LEN && ALPHABET[Pos(c)] == c
  {
    if IsLower(c) {
      AlphabetAt(Pos(c));
    }
  }

  lemma AlphabetDistinct()
    ensures Distinct(ALPHABET)
  {
    forall i, j | 0 <= i < j < |ALPHABET|
      ensures ALPHABET[i] != ALPHABET[j]
    {
      AlphabetAt(i);
      AlphabetAt(j);
    }
  }

  /**
   `s.find(c)`: the index of the first occurrence of `c` in `s`, or -1 when
   `c` does not occur.
   */
  function Find(s: string, c: char): (r: int)
    ensures -1 <= r < |s|
    ensures r == -1 <==> c !in s
    ensures 0 <= r ==> s[r] == c && c !in s[..r]
  {
    if s == [] then -1
    else if s[0] == c then 0
    else
      var k := Find(s[1..], c);
      if k == -1 then -1 else k + 1
  }

  /** In a sequence without repetition, `find` returns the one place a character occurs. */
  lemma {:induction false} FindDistinct(s: string, i: int)
    requires Distinct(s) && 0 <= i < |s|
    ensures Find(s, s[i]) == i
  {
    if i > 0 {
      assert s[1..][i - 1] == s[i];
      FindDistinct(s[1..], i - 1);
    }
  }

  /**
   Looking up a character in the alphabet gives its position when it is a
   lowercase letter, and -1 otherwise.
   */
  lemma FindInAlphabet(c: char)
    ensures Find(ALPHABET, c) == if IsLower(c) then Pos(c) else -1
  {
    AlphabetMembers(c);
    if IsLower(c) {
      AlphabetDistinct();
      FindDistinct(ALPHABET, Pos(c));
    }
  }
}
