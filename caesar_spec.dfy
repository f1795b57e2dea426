/**
 What the Caesar transform computes, as pure functions, and the properties
 promised of it. Both copies of the transform (the `caesar` sub-command and the
 standalone `caesar.py` script) are proved to compute `Cipher`.
 */
module CaesarSpec {
  import opened Alphabet

  /**
   The shift actually applied: the offset reduced modulo the alphabet length,
   negated when decrypting.
   */
  function EffectiveOffset(offset: int, encrypting: bool): int {
    if encrypting then offset % ALPHABET_LEN else -(offset % ALPHABET_LEN)
  }

  /**
   The shift applied lies strictly between -26 and 26, is never negative when
   encrypting nor positive when decrypting, and differs from the offset (negated
   when decrypting) by a multiple of 26.
   */
  lemma EffectiveOffsetRange(offset: int, encrypting: bool)
    ensures -ALPHABET_LEN < EffectiveOffset(offset, encrypting) < ALPHABET_LEN
    ensures encrypting ==> 0 <= EffectiveOffset(offset, encrypting)
    ensures !encrypting ==> EffectiveOffset(offset, encrypting) <= 0
    ensures (EffectiveOffset(offset, encrypting) - (if encrypting then offset else -offset)) % ALPHABET_LEN == 0
  {
    var q := offset / ALPHABET_LEN;
    assert offset == ALPHABET_LEN * q + offset % ALPHABET_LEN;
    if encrypting {
      assert EffectiveOffset(offset, encrypting) - offset == ALPHABET_LEN * -q + 0;
      ModOfMultiplePlus(-q, 0);
    } else {
      assert EffectiveOffset(offset, encrypting) + offset == ALPHABET_LEN * q + 0;
      ModOfMultiplePlus(q, 0);
    }
  }

  /** Decrypting applies the opposite shift to encrypting. */
  lemma EffectiveOffsetFlip(offset: int, encrypting: bool)
    ensures EffectiveOffset(offset, !encrypting) == -EffectiveOffset(offset, encrypting)
  {
  }

  /** A letter that is not in the lowercase alphabet: the transform drops it. */
  predicate Foreign(c: char) {
    IsAlpha(c) && !IsLower(c)
  }

  /** A message in which no character is dropped: only lowercase letters and non-letters. */
  predicate NoForeignLetters(m: string) {
    forall i :: 0 <= i < |m| ==> !Foreign(m[i])
  }

  /**
   A character that is not a foreign letter, moved `k` places: a lowercase
   letter becomes the letter `k` places further round the alphabet, a
   non-letter stays as it is.
   */
  function Moved(c: char, k: int): (d: char)
    requires !Foreign(c)
    ensures !Foreign(d)
    ensures IsAlpha(d) <==> IsAlpha(c)
  {
    if IsAlpha(c) then
      var q := (Pos(c) + k) % ALPHABET_LEN;
      AlphabetAt(q);
      ALPHABET[q]
    else c
  }

  /**
   What one character of the message contributes to the output, under shift
   `k`: nothing for a foreign letter, since looking it up in the alphabet fails
   (`FindInAlphabet`), and the character moved `k` places otherwise.
   */
  function ShiftChar(c: char, k: int): (out: string)
    ensures |out| <= 1
    ensures out == [] <==> Foreign(c)
  {
    if Foreign(c) then [] else [Moved(c, k)]
  }

  /** The characters of `s` transformed one by one under shift `k`, in order. */
  function Shift(s: string, k: int): (r: string)
    ensures |r| <= |s|
  {
    if s == [] then []
    else Shift(s[..|s| - 1], k) + ShiftChar(s[|s| - 1], k)
  }

  /** Shifting one more character appends what that character contributes. */
  lemma ShiftSnoc(s: string, c: char, k: int)
    ensures Shift(s + [c], k) == Shift(s, k) + ShiftChar(c, k)
  {
    assert (s + [c])[..|s|] == s;
  }

  /**
   The step of the transform's loop: once `before` holds the first `i`
   characters shifted, appending what character `i` contributes gives the first
   `i + 1` shifted.
   */
  lemma ShiftStep(message: string, i: int, k: int, before: string, after: string)
    requires 0 <= i < |message| && before == Shift(message[..i], k)
    requires after == before + ShiftChar(message[i], k)
    ensures after == Shift(message[..i + 1], k)
  {
    assert message[..i + 1] == message[..i] + [message[i]];
    ShiftSnoc(message[..i], message[i], k);
  }

  /**
   `_caesar_cipher(message, offset, encrypting)`: the message shifted by the
   effective offset. (The early return for an empty message gives the same
   empty result; `EmptyMessage`.)
   */
  function Cipher(message: string, offset: int, encrypting: bool): (r: string)
    ensures |r| <= |message|
  {
    Shift(message, EffectiveOffset(offset, encrypting))
  }

  /** The subsequence of non-letters of `s`. */
  function NonLetters(s: string): string {
    if s == [] then []
    else NonLetters(s[..|s| - 1]) + (if IsAlpha(s[|s| - 1]) then [] else [s[|s| - 1]])
  }

  /** Moving a lowercase letter by `k` lands on the letter `k` places further round the alphabet. */
  lemma MovedLetter(c: char, k: int)
    requires IsLower(c)
    ensures Moved(c, k) == ALPHABET[(Pos(c) + k) % ALPHABET_LEN]
    ensures IsLower(Moved(c, k)) && Pos(Moved(c, k)) == (Pos(c) + k) % ALPHABET_LEN
  {
    AlphabetAt((Pos(c) + k) % ALPHABET_LEN);
  }

  /** An empty message gives an empty result, whatever the offset. */
  lemma EmptyMessage(offset: int, encrypting: bool)
    ensures Cipher([], offset, encrypting) == []
  {
  }

  /** Offsets that differ by a multiple of 26 give the same output. */
  lemma OffsetPeriodic(message: string, offset: int, n: int, encrypting: bool)
    ensures Cipher(message, offset + ALPHABET_LEN * n, encrypting) == Cipher(message, offset, encrypting)
  {
    var q, r := offset / ALPHABET_LEN, offset % ALPHABET_LEN;
    assert offset + ALPHABET_LEN * n == ALPHABET_LEN * (q + n) + r;
    ModOfMultiplePlus(q + n, r);
    var k := EffectiveOffset(offset, encrypting);
    assert EffectiveOffset(offset + ALPHABET_LEN * n, encrypting) == k;
  }

  /** A multiple of the alphabet length plus a remainder in range leaves that remainder. */
  lemma ModOfMultiplePlus(d: int, r: int)
    requires 0 <= r < ALPHABET_LEN
    ensures (ALPHABET_LEN * d + r) % ALPHABET_LEN == r
  {
  }

  /**
   Only foreign letters are lost: the output is as long as the message exactly
   when the message has none.
   */
  lemma {:induction false} ShiftLength(s: string, k: int)
    ensures |Shift(s, k)| == |s| <==> NoForeignLetters(s)
  {
    if s != [] {
      var init := s[..|s| - 1];
      ShiftLength(init, k);
      assert NoForeignLetters(s) <==> NoForeignLetters(init) && !Foreign(s[|s| - 1]);
    }
  }

  lemma CipherLength(message: string, offset: int, encrypting: bool)
    ensures |Cipher(message, offset, encrypting)| <= |message|
    ensures |Cipher(message, offset, encrypting)| == |message| <==> NoForeignLetters(message)
  {
    ShiftLength(message, EffectiveOffset(offset, encrypting));
  }

  /** Every non-letter of the message appears in the output, unchanged and in the same order. */
  lemma {:induction false} ShiftKeepsNonLetters(s: string, k: int)
    ensures NonLetters(Shift(s, k)) == NonLetters(s)
  {
    if s != [] {
      var init, c := s[..|s| - 1], s[|s| - 1];
      ShiftKeepsNonLetters(init, k);
      var prefix := Shift(init, k);
      var tail := ShiftChar(c, k);
      if tail != [] {
        assert (prefix + tail)[..|prefix + tail| - 1] == prefix;
      } else {
        assert prefix + tail == prefix;
      }
    }
  }

  lemma CipherKeepsNonLetters(message: string, offset: int, encrypting: bool)
    ensures NonLetters(Cipher(message, offset, encrypting)) == NonLetters(message)
  {
    ShiftKeepsNonLetters(message, EffectiveOffset(offset, encrypting));
  }

  /** The output never holds a foreign letter: every letter in it is lowercase. */
  lemma {:induction false} ShiftOutputLowercase(s: string, k: int)
    ensures NoForeignLetters(Shift(s, k))
  {
    if s != [] {
      ShiftOutputLowercase(s[..|s| - 1], k);
    }
  }

  /**
   In a message without foreign letters, the character at position `i` of the
   output is the message's character `i` moved `k` places.
   */
  lemma {:induction false} ShiftAt(s: string, k: int, i: int)
    requires NoForeignLetters(s) && 0 <= i < |s|
    ensures |Shift(s, k)| == |s|
    ensures Shift(s, k)[i] == Moved(s[i], k)
  {
    var init := s[..|s| - 1];
    assert NoForeignLetters(init);
    ShiftLength(s, k);
    ShiftLength(init, k);
    if i < |s| - 1 {
      ShiftAt(init, k, i);
    }
  }

  /** Shifts that differ by a multiple of the alphabet length land on the same place. */
  lemma SameShift(p: int, a: int, b: int)
    requires (a - b) % ALPHABET_LEN == 0
    ensures (p + a) % ALPHABET_LEN == (p + b) % ALPHABET_LEN
  {
    var m := (a - b) / ALPHABET_LEN;
    assert a == b + ALPHABET_LEN * m;
  }

  /**
   A lowercase letter at alphabet position `p` becomes the letter at position
   `(p + offset) mod 26` when encrypting and `(p - offset) mod 26` when
   decrypting; every other character of a message without foreign letters is
   copied.
   */
  lemma CipherAt(message: string, offset: int, encrypting: bool, i: int)
    requires NoForeignLetters(message) && 0 <= i < |message|
    ensures |Cipher(message, offset, encrypting)| == |message|
    ensures Cipher(message, offset, encrypting)[i] ==
      if IsAlpha(message[i])
      then ALPHABET[(Pos(message[i]) + (if encrypting then offset else -offset)) % ALPHABET_LEN]
      else message[i]
  {
    var k := EffectiveOffset(offset, encrypting);
    EffectiveOffsetRange(offset, encrypting);
    ShiftAt(message, k, i);
    if IsAlpha(message[i]) {
      MovedLetter(message[i], k);
      var p := Pos(message[i]);
      var signed := if encrypting then offset else -offset;
      SameShift(p, k, signed);
    }
  }

  /**
   Decrypting with the offset used to encrypt restores every message made of
   lowercase letters and non-letters, and so does encrypting after decrypting.
   */
  lemma RoundTrip(message: string, offset: int)
    requires NoForeignLetters(message)
    ensures Cipher(Cipher(message, offset, true), offset, false) == message
    ensures Cipher(Cipher(message, offset, false), offset, true) == message
  {
    RoundTripOneWay(message, offset, true);
    RoundTripOneWay(message, offset, false);
  }

  lemma RoundTripOneWay(message: string, offset: int, encrypting: bool)
    requires NoForeignLetters(message)
    ensures Cipher(Cipher(message, offset, encrypting), offset, !encrypting) == message
  {
    EffectiveOffsetFlip(offset, encrypting);
    ShiftRoundTrip(message, EffectiveOffset(offset, encrypting));
  }

  /** Shifting by `k` and then by `-k` restores a message without foreign letters. */
  lemma ShiftRoundTrip(s: string, k: int)
    requires NoForeignLetters(s)
    ensures Shift(Shift(s, k), -k) == s
  {
    var once := Shift(s, k);
    ShiftLength(s, k);
    ShiftOutputLowercase(s, k);
    forall i | 0 <= i < |s|
      ensures s[i] == Moved(once[i], -k)
    {
      ShiftAt(s, k, i);
      MovedBack(s[i], k);
    }
    ShiftPointwise(once, -k, s);
  }

  /**
   A message without foreign letters shifts to `r` when `r` holds, at every
   place, the message's character moved `k` places.
   */
  lemma ShiftPointwise(s: string, k: int, r: string)
    requires NoForeignLetters(s) && |r| == |s|
    requires forall i :: 0 <= i < |s| ==> r[i] == Moved(s[i], k)
    ensures Shift(s, k) == r
  {
    ShiftLength(s, k);
    forall i | 0 <= i < |s|
      ensures Shift(s, k)[i] == r[i]
    {
      ShiftAt(s, k, i);
    }
  }

  /** A character moved `k` places and then `-k` places is itself. */
  lemma MovedBack(c: char, k: int)
    requires !Foreign(c)
    ensures Moved(Moved(c, k), -k) == c
  {
    if IsAlpha(c) {
      AlphabetMembers(c);
      MovedLetter(c, k);
      MovedLetter(Moved(c, k), -k);
      ShiftBack(Pos(c), k);
    }
  }

  /** Going `k` places round the alphabet and then `k` places back returns to the start. */
  lemma ShiftBack(p: int, k: int)
    requires 0 <= p < ALPHABET_LEN
    ensures ((p + k) % ALPHABET_LEN - k) % ALPHABET_LEN == p
  {
    var m := (p + k) / ALPHABET_LEN;
    assert (p + k) % ALPHABET_LEN - k == p + ALPHABET_LEN * -m;
  }

  /**
   A message without foreign letters shifts to `r` when `r` agrees with it on
   every non-letter and holds, at each letter, the letter `k` places further on.
   */
  lemma ShiftMatches(s: string, k: int, r: string)
    requires |r| == |s|
    requires forall i :: 0 <= i < |s| ==>
      if IsAlpha(s[i]) then IsLower(s[i]) && IsLower(r[i]) && Pos(r[i]) == (Pos(s[i]) + k) % ALPHABET_LEN
      else r[i] == s[i]
    ensures Shift(s, k) == r
  {
    assert NoForeignLetters(s);
    ShiftLength(s, k);
    forall i | 0 <= i < |s|
      ensures Shift(s, k)[i] == r[i]
    {
      ShiftAt(s, k, i);
      if IsAlpha(s[i]) {
        MovedLetter(s[i], k);
        AlphabetMembers(r[i]);
      }
    }
  }

  /** The documented examples: "hello world" with offset 3 is "khoor zruog", and back. */
  lemma HelloWorld()
    ensures Cipher("hello world", 3, true) == "khoor zruog"
    ensures Cipher("khoor zruog", 3, false) == "hello world"
  {
    ShiftMatches("hello world", 3, "khoor zruog");
    RoundTripOneWay("hello world", 3, true);
  }
}
