/**
 The standalone Caesar script, a copy of the `caesar` sub-command's transform;
 it computes the same function, `CaesarSpec.Cipher`.
 */
module CaesarScript {
  import opened Alphabet
  import opened CaesarSpec

  /**
   `caesar_cipher`: an empty message gives an empty result; otherwise the offset is
   reduced modulo 26 (and negated when decrypting) and the message is walked
   by `ShiftMessage`.
   */
  method CaesarCipher(message: string, offset: int, encrypting: bool) returns (r: string)
    ensures r == Cipher(message, offset, encrypting)
  {
    if message == [] {
      return "";
    }

    var shift := offset % ALPHABET_LEN;
    if !encrypting {
      shift := -shift;
    }

    r := ShiftMessage(message, shift);
  }

  /**
   The loop of `caesar_cipher`: walks the message appending to `result`; non-letters are
   copied, lowercase letters are shifted `shift` places round the alphabet, and
   letters that `find` does not locate in the alphabet are skipped.
   */
  method ShiftMessage(message: string, shift: int) returns (result: string)
    ensures result == Shift(message, shift)
  {
    result := [];
    for i := 0 to |message|
      invariant result == Shift(message[..i], shift)
    {
      var c := message[i];
      ghost var before := result;
      if !IsAlpha(c) {
        result := result + [c];
      } else {
        var alphabetIndex := Find(ALPHABET, c);
        FindInAlphabet(c);
        if alphabetIndex == -1 {
          ShiftStep(message, i, shift, before, result);
          continue;
        }
        var newAlphabetIndex := (alphabetIndex + shift) % ALPHABET_LEN;
        result := result + [ALPHABET[newAlphabetIndex]];
      }
      ShiftStep(message, i, shift, before, result);
    }
    assert message[..|message|] == message;
  }
}
