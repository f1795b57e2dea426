# Encryptions: the cipher core in Dafny

This project models the core of the Encryptions command-line tools. The core
has three parts, all working over the 26-letter lowercase English alphabet
(`string.ascii_lowercase`):

- **Caesar cipher.** `_caesar_cipher` in `caesar_cipher/main.py` and its copy
  `caesar_cipher` in the standalone `caesar.py`. The offset is reduced modulo 26
  and negated when decrypting. Non-letters are copied. Lowercase letters are
  moved round the alphabet. A letter that is not in the lowercase alphabet
  (an uppercase one, say) is dropped from the output.
- **Monoalphabetic substitution.** From `ma_sub_cipher/main.py`:
  - `_load_alphabet` picks the cipher alphabet: the `--alphabet` string, the
    `--alphabet-file` contents, or the English alphabet;
  - `_validate_alphabet` refuses an alphabet that repeats a character, and one
    that does not cover the message;
  - `_ma_sub_cipher` translates through a `str.maketrans` table.
- **Vigenère square generator.** `create_vigenere_square.py`. It writes 26
  rotations of the alphabet, one per line. Row `i` is the alphabet rotated
  left by `(i + 1) mod 26`.

Files:

- `alphabet.dfy` (module `Alphabet`): the shared alphabet, the ASCII
  "is a letter" test, and `str.find`.
- `caesar_spec.dfy` (module `CaesarSpec`): what the Caesar transform computes,
  as functions (`Cipher`, `Shift`, `Moved`), and the lemmas about them.
- `caesar_cipher_main.dfy` (module `CaesarCipherMain`) and `caesar_script.dfy`
  (module `CaesarScript`): the two copies of the transform. Each is a method
  with the source's loop, proved to compute `Cipher`.
- `ma_sub_cipher.dfy` (module `MonoalphabeticSubstitution`): alphabet loading
  and validation with their error results, `str.maketrans` and
  `str.translate`, and the cipher.
- `vigenere_square.dfy` (module `VigenereSquare`): the generator as a method
  with the source's loop, proved to produce the rows joined by newlines, and
  the lemmas about the square.

## Model

| member | source | states |
|---|---|---|
| CaesarCipherMain.CaesarCipher | caesar_cipher/main.py:35-74 | The result is `Cipher(message, offset, encrypting)`, the early return for an empty message included |
| CaesarCipherMain.ShiftMessage | caesar_cipher/main.py:55-74 | The loop's result is `Shift(message, shift)`. Non-letters are appended, lowercase letters are moved `shift` places, letters `find` misses are skipped |
| CaesarScript.CaesarCipher | caesar.py:23-62 | The standalone copy computes the same `Cipher(message, offset, encrypting)` |
| CaesarScript.ShiftMessage | caesar.py:43-62 | The standalone copy's loop computes `Shift(message, shift)` |
| CaesarSpec.EffectiveOffset | caesar_cipher/main.py:48-53 | The shift applied: the offset reduced modulo 26, negated when decrypting (its range, sign and congruence are the next row) |
| CaesarSpec.EffectiveOffsetRange | caesar_cipher/main.py:48-53 | The shift applied lies strictly between -26 and 26, is never negative when encrypting nor positive when decrypting, and is congruent to the offset (negated when decrypting) modulo 26 |
| CaesarSpec.EffectiveOffsetFlip | caesar_cipher/main.py:51-53 | Decrypting applies exactly the opposite shift to encrypting |
| CaesarSpec.Moved | caesar_cipher/main.py:59-72 | Moving a non-dropped character gives a non-dropped character, and it is a letter exactly when the input is |
| CaesarSpec.ShiftChar | caesar_cipher/main.py:57-72 | One character contributes at most one character, and none exactly when it is a letter outside the lowercase alphabet |
| CaesarSpec.MovedLetter | caesar_cipher/main.py:67-69 | A lowercase letter at place `p` becomes `ALPHABET[(p + k) mod 26]`, again a lowercase letter |
| CaesarSpec.Shift | caesar_cipher/main.py:55-74 | The loop's output as a function: each character's contribution appended in message order; never longer than the message |
| CaesarSpec.Cipher | caesar_cipher/main.py:35-74 | The output is never longer than the message |
| CaesarSpec.EmptyMessage | caesar_cipher/main.py:45-46 | An empty message gives an empty result for every offset |
| CaesarSpec.OffsetPeriodic | caesar_cipher/main.py:48-49 | Offsets that differ by a multiple of 26 give the same output |
| CaesarSpec.ShiftLength | caesar_cipher/main.py:57-65 | The output keeps the message's length exactly when the message holds no letter outside the lowercase alphabet |
| CaesarSpec.CipherLength | caesar_cipher/main.py:57-65 | The output is at most as long as the message, and equally long exactly when no letter is dropped |
| CaesarSpec.ShiftKeepsNonLetters | caesar_cipher/main.py:59-61 | The non-letters of the output are those of the message, in the same order |
| CaesarSpec.CipherKeepsNonLetters | caesar_cipher/main.py:59-61 | The same, for the whole transform |
| CaesarSpec.ShiftOutputLowercase | caesar_cipher/main.py:67-72 | Every letter of the output is lowercase |
| CaesarSpec.ShiftAt | caesar_cipher/main.py:57-72 | With no dropped letters, output place `i` is message character `i` moved |
| CaesarSpec.CipherAt | caesar_cipher/main.py:48-72 | With no dropped letters, a lowercase letter at place `p` becomes `ALPHABET[(p + offset) mod 26]` when encrypting and `ALPHABET[(p - offset) mod 26]` when decrypting; non-letters are copied |
| CaesarSpec.MovedBack | caesar_cipher/main.py:67-69 | Moving by `k` and then by `-k` gives the character back |
| CaesarSpec.ShiftRoundTrip | caesar_cipher/main.py:57-72 | Shifting by `k` and then by `-k` restores a message with no dropped letters |
| CaesarSpec.RoundTripOneWay | caesar_cipher/main.py:113-117 | Applying the opposite direction with the same offset undoes either direction |
| CaesarSpec.RoundTrip | caesar_cipher/main.py:113-117 | Decrypting with the offset used to encrypt restores any message of lowercase letters and non-letters, and encrypting after decrypting does too |
| CaesarSpec.ShiftMatches | caesar_cipher/main.py:57-72 | A message with no dropped letters shifts to any string that agrees with it on non-letters and holds each letter moved `k` places |
| CaesarSpec.HelloWorld | caesar_cipher/main.py:24-28 | "hello world" with offset 3 encrypts to "khoor zruog", which decrypts back |
| Alphabet.IsAlpha | caesar_cipher/main.py:60 | `str.isalpha` on ASCII: true for upper- and lowercase letters, false for everything else |
| Alphabet.Find | caesar_cipher/main.py:63 | `str.find` gives -1 exactly when the character is absent; otherwise the index of its first occurrence |
| Alphabet.FindInAlphabet | caesar_cipher/main.py:63-65 | Looking a character up in the alphabet gives its place when it is lowercase, and -1 otherwise |
| Alphabet.AlphabetDistinct | caesar_cipher/main.py:7 | `ascii_lowercase` repeats no letter |
| Alphabet.AlphabetMembers | caesar_cipher/main.py:7 | A character is in `ascii_lowercase` exactly when it is a lowercase letter, and then it stands at its place |
| MonoalphabeticSubstitution.LoadAlphabet | ma_sub_cipher/main.py:41-65 | Both sources given is an error. Neither gives the English alphabet. The string wins when given. Otherwise the file's text is used, or a file-not-found error |
| MonoalphabeticSubstitution.DistinctIffNoSmallerSet | ma_sub_cipher/main.py:77 | `len(set(s)) == len(s)` holds exactly when no character of `s` repeats |
| MonoalphabeticSubstitution.ValidateAlphabet | ma_sub_cipher/main.py:68-88 | The duplicate error arises exactly when the alphabet repeats a character. Otherwise the coverage error arises exactly when a message character is missing from it. Success reports whether the alphabet is the English one |
| MonoalphabeticSubstitution.MakeTrans | ma_sub_cipher/main.py:102-105 | The translation table's keys are exactly the characters of the source string |
| MonoalphabeticSubstitution.MakeTransAt | ma_sub_cipher/main.py:102-105 | The table maps a character to the target character at the place of its last occurrence |
| MonoalphabeticSubstitution.Translate | ma_sub_cipher/main.py:108 | Translation keeps the message's length |
| MonoalphabeticSubstitution.SubCipher | ma_sub_cipher/main.py:91-108 | The cipher keeps the message's length |
| MonoalphabeticSubstitution.EncryptAt | ma_sub_cipher/main.py:102-103 | Encrypting sends the English letter at place `j` to the cipher character at place `j`, and keeps every other character |
| MonoalphabeticSubstitution.DecryptAt | ma_sub_cipher/main.py:104-105 | Decrypting sends the cipher character at place `j` to the English letter at place `j`, `j` being its last occurrence |
| MonoalphabeticSubstitution.DecryptKeeps | ma_sub_cipher/main.py:104-108 | Decrypting keeps every character the cipher alphabet does not hold |
| MonoalphabeticSubstitution.RoundTrip | ma_sub_cipher/main.py:181-182 | With 26 distinct cipher characters, decrypting an encrypted lowercase message gives it back |
| MonoalphabeticSubstitution.InverseRoundTrip | ma_sub_cipher/main.py:181-182 | With 26 distinct cipher characters, encrypting a decrypted message written in the cipher alphabet gives it back |
| MonoalphabeticSubstitution.EnglishAlphabetIsIdentity | ma_sub_cipher/main.py:84-88 | With the English alphabet as the cipher alphabet, both directions change nothing |
| MonoalphabeticSubstitution.SameAsEnglishIsIdentity | ma_sub_cipher/main.py:84-88 | When validation reports the English alphabet, both directions change nothing |
| MonoalphabeticSubstitution.ValidatedRoundTrip | ma_sub_cipher/main.py:166-168 | A message that passes validation against a 26-character alphabet survives decrypting then encrypting. With an all-lowercase alphabet it also survives encrypting then decrypting |
| MonoalphabeticSubstitution.EncryptMatches | ma_sub_cipher/main.py:102-108 | A lowercase message encrypts to any string holding, at each place, the cipher character at the letter's alphabet place |
| MonoalphabeticSubstitution.HelloWorld | ma_sub_cipher/main.py:30-34 | "helloworld" under "qazwsxedcrfvtgbyhnujmikolp" encrypts to "dsvvbkbnvw", which decrypts back |
| VigenereSquare.CreateSquare | create_vigenere_square.py:4-26 | 26 pieces are recorded: row 0 first, then each row `i` behind a newline. What `writelines` writes is the 26 rows joined by newlines |
| VigenereSquare.RotateLeft | create_vigenere_square.py:16-17 | `rest + first` repeated `k` times in one step: the first `k` characters moved to the end; the length is kept |
| VigenereSquare.Row | create_vigenere_square.py:16-23 | Row `i` is the alphabet rotated left by `(i + 1) mod 26`, 26 characters long |
| VigenereSquare.Concat | create_vigenere_square.py:25-26 | What `writelines` writes: the pieces one after another, in order, with nothing added between them |
| VigenereSquare.RotateLeftAt | create_vigenere_square.py:16-22 | A rotation keeps every character as often as before, and place `i` holds the character `k` places further on, wrapping round |
| VigenereSquare.RotateOnce | create_vigenere_square.py:21-22 | Moving the first character of a rotation to the end rotates one place further |
| VigenereSquare.NextRow | create_vigenere_square.py:20-23 | Rotating row `n` once more gives row `n + 1` |
| VigenereSquare.RecordedNext | create_vigenere_square.py:20-23 | One loop pass keeps the generator's state: the current rotation, and the pieces recorded so far spelling the rows so far |
| VigenereSquare.RowIsPermutation | create_vigenere_square.py:15-23 | Every row is a rearrangement of the alphabet, and row `i` starts with alphabet letter `(i + 1) mod 26` |
| VigenereSquare.FirstAndLastRows | create_vigenere_square.py:15-23 | The first row is "bcd…za" and the last row is the alphabet itself |
| VigenereSquare.FirstLettersDistinct | create_vigenere_square.py:15-23 | No two rows start with the same letter |
| VigenereSquare.EveryLetterStartsARow | create_vigenere_square.py:15-23 | Every lowercase letter starts some row of the square |
| VigenereSquare.JoinLinesLayout | create_vigenere_square.py:23-26 | Rows of 26 characters joined by newlines take `27n - 1` characters. Row `i` stands at `27i`, followed by a newline unless it is the last |
| VigenereSquare.SquareFileLayout | create_vigenere_square.py:25-26 | The square file has 26 * 26 + 25 characters. Line `i` is row `i`, every line but the last ends in a newline, and the file does not end in one |

## Left out

- The command-line plumbing is not modelled: the typer applications, their help texts and rich styling, and the top-level `main.py`.
- Printing is not modelled. The commands print the cipher's result, which the model returns instead.
- `_validate_alphabet` prints a notice when the alphabet is the English one. `ValidateAlphabet` returns that fact as a boolean instead.
- Reading the alphabet file is not modelled: the file's contents, or their absence, are a parameter of `LoadAlphabet`.
- `CreateSquare` returns the text the square file would receive. Opening and writing `samples/vigenere_square` is not modelled.
- The Vigenère cipher itself (`vigenere_cipher/main.py`) is not part of this model. Only the generator of its square is modelled.
- `IsAlpha` is ASCII only, whereas Python's `str.isalpha` holds for every Unicode letter. In the model a non-ASCII letter passes through unchanged; in the source it is dropped, since `find` does not locate it.
- MonoalphabeticSubstitution.SubCipher: requires a cipher alphabet of exactly 26 characters. Validation does not check the length, and with any other length `str.maketrans` raises a `ValueError` the source does not catch. That crash is not modelled.
- The "Restore original case" comment in the Caesar loop is not carried out by the code. The model follows the code: uppercase letters are dropped.
- Python integers and Dafny integers are both unbounded. Python's `%` floors and Dafny's `%` is Euclidean, so they differ for a negative divisor; with the positive divisor 26 both give a result in [0, 26), so the offset arithmetic at caesar_cipher/main.py:49 and :68 carries over unchanged.
