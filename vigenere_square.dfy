/**
 The generator of the Vigenère square file: 26 left rotations of the English
 alphabet, one per line.
 */
module VigenereSquare {
  import opened Alphabet

  /** `s` rotated left by `k` places: its first `k` characters moved to the end. */
  function RotateLeft(s: string, k: nat): (r: string)
    requires k <= |s|
    ensures |r| == |s|
  {
    s[k..] + s[..k]
  }

  /**
   A rotation keeps every character, each as often as before; the character at
   place `i` of the result is the one `k` places further on in `s`, wrapping round.
   */
  lemma RotateLeftAt(s: string, k: nat)
    requires k <= |s|
    ensures multiset(RotateLeft(s, k)) == multiset(s)
    ensures forall i :: 0 <= i < |s| - k ==> RotateLeft(s, k)[i] == s[i + k]
    ensures forall i :: |s| - k <= i < |s| ==> RotateLeft(s, k)[i] == s[i + k - |s|]
  {
    assert s == s[..k] + s[k..];
  }

  /**
   Row `i` of the square: the alphabet rotated left by `(i + 1) mod 26`, so a
   rearrangement of the alphabet that starts with its letter `(i + 1) mod 26`.
   */
  function Row(i: nat): (r: string)
    requires i < ALPHABET_LEN
    ensures |r| == ALPHABET_LEN
  {
    RotateLeft(ALPHABET, (i + 1) % ALPHABET_LEN)
  }

  /** The 26 rows in order. */
  function Rows(): seq<string> {
    seq(ALPHABET_LEN, i requires 0 <= i < ALPHABET_LEN => Row(i))
  }

  /** The rows joined by newlines, with no newline after the last. */
  function JoinLines(rows: seq<string>): string {
    if |rows| == 0 then ""
    else if |rows| == 1 then rows[0]
    else JoinLines(rows[..|rows| - 1]) + "\n" + rows[|rows| - 1]
  }

  /** What `writelines` puts in the file: the pieces one after another. */
  function Concat(pieces: seq<string>): string {
    if pieces == [] then "" else Concat(pieces[..|pieces| - 1]) + pieces[|pieces| - 1]
  }

  /** Moving the first character of a rotation to its end rotates one place further. */
  lemma RotateOnce(s: string, k: nat)
    requires k < |s|
    ensures RotateLeft(s, k)[1..] + [RotateLeft(s, k)[0]] == RotateLeft(s, k + 1)
  {
    assert s[..k + 1] == s[..k] + [s[k]];
  }

  /** Rotating by the whole length gives the string back, as rotating by nothing does. */
  lemma RotateFull(s: string)
    ensures RotateLeft(s, |s|) == s == RotateLeft(s, 0)
  {
  }

  lemma ConcatSnoc(pieces: seq<string>, piece: string)
    ensures Concat(pieces + [piece]) == Concat(pieces) + piece
  {
    assert (pieces + [piece])[..|pieces|] == pieces;
  }

  lemma JoinLinesSnoc(rows: seq<string>, n: nat)
    requires 1 <= n < |rows|
    ensures JoinLines(rows[..n + 1]) == JoinLines(rows[..n]) + "\n" + rows[n]
  {
    assert rows[..n + 1][..n] == rows[..n];
  }

  /**
   The state of the generator after `n + 1` rotations: `alphabet` is the last
   rotation and `finalList` holds the first `n + 1` rows, every one after the
   first behind a newline, so that the pieces spell those rows joined by newlines.
   */
  predicate Recorded(n: nat, alphabet: string, finalList: seq<string>)
    requires n < ALPHABET_LEN
  {
    && alphabet == Row(n)
    && |finalList| == n + 1
    && finalList[0] == Row(0)
    && (forall i :: 1 <= i <= n ==> finalList[i] == "\n" + Row(i))
    && Concat(finalList) == JoinLines(Rows()[..n + 1])
  }

  /** The first rotation, recorded on its own, is the state after one row. */
  lemma RecordedFirst()
    ensures Recorded(0, ALPHABET[1..] + [ALPHABET[0]], [ALPHABET[1..] + [ALPHABET[0]]])
  {
    RotateOnce(ALPHABET, 0);
    RotateFull(ALPHABET);
    ConcatSnoc([], Row(0));
    assert Rows()[..1] == [Row(0)];
  }

  /** One more rotation, recorded behind a newline, is the state after one more row. */
  lemma RecordedNext(n: nat, alphabet: string, finalList: seq<string>)
    requires n + 1 < ALPHABET_LEN && Recorded(n, alphabet, finalList)
    ensures Recorded(n + 1, alphabet[1..] + [alphabet[0]], finalList + ["\n" + (alphabet[1..] + [alphabet[0]])])
  {
    NextRow(n);
    NextConcat(n, finalList);
  }

  /** Writing row `n + 1` behind a newline extends the text by that row. */
  lemma NextConcat(n: nat, finalList: seq<string>)
    requires n + 1 < ALPHABET_LEN && Concat(finalList) == JoinLines(Rows()[..n + 1])
    ensures Concat(finalList + ["\n" + Row(n + 1)]) == JoinLines(Rows()[..n + 2])
  {
    ConcatSnoc(finalList, "\n" + Row(n + 1));
    JoinLinesSnoc(Rows(), n + 1);
  }

  /** Rotating row `n` one place further gives row `n + 1`. */
  lemma NextRow(n: nat)
    requires n + 1 < ALPHABET_LEN
    ensures Row(n)[1..] + [Row(n)[0]] == Row(n + 1)
  {
    assert (n + 1) % ALPHABET_LEN == n + 1;
    RotateOnce(ALPHABET, n + 1);
    if n + 2 == ALPHABET_LEN {
      RotateFull(ALPHABET);
    } else {
      assert (n + 2) % ALPHABET_LEN == n + 2;
    }
  }

  /**
   `main` of the square generator: rotates the alphabet once and records it,
   then 25 more times, recording each rotation behind a newline; the file
   receives the recorded pieces one after another.
   */
  method CreateSquare() returns (finalList: seq<string>, contents: string)
    ensures |finalList| == ALPHABET_LEN
    ensures finalList[0] == Row(0)
    ensures forall i :: 1 <= i < ALPHABET_LEN ==> finalList[i] == "\n" + Row(i)
    ensures contents == JoinLines(Rows())
  {
    var alphabet := ALPHABET;

    RecordedFirst();
    var first, rest := alphabet[0], alphabet[1..];
    alphabet := rest + [first];
    finalList := [alphabet];

    for n := 0 to |alphabet| - 1
      invariant Recorded(n, alphabet, finalList)
    {
      RecordedNext(n, alphabet, finalList);
      first, rest := alphabet[0], alphabet[1..];
      alphabet := rest + [first];
      finalList := finalList + ["\n" + alphabet];
    }

    assert Rows()[..ALPHABET_LEN] == Rows();
    contents := Concat(finalList);
  }

  /** Every row is a rearrangement of the alphabet, starting with its letter `(i + 1) mod 26`. */
  lemma RowIsPermutation(i: nat)
    requires i < ALPHABET_LEN
    ensures multiset(Row(i)) == multiset(ALPHABET)
    ensures |Row(i)| == ALPHABET_LEN && Row(i)[0] == ALPHABET[(i + 1) % ALPHABET_LEN]
  {
    RotateLeftAt(ALPHABET, (i + 1) % ALPHABET_LEN);
    RowStart(i);
  }

  lemma RowStart(i: nat)
    requires i < ALPHABET_LEN
    ensures |Row(i)| == ALPHABET_LEN && Row(i)[0] == ALPHABET[(i + 1) % ALPHABET_LEN]
  {
  }

  /** The first row starts from 'b' and the last row is the alphabet itself. */
  lemma FirstAndLastRows()
    ensures Row(0) == ALPHABET[1..] + "a"
    ensures Row(ALPHABET_LEN - 1) == ALPHABET
  {
    assert (0 + 1) % ALPHABET_LEN == 1 && (ALPHABET_LEN - 1 + 1) % ALPHABET_LEN == 0;
    RotateFull(ALPHABET);
    RotateOnce(ALPHABET, 0);
    AlphabetAt(0);
  }

  /** No two rows start with the same letter (so no two rows are equal). */
  lemma FirstLettersDistinct(i: nat, j: nat)
    requires i < ALPHABET_LEN && j < ALPHABET_LEN && i != j
    ensures Row(i)[0] != Row(j)[0]
  {
    var a := if i + 1 == ALPHABET_LEN then 0 else i + 1;
    var b := if j + 1 == ALPHABET_LEN then 0 else j + 1;
    assert Row(i)[0] == ALPHABET[a] by {
      RowStart(i);
      assert (i + 1) % ALPHABET_LEN == a;
    }
    assert Row(j)[0] == ALPHABET[b] by {
      RowStart(j);
      assert (j + 1) % ALPHABET_LEN == b;
    }
    assert ALPHABET[a] != ALPHABET[b] by {
      AlphabetAt(a);
      AlphabetAt(b);
    }
  }

  /** Every lowercase letter starts one of the rows. */
  lemma EveryLetterStartsARow(c: char)
    requires IsLower(c)
    ensures exists i :: 0 <= i < ALPHABET_LEN && Row(i)[0] == c
  {
    AlphabetMembers(c);
    var i := (Pos(c) + ALPHABET_LEN - 1) % ALPHABET_LEN;
    assert (i + 1) % ALPHABET_LEN == Pos(c);
    RowStart(i);
  }

  /**
   When every row has 26 characters, the first `n` rows joined by newlines
   take `27 * n - 1` characters, row `i` standing at `27 * i` and followed by a
   newline unless it is the last.
   */
  lemma {:induction false} JoinLinesLayout(rows: seq<string>, n: nat, i: nat)
    requires 1 <= n <= |rows| && i < n
    requires forall k :: 0 <= k < |rows| ==> |rows[k]| == ALPHABET_LEN
    ensures |JoinLines(rows[..n])| == (ALPHABET_LEN + 1) * n - 1
    ensures JoinLines(rows[..n])[(ALPHABET_LEN + 1) * i .. (ALPHABET_LEN + 1) * i + ALPHABET_LEN] == rows[i]
    ensures i < n - 1 ==> JoinLines(rows[..n])[(ALPHABET_LEN + 1) * i + ALPHABET_LEN] == '\n'
  {
    var text := JoinLines(rows[..n]);
    var start := (ALPHABET_LEN + 1) * i;
    if n == 1 {
      assert text == rows[0];
    } else {
      var prefix := JoinLines(rows[..n - 1]);
      assert rows[..n][..n - 1] == rows[..n - 1];
      assert text == prefix + "\n" + rows[n - 1];
      JoinLinesLayout(rows, n - 1, if i < n - 1 then i else 0);
      if i < n - 1 {
        assert text[start .. start + ALPHABET_LEN] == prefix[start .. start + ALPHABET_LEN];
        if i < n - 2 {
          JoinLinesLayout(rows, n - 1, i);
          assert text[start + ALPHABET_LEN] == prefix[start + ALPHABET_LEN];
        }
      } else {
        assert start == |prefix| + 1;
        assert text[start .. start + ALPHABET_LEN] == rows[n - 1];
      }
    }
  }

  /**
   The square file: 26 lines of 26 characters, 26 * 26 + 25 characters in
   all, line `i` being row `i`; every line but the last ends in a newline, and
   the file does not end in one.
   */
  lemma SquareFileLayout(i: nat)
    requires i < ALPHABET_LEN
    ensures |JoinLines(Rows())| == ALPHABET_LEN * ALPHABET_LEN + ALPHABET_LEN - 1
    ensures JoinLines(Rows())[(ALPHABET_LEN + 1) * i .. (ALPHABET_LEN + 1) * i + ALPHABET_LEN] == Row(i)
    ensures i < ALPHABET_LEN - 1 ==> JoinLines(Rows())[(ALPHABET_LEN + 1) * i + ALPHABET_LEN] == '\n'
    ensures JoinLines(Rows())[|JoinLines(Rows())| - 1] != '\n'
  {
    var rows := Rows();
    forall k | 0 <= k < |rows|
      ensures |rows[k]| == ALPHABET_LEN
    {
      RowStart(k);
    }
    assert rows[..ALPHABET_LEN] == rows;
    JoinLinesLayout(rows, ALPHABET_LEN, i);
    JoinLinesLayout(rows, ALPHABET_LEN, ALPHABET_LEN - 1);
    var text := JoinLines(rows);
    var start := (ALPHABET_LEN + 1) * (ALPHABET_LEN - 1);
    assert text[|text| - 1] == text[start .. start + ALPHABET_LEN][ALPHABET_LEN - 1];
    FirstAndLastRows();
    AlphabetAt(ALPHABET_LEN - 1);
  }
}
