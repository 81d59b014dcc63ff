/** The counting part of `ftfy.autodecode.build_classifier`: every byte window of an encoded
    line whose centre byte has the high bit set is packed into a matrix row, and the cell for
    that row and the line's encoding is incremented.

    The corpus file, the list of encodings and `line.encode(encoding)` are parameters: `lines`,
    `encoders`, and each encoder's `Some(bytes)` / `None` (UnicodeEncodeError). Cells are
    unbounded integers rather than float32; the final normalisation is not part of this model. */
module BuildClassifier {
  import opened Wrappers

  /** `1 << 23`: one row per window `b0, b1, b2` with `b1 >= 0x80`. */
  const Rows: nat := 0x80_0000

  /** `trigram_to_row(trigram)` (lines 13-18): `b0` in the top eight bits, the low seven bits
      of `b1` in the middle, `b2` at the bottom. Only the first three bytes are read. */
  function TrigramToRow(trigram: seq<Byte>): (row: int)
    requires |trigram| >= 3
    ensures -0x8000 <= row < Rows
    ensures trigram[1] >= 0x80 ==> 0 <= row
    ensures row % 0x100 == trigram[2]
  {
    trigram[0] * 0x8000 + (trigram[1] as int - 0x80) * 0x100 + trigram[2]
  }

  /** `row_to_trigram(row)` (lines 20-24). Python's `>>` and `%` by a positive power of two
      floor, as Dafny's `/` and `%` do; `bytes([...])` raises (None) when `b0` is not a byte,
      that is for a negative row or one of `1 << 23` or more. */
  function RowToTrigram(row: int): (r: Option<seq<Byte>>)
    ensures r.Some? <==> 0 <= row < Rows
    ensures r.Some? ==> |r.value| == 3 && r.value[1] >= 0x80
  {
    var b0 := row / 0x8000;
    var b1 := (row / 0x100) % 0x80 + 0x80;
    var b2 := row % 0x100;
    if 0 <= b0 < 0x100 then Some([b0, b1, b2]) else None
  }

  /** Every window with a high-bit middle byte has a row of the matrix, and unpacking that row
      gives the window back. */
  lemma RowOfTrigramRoundTrip(trigram: seq<Byte>)
    requires |trigram| == 3 && trigram[1] >= 0x80
    ensures 0 <= TrigramToRow(trigram) < Rows
    ensures RowToTrigram(TrigramToRow(trigram)) == Some(trigram)
  {
    var row := TrigramToRow(trigram);
    var b0: int, mid: int, b2: int := trigram[0], trigram[1] as int - 0x80, trigram[2];
    assert row == (b0 * 0x80 + mid) * 0x100 + b2;
    assert row / 0x100 == b0 * 0x80 + mid;
    assert (row / 0x100) % 0x80 == mid;
    assert row == b0 * 0x8000 + (mid * 0x100 + b2);
    assert row / 0x8000 == b0;
    assert RowToTrigram(row).value == [b0, mid + 0x80, b2];
    assert trigram == [trigram[0], trigram[1], trigram[2]];
  }

  /** Every row of the matrix is the row of exactly the window it unpacks to. */
  lemma TrigramOfRowRoundTrip(row: int)
    requires 0 <= row < Rows
    ensures RowToTrigram(row).Some?
    ensures TrigramToRow(RowToTrigram(row).value) == row
  {
    var q := row / 0x100;
    assert row == q * 0x100 + row % 0x100;
    assert q == (q / 0x80) * 0x80 + q % 0x80;
    assert row == (q / 0x80) * 0x8000 + ((q % 0x80) * 0x100 + row % 0x100);
    assert row / 0x8000 == q / 0x80;
  }

  // ---------------------------------------------------------------------------------------
  // What the count is.

  /** `pos` is in `range(1, len(linebytes) - 1)`, its byte has the high bit set, and the
      window centred on it packs to `row` (lines 40-44). */
  predicate IsCentre(linebytes: seq<Byte>, pos: int, row: int)
  {
    1 <= pos && pos + 1 < |linebytes| && linebytes[pos] >= 0x80 && TrigramToRow(linebytes[pos - 1..pos + 2]) == row
  }

  /** The number of centres below `k` that pack to `row`. */
  function CentresBelow(linebytes: seq<Byte>, row: int, k: int): nat
    decreases k
  {
    if k <= 0 then 0
    else CentresBelow(linebytes, row, k - 1) + (if IsCentre(linebytes, k - 1, row) then 1 else 0)
  }

  /** What one encoded line adds to a row of its encoding's column. */
  function LineCount(linebytes: seq<Byte>, row: int): nat
  {
    CentresBelow(linebytes, row, |linebytes|)
  }

  /** `possible_encoding(line, 'ascii')`: every character is below U+0080. */
  predicate IsAsciiText(line: string)
  {
    forall i :: 0 <= i < |line| ==> line[i] < '\U{80}'
  }

  /** `line.encode(encoding)`; None is a UnicodeEncodeError. */
  type Encoder = string -> Option<seq<Byte>>

  /** What one line of the corpus adds to a row of the column of `encode` (lines 34-47). */
  function LineContribution(line: string, encode: Encoder, row: int): nat
  {
    if IsAsciiText(line) then 0
    else match encode(line)
      case None => 0
      case Some(linebytes) => LineCount(linebytes, row)
  }

  /** What the corpus adds to a row of the column of `encode`. */
  function CorpusCount(lines: seq<string>, encode: Encoder, row: int): nat
  {
    if |lines| == 0 then 0
    else CorpusCount(lines[..|lines| - 1], encode, row) + LineContribution(lines[|lines| - 1], encode, row)
  }

  /** The positions of an encoded line that are centres packing to `row`. */
  ghost function Centres(linebytes: seq<Byte>, row: int): set<int>
  {
    set pos | 0 <= pos < |linebytes| && IsCentre(linebytes, pos, row)
  }

  /** The count of an encoded line is the number of its positions that are centres. */
  lemma LineCountIsCentres(linebytes: seq<Byte>, row: int)
    ensures LineCount(linebytes, row) == |Centres(linebytes, row)|
  {
    var centres := Centres(linebytes, row);
    CentresBelowIsCentres(linebytes, row, |linebytes|);
    assert (set pos | pos in centres && pos < |linebytes|) == centres;
  }

  lemma {:induction false} CentresBelowIsCentres(linebytes: seq<Byte>, row: int, k: nat)
    requires k <= |linebytes|
    ensures CentresBelow(linebytes, row, k) == |set pos | pos in Centres(linebytes, row) && pos < k|
  {
    if k > 0 {
      CentresBelowIsCentres(linebytes, row, k - 1);
      SetBelowStep(Centres(linebytes, row), k);
    }
  }

  /** Going from the members below `k - 1` to those below `k` adds `k - 1` when it is one. */
  lemma SetBelowStep(s: set<int>, k: int)
    ensures |set x | x in s && x < k| == |set x | x in s && x < k - 1| + (if k - 1 in s then 1 else 0)
  {
    var below := set x | x in s && x < k - 1;
    var upto := set x | x in s && x < k;
    if k - 1 in s {
      assert upto == below + {k - 1};
    } else {
      assert upto == below;
    }
  }

  /** The first and the last byte are never centres, and a line shorter than three bytes adds
      nothing. */
  lemma {:induction false} EndsAreNeverCentres(linebytes: seq<Byte>, row: int)
    ensures !IsCentre(linebytes, 0, row) && !IsCentre(linebytes, |linebytes| - 1, row)
    ensures |linebytes| < 3 ==> LineCount(linebytes, row) == 0
  {
    if |linebytes| < 3 {
      LineCountIsCentres(linebytes, row);
      assert Centres(linebytes, row) == {};
    }
  }

  /** Counting a corpus shards: the count of two runs of lines is the sum of their counts. */
  lemma {:induction false} CorpusCountAppend(a: seq<string>, b: seq<string>, encode: Encoder, row: int)
    ensures CorpusCount(a + b, encode, row) == CorpusCount(a, encode, row) + CorpusCount(b, encode, row)
    decreases |b|
  {
    if |b| == 0 {
      assert a + b == a;
    } else {
      assert (a + b)[..|a + b| - 1] == a + b[..|b| - 1];
      CorpusCountAppend(a, b[..|b| - 1], encode, row);
    }
  }

  /** ASCII-only lines and lines the encoding cannot represent add nothing to the column. */
  lemma {:induction false} SkippedLinesAddNothing(lines: seq<string>, encode: Encoder, row: int)
    requires forall i :: 0 <= i < |lines| ==> IsAsciiText(lines[i]) || encode(lines[i]).None?
    ensures CorpusCount(lines, encode, row) == 0
  {
    if |lines| > 0 {
      SkippedLinesAddNothing(lines[..|lines| - 1], encode, row);
    }
  }

  // ---------------------------------------------------------------------------------------
  // The imperative accumulation of `learn_matrix`.

  /** The inner loop over `pos` (lines 40-45): add the centres of one encoded line to one
      column. */
  method AddEncodedLine(matrix: array2<int>, column: nat, linebytes: seq<Byte>)
    requires matrix.Length0 == Rows && column < matrix.Length1
    modifies matrix
    ensures forall r, j :: 0 <= r < Rows && 0 <= j < matrix.Length1 ==>
              matrix[r, j] == old(matrix[r, j]) + (if j == column then LineCount(linebytes, r) else 0)
  {
    var pos := 1;
    assert forall r :: CentresBelow(linebytes, r, 1) == 0;
    while pos < |linebytes| - 1
      invariant 1 <= pos <= if |linebytes| < 2 then 1 else |linebytes| - 1
      invariant forall r, j :: 0 <= r < Rows && 0 <= j < matrix.Length1 ==>
                  matrix[r, j] == old(matrix[r, j]) + (if j == column then CentresBelow(linebytes, r, pos) else 0)
    {
      CentreStep(linebytes, pos);
      if linebytes[pos] >= 0x80 {
        var trigram := linebytes[pos - 1..pos + 2];
        var row := TrigramToRow(trigram);
        matrix[row, column] := matrix[row, column] + 1;
      }
      pos := pos + 1;
    }
    LoopEndCount(linebytes, pos);
  }

  /** Where the loop stops, no position is left that could be a centre. */
  lemma LoopEndCount(linebytes: seq<Byte>, pos: int)
    requires pos == if |linebytes| < 2 then 1 else |linebytes| - 1
    ensures forall r :: LineCount(linebytes, r) == CentresBelow(linebytes, r, pos)
  {
    forall r ensures LineCount(linebytes, r) == CentresBelow(linebytes, r, pos) {
      if |linebytes| >= 2 {
        assert !IsCentre(linebytes, |linebytes| - 1, r);
      } else {
        assert !IsCentre(linebytes, 0, r);
      }
    }
  }

  /** Position `pos` of the loop adds one to the row of its window exactly when its byte has
      the high bit set. */
  lemma CentreStep(linebytes: seq<Byte>, pos: nat)
    requires 1 <= pos < |linebytes| - 1
    ensures forall r :: CentresBelow(linebytes, r, pos + 1) ==
              CentresBelow(linebytes, r, pos) +
              (if linebytes[pos] >= 0x80 && r == TrigramToRow(linebytes[pos - 1..pos + 2]) then 1 else 0)
  {
  }

  /** The loop over encodings for one line (lines 34-47): each column gains that line's
      contribution under its own encoding. */
  method AddLine(matrix: array2<int>, line: string, encoders: seq<Encoder>)
    requires matrix.Length0 == Rows && matrix.Length1 == |encoders|
    modifies matrix
    ensures forall r, j :: 0 <= r < Rows && 0 <= j < |encoders| ==>
              matrix[r, j] == old(matrix[r, j]) + LineContribution(line, encoders[j], r)
  {
    if IsAsciiText(line) {
      return;
    }
    for i := 0 to |encoders|
      invariant forall r, j :: 0 <= r < Rows && 0 <= j < |encoders| ==>
                  matrix[r, j] == old(matrix[r, j]) + (if j < i then LineContribution(line, encoders[j], r) else 0)
    {
      var encoded := encoders[i](line);
      if encoded.Some? {
        AddEncodedLine(matrix, i, encoded.value);
      }
    }
  }

  /** `learn_matrix` without the normalisation (lines 27-47): every cell is one plus the
      number of times its row occurs as a centred window of the corpus under its encoding. */
  method LearnMatrix(lines: seq<string>, encoders: seq<Encoder>) returns (matrix: array2<int>)
    ensures fresh(matrix)
    ensures matrix.Length0 == Rows && matrix.Length1 == |encoders|
    ensures forall r, j :: 0 <= r < Rows && 0 <= j < |encoders| ==>
              matrix[r, j] == 1 + CorpusCount(lines, encoders[j], r)
  {
    matrix := new int[Rows, |encoders|]((_, _) => 1);
    for k := 0 to |lines|
      invariant forall r, j :: 0 <= r < Rows && 0 <= j < |encoders| ==>
                  matrix[r, j] == 1 + CorpusCount(lines[..k], encoders[j], r)
    {
      assert lines[..k + 1][..k] == lines[..k];
      AddLine(matrix, lines[k], encoders);
    }
    assert lines[..|lines|] == lines;
  }
}
