/**
 The row scan over the "Rival" sheet. Each row is a sequence of cell
 strings (blank cells read as ""). The scan keeps a buffer of codes and
 a counter, and writes premiums into a copy of the sheet:

 - a row mentioning "본부" empties the buffer first;
 - every cell whose trimmed text is all digits is appended to the buffer;
 - a row mentioning "Total" while the buffer is non-empty looks up the
   first buffered code; if the code is known, its premium is written into
   the leftmost cell whose trimmed text is exactly "Total" and the counter
   goes up; the buffer is emptied whether or not the code was known.

 Every decision reads the input rows; writes only go to the output.
 */
module RivalScan {
  import opened Wrappers
  import opened Text

  /** Marker of a new person block ("headquarters"). */
  const Headquarters := "본부"
  /** Marker of the row carrying the premium cell. */
  const TotalLabel := "Total"

  /** A cell of the output sheet: the input text, or a written premium. */
  datatype Cell<V> = Str(s: string) | Val(v: V)

  /** The output row of an input row nothing was written into. */
  function Unchanged<V>(row: seq<string>): (r: seq<Cell<V>>)
    ensures |r| == |row|
    ensures forall j :: 0 <= j < |row| ==> r[j] == Str(row[j])
  {
    seq(|row|, j requires 0 <= j < |row| => Str(row[j]))
  }

  /** The output sheet when nothing is written at all. */
  function UnchangedGrid<V>(rows: seq<seq<string>>): (g: seq<seq<Cell<V>>>)
    ensures |g| == |rows|
    ensures forall i :: 0 <= i < |rows| ==> g[i] == Unchanged(rows[i])
  {
    seq(|rows|, i requires 0 <= i < |rows| => Unchanged(rows[i]))
  }

  /** Python's `any(sub in v for v in row)`. */
  predicate AnyCellContains(row: seq<string>, sub: string)
    ensures AnyCellContains(row, sub) ==> |row| > 0
    ensures |sub| == 0 ==> (AnyCellContains(row, sub) <==> |row| > 0)
    decreases |row|
  {
    |row| > 0 && (Contains(row[0], sub) || AnyCellContains(row[1..], sub))
  }

  /** The recursive search agrees with "some cell contains `sub`". */
  lemma {:induction false} AnyCellContainsIff(row: seq<string>, sub: string)
    ensures AnyCellContains(row, sub) <==> exists j :: 0 <= j < |row| && Contains(row[j], sub)
    decreases |row|
  {
    if |row| > 0 {
      AnyCellContainsIff(row[1..], sub);
      if exists j :: 0 <= j < |row| && Contains(row[j], sub) {
        var j :| 0 <= j < |row| && Contains(row[j], sub);
        if j > 0 {
          assert row[1..][j - 1] == row[j];
        }
      }
      if exists j :: 0 <= j < |row[1..]| && Contains(row[1..][j], sub) {
        var j :| 0 <= j < |row[1..]| && Contains(row[1..][j], sub);
        assert row[j + 1] == row[1..][j];
      }
    }
  }

  /** Some cell of the row mentions "본부". */
  predicate MentionsHeadquarters(row: seq<string>) {
    AnyCellContains(row, Headquarters)
  }

  /** Some cell of the row mentions "Total". */
  predicate MentionsTotal(row: seq<string>) {
    AnyCellContains(row, TotalLabel)
  }

  /** The trimmed digit cells of a row, left to right. */
  function DigitCodes(row: seq<string>): (r: seq<string>)
    ensures |r| <= |row|
  {
    if |row| == 0 then []
    else
      var t := Trim(row[|row| - 1]);
      DigitCodes(row[..|row| - 1]) + (if IsDigits(t) then [t] else [])
  }

  /** A cell whose trimmed text is exactly "Total". */
  predicate IsTotalCell(cell: string) {
    Trim(cell) == TotalLabel
  }

  /** Leftmost column at or after `from` whose trimmed text is exactly "Total". */
  function FindTotal(row: seq<string>, from: nat): (r: Option<nat>)
    requires from <= |row|
    ensures r.Some? ==> from <= r.value < |row| && IsTotalCell(row[r.value])
    ensures r.Some? ==> forall j :: from <= j < r.value ==> !IsTotalCell(row[j])
    ensures r.None? ==> forall j :: from <= j < |row| ==> !IsTotalCell(row[j])
    decreases |row| - from
  {
    if from == |row| then None
    else if IsTotalCell(row[from]) then Some(from)
    else FindTotal(row, from + 1)
  }

  /** The buffer once a row's reset and digit collection have happened. */
  function Collect(codes: seq<string>, row: seq<string>): (r: seq<string>)
    ensures !MentionsHeadquarters(row) ==> |codes| <= |r| && r[..|codes|] == codes
    ensures |r| <= |codes| + |row|
    ensures MentionsHeadquarters(row) ==> |r| <= |row|
  {
    (if MentionsHeadquarters(row) then [] else codes) + DigitCodes(row)
  }

  /** A row that consumes the buffer: it mentions "Total" and codes are pending. */
  predicate Flushes(codes: seq<string>, row: seq<string>)
    ensures Flushes(codes, row)
        <==> MentionsTotal(row) && (|DigitCodes(row)| > 0 || (!MentionsHeadquarters(row) && |codes| > 0))
  {
    MentionsTotal(row) && |Collect(codes, row)| > 0
  }

  /** A row of the output that holds a written premium. */
  predicate RowWritten<V>(row: seq<Cell<V>>) {
    exists j :: 0 <= j < |row| && row[j].Val?
  }

  /** The number of output rows holding a written premium. */
  function CountWritten<V>(out: seq<seq<Cell<V>>>): (n: nat)
    ensures n <= |out|
  {
    if |out| == 0 then 0
    else CountWritten(out[..|out| - 1]) + (if RowWritten(out[|out| - 1]) then 1 else 0)
  }

  /** The loop state: the code buffer, the counter and the rows produced so far. */
  datatype ScanState<V> = ScanState(codes: seq<string>, updated: nat, out: seq<seq<Cell<V>>>)

  /** One iteration of the row loop. */
  function Step<V>(ref: map<string, V>, st: ScanState<V>, row: seq<string>): (r: ScanState<V>)
    ensures |r.out| == |st.out| + 1 && r.out[..|st.out|] == st.out
    ensures |r.out[|st.out|]| == |row|
    ensures r.updated == st.updated + (if RowWritten(r.out[|st.out|]) then 1 else 0)
    ensures forall j :: 0 <= j < |row| && r.out[|st.out|][j] != Str(row[j]) ==> IsTotalCell(row[j])
  {
    var collected := Collect(st.codes, row);
    if MentionsTotal(row) && |collected| > 0 then
      var target := collected[0];
      var col := FindTotal(row, 0);
      if target in ref && col.Some? then
        var written := Unchanged(row)[col.value := Val(ref[target])];
        assert written[col.value].Val?;
        ScanState([], st.updated + 1, st.out + [written])
      else
        ScanState([], st.updated, st.out + [Unchanged(row)])
    else
      ScanState(collected, st.updated, st.out + [Unchanged(row)])
  }

  /** The whole loop over the rows of the sheet, from an empty buffer. */
  function Scan<V>(ref: map<string, V>, rows: seq<seq<string>>): (r: ScanState<V>)
    ensures |r.out| == |rows|
    ensures r.updated == CountWritten(r.out)
  {
    if |rows| == 0 then ScanState([], 0, [])
    else
      var prev := Scan(ref, rows[..|rows| - 1]);
      var r := Step(ref, prev, rows[|rows| - 1]);
      assert r.out[..|r.out| - 1] == prev.out;
      r
  }
}
