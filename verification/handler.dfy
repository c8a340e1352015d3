/**
 The request handler's core: look the two sheets up by name, build the
 code -> premium map from "Sheet1", and run the row scan over "Rival".
 File upload, Excel parsing and writing, and the HTTP response are not
 modelled; the workbook arrives already parsed.
 */
module Handler {
  import opened Wrappers
  import opened Reference
  import opened RivalScan
  import opened ScanProperties

  const ReferenceSheet := "Sheet1"
  const RivalSheet := "Rival"

  /** The error returned when either sheet is absent. */
  const MissingSheetMessage := "Sheet1 또는 Rival 시트가 존재하지 않습니다."

  /**
   A parsed sheet, seen the two ways the handler reads it: its Code and
   premium columns row by row (`None` for an empty cell, codes already in
   string form), and all its cells as strings with blanks read as "".
   */
  datatype Sheet<V> = Sheet(keyed: seq<SourceRow<V>>, cells: seq<seq<string>>)

  /** What the handler writes back: the filtered Sheet1, the annotated Rival, the counter. */
  datatype Merged<V> = Merged(sheet1: seq<Entry<V>>, rival: seq<seq<Cell<V>>>, updatedRows: nat)

  /** The whole handler body, minus file and HTTP plumbing. */
  function MergeMonthlyP<V>(wb: map<string, Sheet<V>>): (r: Result<Merged<V>, string>)
    ensures r.Failure? <==> ReferenceSheet !in wb || RivalSheet !in wb
    ensures r.Failure? ==> r.error == MissingSheetMessage
    ensures r.Success? ==> |r.value.rival| == |wb[RivalSheet].cells|
    ensures r.Success? ==> |r.value.sheet1| <= |wb[ReferenceSheet].keyed|
    ensures r.Success? ==> r.value.updatedRows == CountWritten(r.value.rival) <= |wb[RivalSheet].cells|
    ensures r.Success? ==> r.value.sheet1 == DropIncomplete(wb[ReferenceSheet].keyed)
    ensures r.Success? ==> r.value.rival == Scan(BuildReferenceMap(wb[ReferenceSheet].keyed), wb[RivalSheet].cells).out
  {
    if ReferenceSheet !in wb || RivalSheet !in wb then Failure(MissingSheetMessage)
    else
      var entries := DropIncomplete(wb[ReferenceSheet].keyed);
      var st := Scan(ToDict(entries), wb[RivalSheet].cells);
      Success(Merged(entries, st.out, st.updated))
  }

  /**
   Every row of the annotated Rival sheet is its input row, or the input
   row with its leftmost "Total" cell replaced by the premium that
   Sheet1 gives, through its last complete row for that code, to the
   first code collected since the last reset.
   */
  lemma MergedRow<V>(wb: map<string, Sheet<V>>, i: nat)
    requires ReferenceSheet in wb && RivalSheet in wb
    requires i < |wb[RivalSheet].cells|
    ensures var rows := wb[RivalSheet].cells;
            var o := MergeMonthlyP(wb).value.rival[i];
      || (!RowWritten(o) && o == Unchanged(rows[i]))
      || (RowWritten(o) && FindTotal(rows[i], 0).Some?
          && exists k: nat :: k <= i && PendingStart(rows, k, i)
               && |Flatten(rows[k..i + 1])| > 0
               && Flatten(rows[k..i + 1])[0] in BuildReferenceMap(wb[ReferenceSheet].keyed)
               && o == Unchanged(rows[i])[FindTotal(rows[i], 0).value
                                          := Val(BuildReferenceMap(wb[ReferenceSheet].keyed)[Flatten(rows[k..i + 1])[0]])])
    ensures var rows := wb[RivalSheet].cells;
      forall k: nat :: k <= i && PendingStart(rows, k, i) && FindTotal(rows[i], 0).Some?
                       && |Flatten(rows[k..i + 1])| > 0
                       && Flatten(rows[k..i + 1])[0] in BuildReferenceMap(wb[ReferenceSheet].keyed)
                       ==> RowWritten(MergeMonthlyP(wb).value.rival[i])
  {
    var refMap := BuildReferenceMap(wb[ReferenceSheet].keyed);
    var rows := wb[RivalSheet].cells;
    if RowWritten(Scan(refMap, rows).out[i]) {
      WrittenValueIsFirstPending(refMap, rows, i);
    } else {
      ScanRowShape(refMap, rows, i);
    }
    forall k: nat | k <= i && PendingStart(rows, k, i) && FindTotal(rows[i], 0).Some?
                    && |Flatten(rows[k..i + 1])| > 0 && Flatten(rows[k..i + 1])[0] in refMap
      ensures RowWritten(Scan(refMap, rows).out[i])
    {
      KnownPendingIsWritten(refMap, rows, i, k);
    }
  }

  /**
   The column search of one row: the premium goes into the first cell
   whose trimmed text is exactly "Total", and the search stops there.
   */
  method WriteFirstTotal<V>(row: seq<string>, v: V) returns (newRow: seq<Cell<V>>, wrote: bool)
    ensures wrote <==> exists j :: 0 <= j < |row| && IsTotalCell(row[j])
    ensures wrote ==> exists j :: 0 <= j < |row| && IsTotalCell(row[j]) && newRow == Unchanged(row)[j := Val(v)]
                                  && forall k :: 0 <= k < j ==> !IsTotalCell(row[k])
    ensures !wrote ==> newRow == Unchanged(row)
  {
    newRow := Unchanged(row);
    wrote := false;
    var col := 0;
    while col < |row|
      invariant col <= |row|
      invariant forall j :: 0 <= j < col ==> !IsTotalCell(row[j])
    {
      if IsTotalCell(row[col]) {
        newRow := newRow[col := Val(v)];
        wrote := true;
        break;
      }
      col := col + 1;
    }
  }

  /** The pieces the loop body computes are exactly one step of the scan. */
  lemma {:induction false} StepByParts<V>(refMap: map<string, V>, st: ScanState<V>, row: seq<string>,
                                           codes: seq<string>, newRow: seq<Cell<V>>, updated: nat)
    requires codes == if Flushes(st.codes, row) then [] else Collect(st.codes, row)
    requires Flushes(st.codes, row) && Collect(st.codes, row)[0] in refMap && FindTotal(row, 0).Some?
             ==> newRow == Unchanged(row)[FindTotal(row, 0).value := Val(refMap[Collect(st.codes, row)[0]])]
                 && updated == st.updated + 1
    requires !(Flushes(st.codes, row) && Collect(st.codes, row)[0] in refMap && FindTotal(row, 0).Some?)
             ==> newRow == Unchanged(row) && updated == st.updated
    ensures Step(refMap, st, row) == ScanState(codes, updated, st.out + [newRow])
  {
  }

  /**
   One pass of the loop body over a row: reset on "본부", collect the
   digit codes, and on a "Total" row with pending codes look up the first
   one, write its premium if known, and empty the buffer.
   */
  method ProcessRow<V>(refMap: map<string, V>, st: ScanState<V>, row: seq<string>) returns (next: ScanState<V>)
    ensures next == Step(refMap, st, row)
  {
    var codes := st.codes;
    var updated := st.updated;
    if MentionsHeadquarters(row) {
      codes := [];
    }
    codes := codes + DigitCodes(row);
    var newRow := Unchanged(row);
    if MentionsTotal(row) && |codes| > 0 {
      var target := codes[0];
      if target in refMap {
        var wrote;
        newRow, wrote := WriteFirstTotal(row, refMap[target]);
        if wrote {
          updated := updated + 1;
        }
      }
      codes := [];
    }
    StepByParts(refMap, st, row, codes, newRow, updated);
    next := ScanState(codes, updated, st.out + [newRow]);
  }

  /**
   The row loop as the handler runs it, from an empty buffer and a zero
   counter; writes go to a copy while every decision reads the input rows.
   */
  method RunScan<V>(refMap: map<string, V>, rows: seq<seq<string>>) returns (out: seq<seq<Cell<V>>>, updated: nat)
    ensures out == Scan(refMap, rows).out && updated == Scan(refMap, rows).updated
    ensures |out| == |rows|
  {
    var st := ScanState([], 0, []);
    var i := 0;
    while i < |rows|
      invariant i <= |rows|
      invariant st == Scan(refMap, rows[..i])
    {
      st := ProcessRow(refMap, st, rows[i]);
      ScanPrefixStep(refMap, rows, i);
      i := i + 1;
    }
    assert rows[..i] == rows;
    out, updated := st.out, st.updated;
  }
}
