/**
 Properties of the Rival row scan: what a single row can become, which
 code supplies a written premium, what the buffer holds between rows, and
 that later rows never change earlier output.
 */
module ScanProperties {
  import opened Text
  import opened RivalScan

  // ---------------------------------------------------------------------
  // Digit codes of a row and of a run of rows

  /** Digit collection distributes over a split of the row: left cells first. */
  lemma {:induction false} DigitCodesAppend(a: seq<string>, b: seq<string>)
    ensures DigitCodes(a + b) == DigitCodes(a) + DigitCodes(b)
    decreases |b|
  {
    if |b| == 0 {
      assert a + b == a;
    } else {
      var b' := b[..|b| - 1];
      assert (a + b)[..|a + b| - 1] == a + b';
      assert (a + b)[|a + b| - 1] == b[|b| - 1];
      DigitCodesAppend(a, b');
    }
  }

  /** A code is collected from a row exactly when some cell trims to it and it is all digits. */
  lemma {:induction false} DigitCodesMembers(row: seq<string>, c: string)
    ensures c in DigitCodes(row) <==> exists j :: 0 <= j < |row| && Trim(row[j]) == c && IsDigits(c)
    decreases |row|
  {
    if |row| > 0 {
      var init := row[..|row| - 1];
      DigitCodesMembers(init, c);
      if exists j :: 0 <= j < |init| && Trim(init[j]) == c && IsDigits(c) {
        var j :| 0 <= j < |init| && Trim(init[j]) == c && IsDigits(c);
        assert row[j] == init[j];
      }
      if exists j :: 0 <= j < |row| && Trim(row[j]) == c && IsDigits(c) {
        var j :| 0 <= j < |row| && Trim(row[j]) == c && IsDigits(c);
        if j < |row| - 1 {
          assert init[j] == row[j];
        }
      }
    }
  }

  /** The first collected code of a row is the leftmost digit cell, trimmed. */
  lemma {:induction false} DigitCodesHead(row: seq<string>, j: nat)
    requires j < |row| && IsDigits(Trim(row[j]))
    requires forall i :: 0 <= i < j ==> !IsDigits(Trim(row[i]))
    ensures |DigitCodes(row)| > 0 && DigitCodes(row)[0] == Trim(row[j])
  {
    assert row == row[..j] + row[j..];
    DigitCodesAppend(row[..j], row[j..]);
    assert row[j..] == [row[j]] + row[j + 1..];
    DigitCodesAppend([row[j]], row[j + 1..]);
    assert [row[j]][..0] == [];
    if DigitCodes(row[..j]) != [] {
      var c := DigitCodes(row[..j])[0];
      DigitCodesMembers(row[..j], c);
      assert false;
    }
  }

  /** The digit codes of a run of rows, in row-major order. */
  function Flatten(rows: seq<seq<string>>): (r: seq<string>)
  {
    if |rows| == 0 then []
    else Flatten(rows[..|rows| - 1]) + DigitCodes(rows[|rows| - 1])
  }

  lemma {:induction false} FlattenSnoc(rows: seq<seq<string>>, row: seq<string>)
    ensures Flatten(rows + [row]) == Flatten(rows) + DigitCodes(row)
  {
    assert (rows + [row])[..|rows|] == rows;
  }

  /** Flatten over rows[k..n+1] adds row n to Flatten over rows[k..n]. */
  lemma {:induction false} FlattenSliceSnoc(rows: seq<seq<string>>, k: nat, n: nat)
    requires k <= n < |rows|
    ensures Flatten(rows[k..n + 1]) == Flatten(rows[k..n]) + DigitCodes(rows[n])
  {
    assert rows[k..n + 1] == rows[k..n] + [rows[n]];
    FlattenSnoc(rows[k..n], rows[n]);
  }

  /** Flatten distributes over a split of the rows. */
  lemma {:induction false} FlattenAppend(a: seq<seq<string>>, b: seq<seq<string>>)
    ensures Flatten(a + b) == Flatten(a) + Flatten(b)
    decreases |b|
  {
    if |b| == 0 {
      assert a + b == a;
    } else {
      var b', last := b[..|b| - 1], b[|b| - 1];
      calc {
        Flatten(a + b);
        { assert a + b == (a + b') + [last]; }
        Flatten((a + b') + [last]);
        { FlattenSnoc(a + b', last); }
        Flatten(a + b') + DigitCodes(last);
        { FlattenAppend(a, b'); }
        Flatten(a) + Flatten(b') + DigitCodes(last);
        { assert b == b' + [last]; FlattenSnoc(b', last); }
        Flatten(a) + Flatten(b);
      }
    }
  }

  // ---------------------------------------------------------------------
  // Pending codes: the rows since the last reset

  /** No row strictly after `k` and before `n` starts a new person block. */
  predicate NoHeadquartersAfter(rows: seq<seq<string>>, k: nat, n: nat)
    requires k <= n <= |rows|
  {
    forall j :: k < j < n ==> !MentionsHeadquarters(rows[j])
  }

  /** No row from `k` up to before `n` consumed the codes gathered since `k`. */
  predicate NoFlushFrom(rows: seq<seq<string>>, k: nat, n: nat)
    requires k <= n <= |rows|
  {
    forall j :: k <= j < n && MentionsTotal(rows[j]) ==> Flatten(rows[k..j + 1]) == []
  }

  /** Rows k..n-1 hold no reset of the buffer. */
  predicate Pending(rows: seq<seq<string>>, k: nat, n: nat)
    requires k <= n <= |rows|
  {
    NoHeadquartersAfter(rows, k, n) && NoFlushFrom(rows, k, n)
  }

  /** Pending only looks at the rows before `n`. */
  lemma {:induction false} PendingPrefix(rows: seq<seq<string>>, m: nat, k: nat, n: nat)
    requires k <= n <= m <= |rows|
    ensures Pending(rows[..m], k, n) <==> Pending(rows, k, n)
  {
    forall j | k <= j < n
      ensures rows[..m][j] == rows[j] && rows[..m][k..j + 1] == rows[k..j + 1]
    {
    }
  }

  /**
   Row `k` starts the codes row `i` sees: no reset lies between them, and
   any earlier start that would add codes is cut off by a reset, so `k` is
   the last reset point up to rows without codes.
   */
  predicate PendingStart(rows: seq<seq<string>>, k: nat, i: nat)
    requires k <= i < |rows|
  {
    && NoHeadquartersAfter(rows, k, i + 1)
    && NoFlushFrom(rows, k, i)
    && forall k': nat :: k' < k && Flatten(rows[k'..k]) != [] ==>
         !(NoHeadquartersAfter(rows, k', i + 1) && NoFlushFrom(rows, k', i))
  }

  /** The start of the codes row `i` sees is unique up to rows without codes. */
  lemma {:induction false} PendingStartUnique(rows: seq<seq<string>>, i: nat, k1: nat, k2: nat)
    requires k1 <= i && k2 <= i && i < |rows|
    requires PendingStart(rows, k1, i) && PendingStart(rows, k2, i)
    ensures Flatten(rows[k1..i + 1]) == Flatten(rows[k2..i + 1])
  {
    if k1 < k2 {
      assert Flatten(rows[k1..k2]) == [];
      assert rows[k1..i + 1] == rows[k1..k2] + rows[k2..i + 1];
      FlattenAppend(rows[k1..k2], rows[k2..i + 1]);
    } else if k2 < k1 {
      assert Flatten(rows[k2..k1]) == [];
      assert rows[k2..i + 1] == rows[k2..k1] + rows[k1..i + 1];
      FlattenAppend(rows[k2..k1], rows[k1..i + 1]);
    }
  }

  // ---------------------------------------------------------------------
  // The scan, row by row

  /**
   What one step does to its row and to the buffer: the row is written
   exactly when it consumes a non-empty buffer whose first code is known
   and the row has a cell reading "Total"; the buffer is emptied whenever
   it is consumed, whether or not the code was known.
   */
  lemma {:induction false} StepOutcome<V>(ref: map<string, V>, st: ScanState<V>, row: seq<string>)
    ensures var o := Step(ref, st, row).out[|st.out|];
            var c := Collect(st.codes, row);
      && (RowWritten(o) <==> Flushes(st.codes, row) && c[0] in ref && FindTotal(row, 0).Some?)
      && (RowWritten(o) ==> o == Unchanged(row)[FindTotal(row, 0).value := Val(ref[c[0]])])
      && (!RowWritten(o) ==> o == Unchanged(row))
      && Step(ref, st, row).codes == (if Flushes(st.codes, row) then [] else c)
  {
    assert !RowWritten(Unchanged<V>(row));
  }

  /** A "본부" row forgets whatever was pending: the step is the same as from an empty buffer. */
  lemma {:induction false} HeadquartersResets<V>(ref: map<string, V>, st: ScanState<V>, row: seq<string>)
    requires MentionsHeadquarters(row)
    ensures Step(ref, st, row) == Step(ref, st.(codes := []), row)
  {
  }

  /**
   A "Total" row with pending codes always empties the buffer; when its
   first code is unknown the row is left as it was and the counter does
   not move.
   */
  lemma {:induction false} FlushEmptiesBuffer<V>(ref: map<string, V>, st: ScanState<V>, row: seq<string>)
    requires Flushes(st.codes, row)
    ensures Step(ref, st, row).codes == []
    ensures Collect(st.codes, row)[0] !in ref ==>
              Step(ref, st, row).out == st.out + [Unchanged(row)] && Step(ref, st, row).updated == st.updated
  {
  }

  /** The cell written into always lies in a row that passes the "mentions Total" test. */
  lemma {:induction false} TotalCellMentionsTotal(row: seq<string>)
    requires FindTotal(row, 0).Some?
    ensures MentionsTotal(row)
  {
    var j := FindTotal(row, 0).value;
    TrimmedContains(row[j], TotalLabel);
    AnyCellContainsIff(row, TotalLabel);
  }

  /** Output row `i` is produced by the step over input row `i`, from the state after rows[..i]. */
  lemma {:induction false} ScanRowIsStep<V>(ref: map<string, V>, rows: seq<seq<string>>, i: nat)
    requires i < |rows|
    ensures Scan(ref, rows).out[i] == Step(ref, Scan(ref, rows[..i]), rows[i]).out[i]
    decreases |rows|
  {
    if i < |rows| - 1 {
      var init := rows[..|rows| - 1];
      assert init[..i] == rows[..i] && init[i] == rows[i];
      ScanRowIsStep(ref, init, i);
      assert Scan(ref, rows).out[..|init|] == Scan(ref, init).out;
    } else {
      assert rows[..|rows| - 1] == rows[..i];
    }
  }

  /** Scanning one more row is one more step. */
  lemma {:induction false} ScanSnoc<V>(ref: map<string, V>, rows: seq<seq<string>>, row: seq<string>)
    ensures Scan(ref, rows + [row]) == Step(ref, Scan(ref, rows), row)
  {
    assert (rows + [row])[..|rows|] == rows;
  }

  /** The scan of the first i + 1 rows is one step after the scan of the first i. */
  lemma {:induction false} ScanPrefixStep<V>(ref: map<string, V>, rows: seq<seq<string>>, i: nat)
    requires i < |rows|
    ensures Scan(ref, rows[..i + 1]) == Step(ref, Scan(ref, rows[..i]), rows[i])
  {
    assert rows[..i + 1][..i] == rows[..i];
  }

  /** The scan of all rows extends the scan of all rows but the last. */
  lemma {:induction false} ScanExtends<V>(ref: map<string, V>, rows: seq<seq<string>>)
    requires |rows| > 0
    ensures Scan(ref, rows).out[..|rows| - 1] == Scan(ref, rows[..|rows| - 1]).out
    ensures Scan(ref, rows[..|rows| - 1]).updated <= Scan(ref, rows).updated
  {
  }

  /** Later rows never change output already produced, nor lower the counter. */
  lemma {:induction false} ScanPrefixStable<V>(ref: map<string, V>, rows: seq<seq<string>>, n: nat)
    requires n <= |rows|
    ensures Scan(ref, rows[..n]).out == Scan(ref, rows).out[..n]
    ensures Scan(ref, rows[..n]).updated <= Scan(ref, rows).updated
    decreases |rows|
  {
    if n < |rows| {
      var init := rows[..|rows| - 1];
      assert init[..n] == rows[..n];
      ScanExtends(ref, rows);
      ScanPrefixStable(ref, init, n);
      var b := Scan(ref, rows).out;
      assert b[..n] == b[..|init|][..n];
    } else {
      assert rows[..n] == rows;
    }
  }

  /** The code buffer after the rows, computed without any lookup. */
  function Buffer(rows: seq<seq<string>>): seq<string> {
    if |rows| == 0 then []
    else
      var b := Buffer(rows[..|rows| - 1]);
      var row := rows[|rows| - 1];
      if Flushes(b, row) then [] else Collect(b, row)
  }

  /**
   The buffer never depends on the reference map: after a "Total" row
   with pending codes it is empty whether or not the code was known.
   */
  lemma {:induction false} ScanBufferIsBuffer<V>(ref: map<string, V>, rows: seq<seq<string>>)
    ensures Scan(ref, rows).codes == Buffer(rows)
    decreases |rows|
  {
    if |rows| > 0 {
      var init := rows[..|rows| - 1];
      ScanBufferIsBuffer(ref, init);
      StepOutcome(ref, Scan(ref, init), rows[|rows| - 1]);
    }
  }

  /** The row where the pending codes started: the last reset point. */
  function LastReset(rows: seq<seq<string>>): (k: nat)
    ensures k <= |rows|
  {
    if |rows| == 0 then 0
    else
      var b := Buffer(rows[..|rows| - 1]);
      var row := rows[|rows| - 1];
      if Flushes(b, row) then |rows|
      else if MentionsHeadquarters(row) then |rows| - 1
      else LastReset(rows[..|rows| - 1])
  }

  lemma {:induction false} BufferSnoc(rows: seq<seq<string>>, row: seq<string>)
    ensures Buffer(rows + [row])
         == if Flushes(Buffer(rows), row) then [] else Collect(Buffer(rows), row)
    ensures LastReset(rows + [row])
         == if Flushes(Buffer(rows), row) then |rows| + 1
            else if MentionsHeadquarters(row) then |rows|
            else LastReset(rows)
  {
    assert (rows + [row])[..|rows|] == rows;
  }

  /** Pending runs ending before the appended row stay pending in the longer sheet. */
  lemma {:induction false} PendingSnoc(rows: seq<seq<string>>, row: seq<string>, k: nat)
    requires k <= |rows| && Pending(rows, k, |rows|)
    requires k == |rows| || !MentionsHeadquarters(row)
    requires MentionsTotal(row) ==> Flatten(rows[k..] + [row]) == []
    ensures Pending(rows + [row], k, |rows| + 1)
  {
    var all := rows + [row];
    forall j | k <= j < |all| && MentionsTotal(all[j])
      ensures Flatten(all[k..j + 1]) == []
    {
      if j < |rows| {
        assert all[k..j + 1] == rows[k..j + 1] && all[j] == rows[j];
      } else {
        assert all[k..j + 1] == rows[k..] + [row];
      }
    }
    forall j | k < j < |all|
      ensures !MentionsHeadquarters(all[j])
    {
      if j < |rows| {
        assert all[j] == rows[j];
      }
    }
  }

  /** A "본부" row that does not flush starts a new pending run at itself. */
  lemma {:induction false} PendingAfterHeadquarters(rows: seq<seq<string>>, row: seq<string>)
    requires !Flushes(Buffer(rows), row) && MentionsHeadquarters(row)
    ensures Pending(rows + [row], |rows|, |rows| + 1)
    ensures Collect(Buffer(rows), row) == Flatten((rows + [row])[|rows|..])
  {
    assert (rows + [row])[|rows|..] == [row];
    var e: seq<seq<string>> := [];
    FlattenSnoc(e, row);
    assert rows[|rows|..] == e;
    PendingSnoc(rows, row, |rows|);
  }

  /** A row that neither flushes nor resets extends the pending run. */
  lemma {:induction false} PendingAfterPlainRow(rows: seq<seq<string>>, row: seq<string>)
    requires Pending(rows, LastReset(rows), |rows|)
    requires Buffer(rows) == Flatten(rows[LastReset(rows)..])
    requires !Flushes(Buffer(rows), row) && !MentionsHeadquarters(row)
    ensures Pending(rows + [row], LastReset(rows), |rows| + 1)
    ensures Collect(Buffer(rows), row) == Flatten((rows + [row])[LastReset(rows)..])
  {
    var k := LastReset(rows);
    assert (rows + [row])[k..] == rows[k..] + [row];
    FlattenSnoc(rows[k..], row);
    PendingSnoc(rows, row, k);
  }

  /** The invariant of BufferIsPending, carried over one more row. */
  lemma {:induction false} BufferIsPendingSnoc(rows: seq<seq<string>>, row: seq<string>)
    requires Pending(rows, LastReset(rows), |rows|)
    requires Buffer(rows) == Flatten(rows[LastReset(rows)..])
    ensures Pending(rows + [row], LastReset(rows + [row]), |rows| + 1)
    ensures Buffer(rows + [row]) == Flatten((rows + [row])[LastReset(rows + [row])..])
  {
    BufferSnoc(rows, row);
    if Flushes(Buffer(rows), row) {
      assert (rows + [row])[|rows| + 1..] == [];
    } else if MentionsHeadquarters(row) {
      PendingAfterHeadquarters(rows, row);
    } else {
      PendingAfterPlainRow(rows, row);
    }
  }

  /**
   Between rows the buffer holds exactly the digit codes, in row-major
   order, of the rows since the last reset, and no reset happened since.
   */
  lemma {:induction false} BufferIsPending(rows: seq<seq<string>>)
    ensures Pending(rows, LastReset(rows), |rows|)
    ensures Buffer(rows) == Flatten(rows[LastReset(rows)..])
    decreases |rows|
  {
    if |rows| == 0 {
      assert rows[0..] == [];
    } else {
      var init := rows[..|rows| - 1];
      assert rows == init + [rows[|rows| - 1]];
      BufferIsPending(init);
      BufferIsPendingSnoc(init, rows[|rows| - 1]);
    }
  }

  /** A slice inside a prefix is the same slice of the whole sheet. */
  lemma SliceOfPrefix(rows: seq<seq<string>>, m: nat, a: nat, b: nat)
    requires a <= b <= m <= |rows|
    ensures rows[..m][a..b] == rows[a..b]
  {
  }

  /** A "Total" row ending a run with codes breaks NoFlushFrom for that run. */
  lemma {:induction false} TotalRowEndsRun(rows: seq<seq<string>>, k': nat)
    requires k' < |rows| && MentionsTotal(rows[|rows| - 1]) && Flatten(rows[k'..]) != []
    ensures !NoFlushFrom(rows, k', |rows|)
  {
    assert rows[k'..|rows| - 1 + 1] == rows[k'..];
  }

  /** A run pending up to the end is pending up to the row before the end. */
  lemma {:induction false} PendingDropLast(rows: seq<seq<string>>, k': nat)
    requires k' < |rows| && Pending(rows, k', |rows|)
    ensures Pending(rows[..|rows| - 1], k', |rows| - 1)
  {
    assert Pending(rows, k', |rows| - 1);
    PendingPrefix(rows, |rows| - 1, k', |rows| - 1);
  }

  /** No run that starts before the last reset and holds codes is still pending. */
  lemma {:induction false} LastResetEarliest(rows: seq<seq<string>>, k': nat)
    requires k' < LastReset(rows) && Flatten(rows[k'..LastReset(rows)]) != []
    ensures !Pending(rows, k', |rows|)
    decreases |rows|
  {
    var init := rows[..|rows| - 1];
    var row := rows[|rows| - 1];
    if Flushes(Buffer(init), row) {
      assert rows[k'..LastReset(rows)] == rows[k'..];
      TotalRowEndsRun(rows, k');
    } else if !MentionsHeadquarters(row) {
      var k := LastReset(init);
      SliceOfPrefix(rows, |rows| - 1, k', k);
      LastResetEarliest(init, k');
      if Pending(rows, k', |rows|) {
        PendingDropLast(rows, k');
      }
    }
  }

  /** The buffer before row `i` is the pending run that ends just before row `i`. */
  lemma {:induction false} PendingBeforeRow(rows: seq<seq<string>>, i: nat)
    requires i < |rows|
    ensures LastReset(rows[..i]) <= i
    ensures Pending(rows, LastReset(rows[..i]), i)
    ensures Buffer(rows[..i]) == Flatten(rows[LastReset(rows[..i])..i])
  {
    var pre := rows[..i];
    var k := LastReset(pre);
    BufferIsPending(pre);
    PendingPrefix(rows, i, k, i);
    assert pre[k..] == rows[k..i];
  }

  /** Every run that starts before the reset point of row `i` and holds codes is cut off by a reset. */
  lemma {:induction false} EarlierStartsAreReset(rows: seq<seq<string>>, i: nat, k: nat)
    requires i < |rows|
    requires k == if MentionsHeadquarters(rows[i]) then i else LastReset(rows[..i])
    ensures forall k': nat :: k' < k && Flatten(rows[k'..k]) != [] ==>
              !(NoHeadquartersAfter(rows, k', i + 1) && NoFlushFrom(rows, k', i))
  {
    forall k': nat | k' < k && Flatten(rows[k'..k]) != []
      ensures !(NoHeadquartersAfter(rows, k', i + 1) && NoFlushFrom(rows, k', i))
    {
      if !MentionsHeadquarters(rows[i]) {
        var pre := rows[..i];
        assert pre[k'..k] == rows[k'..k];
        LastResetEarliest(pre, k');
        PendingPrefix(rows, i, k', i);
      }
    }
  }

  /**
   The codes row `i` sees, once its own reset and collection are done, are
   the digit codes of a run of rows ending at `i` with no reset inside.
   */
  lemma {:induction false} CollectIsPendingRun(rows: seq<seq<string>>, i: nat, k: nat)
    requires i < |rows|
    requires k == if MentionsHeadquarters(rows[i]) then i else LastReset(rows[..i])
    ensures k <= i && PendingStart(rows, k, i)
    ensures Collect(Buffer(rows[..i]), rows[i]) == Flatten(rows[k..i + 1])
  {
    PendingBeforeRow(rows, i);
    FlattenSliceSnoc(rows, k, i);
    if k == i {
      assert rows[i..i] == [];
    }
    EarlierStartsAreReset(rows, i, k);
  }

  /**
   The flush rule at the level of the whole sheet: row `i` consumes the
   buffer exactly when it mentions "Total" and some code has been collected
   since its start row.
   */
  lemma {:induction false} FlushesIff(rows: seq<seq<string>>, i: nat, k: nat)
    requires k <= i < |rows| && PendingStart(rows, k, i)
    ensures Flushes(Buffer(rows[..i]), rows[i]) <==> MentionsTotal(rows[i]) && Flatten(rows[k..i + 1]) != []
  {
    var k0 := if MentionsHeadquarters(rows[i]) then i else LastReset(rows[..i]);
    CollectIsPendingRun(rows, i, k0);
    PendingStartUnique(rows, i, k, k0);
  }

  /**
   A written row holds, in its leftmost "Total" cell, the premium of the
   first code collected since the last reset; every other cell is the
   input text.
   */
  lemma {:induction false} WrittenValueIsFirstPending<V>(ref: map<string, V>, rows: seq<seq<string>>, i: nat)
    requires i < |rows| && RowWritten(Scan(ref, rows).out[i])
    ensures FindTotal(rows[i], 0).Some?
    ensures exists k: nat :: k <= i && PendingStart(rows, k, i)
                      && |Flatten(rows[k..i + 1])| > 0 && Flatten(rows[k..i + 1])[0] in ref
                      && Scan(ref, rows).out[i]
                         == Unchanged(rows[i])[FindTotal(rows[i], 0).value := Val(ref[Flatten(rows[k..i + 1])[0]])]
  {
    var st := Scan(ref, rows[..i]);
    ScanRowIsStep(ref, rows, i);
    ScanBufferIsBuffer(ref, rows[..i]);
    StepOutcome(ref, st, rows[i]);
    var k := if MentionsHeadquarters(rows[i]) then i else LastReset(rows[..i]);
    CollectIsPendingRun(rows, i, k);
  }

  /**
   The converse of WrittenValueIsFirstPending: when the first code since
   the last reset is known and the row has a cell reading "Total", the row
   is written.
   */
  lemma {:induction false} KnownPendingIsWritten<V>(ref: map<string, V>, rows: seq<seq<string>>, i: nat, k: nat)
    requires i < |rows| && k <= i && PendingStart(rows, k, i)
    requires FindTotal(rows[i], 0).Some?
    requires |Flatten(rows[k..i + 1])| > 0 && Flatten(rows[k..i + 1])[0] in ref
    ensures RowWritten(Scan(ref, rows).out[i])
  {
    var st := Scan(ref, rows[..i]);
    ScanRowIsStep(ref, rows, i);
    ScanBufferIsBuffer(ref, rows[..i]);
    StepOutcome(ref, st, rows[i]);
    var k0 := if MentionsHeadquarters(rows[i]) then i else LastReset(rows[..i]);
    CollectIsPendingRun(rows, i, k0);
    PendingStartUnique(rows, i, k, k0);
    TotalCellMentionsTotal(rows[i]);
  }

  /**
   At most one cell per row changes: an output row is its input row, or
   the input row with only its leftmost "Total" cell replaced by a
   premium from the reference map.
   */
  lemma {:induction false} ScanRowShape<V>(ref: map<string, V>, rows: seq<seq<string>>, i: nat)
    requires i < |rows|
    ensures var o := Scan(ref, rows).out[i];
      || (!RowWritten(o) && o == Unchanged(rows[i]))
      || (RowWritten(o) && FindTotal(rows[i], 0).Some?
          && exists code :: code in ref && o == Unchanged(rows[i])[FindTotal(rows[i], 0).value := Val(ref[code])])
  {
    var o := Scan(ref, rows).out[i];
    if RowWritten(o) {
      WrittenValueIsFirstPending(ref, rows, i);
    } else {
      ScanRowIsStep(ref, rows, i);
    }
  }

  /** No code collected from the row (see DigitCodesMembers) is known. */
  predicate NoKnownCodeIn<V>(ref: map<string, V>, row: seq<string>) {
    forall c :: c in DigitCodes(row) ==> c !in ref
  }

  /** A step whose pending and new codes are all unknown writes nothing. */
  lemma {:induction false} UnknownCodesStep<V>(ref: map<string, V>, st: ScanState<V>, row: seq<string>)
    requires forall c :: c in st.codes ==> c !in ref
    requires NoKnownCodeIn(ref, row)
    ensures Step(ref, st, row).out == st.out + [Unchanged(row)]
    ensures Step(ref, st, row).updated == st.updated
    ensures forall c :: c in Step(ref, st, row).codes ==> c !in ref
  {
    StepOutcome(ref, st, row);
    var c := Collect(st.codes, row);
    assert forall x :: x in c ==> x in st.codes || x in DigitCodes(row);
  }

  lemma {:induction false} UnchangedGridSnoc<V>(rows: seq<seq<string>>, row: seq<string>)
    ensures UnchangedGrid<V>(rows + [row]) == UnchangedGrid(rows) + [Unchanged(row)]
  {
    var a := UnchangedGrid<V>(rows + [row]);
    var b := UnchangedGrid<V>(rows) + [Unchanged(row)];
    assert |a| == |b|;
    forall i | 0 <= i < |a|
      ensures a[i] == b[i]
    {
      if i < |rows| {
        assert (rows + [row])[i] == rows[i];
      }
    }
  }

  /** The invariant of NoKnownCodeLeavesSheet, carried over one more row. */
  lemma {:induction false} NoKnownCodeSnoc<V>(ref: map<string, V>, rows: seq<seq<string>>, row: seq<string>)
    requires Scan(ref, rows).out == UnchangedGrid(rows) && Scan(ref, rows).updated == 0
    requires forall c :: c in Scan(ref, rows).codes ==> c !in ref
    requires NoKnownCodeIn(ref, row)
    ensures Scan(ref, rows + [row]).out == UnchangedGrid(rows + [row])
    ensures Scan(ref, rows + [row]).updated == 0
    ensures forall c :: c in Scan(ref, rows + [row]).codes ==> c !in ref
  {
    ScanSnoc(ref, rows, row);
    UnknownCodesStep(ref, Scan(ref, rows), row);
    UnchangedGridSnoc<V>(rows, row);
  }

  /**
   Codes that the reference map does not know are skipped silently: when
   no code collected from any row is known, nothing is written.
   */
  lemma {:induction false} NoKnownCodeLeavesSheet<V>(ref: map<string, V>, rows: seq<seq<string>>)
    requires forall i :: 0 <= i < |rows| ==> NoKnownCodeIn(ref, rows[i])
    ensures Scan(ref, rows).out == UnchangedGrid(rows)
    ensures Scan(ref, rows).updated == 0
    ensures forall c :: c in Scan(ref, rows).codes ==> c !in ref
    decreases |rows|
  {
    if |rows| > 0 {
      var init := rows[..|rows| - 1];
      var row := rows[|rows| - 1];
      assert rows == init + [row];
      assert forall i :: 0 <= i < |init| ==> init[i] == rows[i];
      NoKnownCodeLeavesSheet(ref, init);
      NoKnownCodeSnoc(ref, init, row);
    }
  }
}
