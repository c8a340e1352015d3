/**
 The reference table read from "Sheet1": a code -> monthly premium
 ("월초P(KRW)") mapping. Rows missing either field are dropped; the
 remaining codes, already in string form, become the keys, and on a
 repeated code the later row's value wins.
 */
module Reference {
  import opened Wrappers

  /** One row of "Sheet1" as far as the join uses it; `None` is an empty cell. */
  datatype SourceRow<V> = SourceRow(code: Option<string>, monthlyP: Option<V>)

  /** A row that survived the drop of incomplete rows. */
  datatype Entry<V> = Entry(code: string, monthlyP: V)

  predicate Complete<V>(row: SourceRow<V>) {
    row.code.Some? && row.monthlyP.Some?
  }

  /** The table with every row lacking a code or a premium removed, order kept. */
  function DropIncomplete<V>(rows: seq<SourceRow<V>>): (r: seq<Entry<V>>)
    ensures |r| <= |rows|
  {
    if |rows| == 0 then []
    else
      var last := rows[|rows| - 1];
      var init := DropIncomplete(rows[..|rows| - 1]);
      if Complete(last) then init + [Entry(last.code.value, last.monthlyP.value)] else init
  }

  /** The dictionary built from the entries, taken in order. */
  function ToDict<V>(entries: seq<Entry<V>>): (m: map<string, V>)
    ensures |m| <= |entries|
  {
    if |entries| == 0 then map[]
    else
      var last := entries[|entries| - 1];
      var init := ToDict(entries[..|entries| - 1]);
      assert init[last.code := last.monthlyP].Keys <= init.Keys + {last.code};
      init[last.code := last.monthlyP]
  }

  /** The code -> premium map of the whole Sheet1 step. */
  function BuildReferenceMap<V>(rows: seq<SourceRow<V>>): (m: map<string, V>)
    ensures |m| <= |rows|
  {
    ToDict(DropIncomplete(rows))
  }

  lemma {:induction false} DropIncompleteSnoc<V>(rows: seq<SourceRow<V>>, last: SourceRow<V>)
    ensures DropIncomplete(rows + [last])
         == if Complete(last) then DropIncomplete(rows) + [Entry(last.code.value, last.monthlyP.value)]
            else DropIncomplete(rows)
  {
    assert (rows + [last])[..|rows|] == rows;
  }

  lemma {:induction false} ToDictSnoc<V>(entries: seq<Entry<V>>, last: Entry<V>)
    ensures ToDict(entries + [last]) == ToDict(entries)[last.code := last.monthlyP]
  {
    assert (entries + [last])[..|entries|] == entries;
  }

  /** In the dictionary, a code maps to the premium of its last entry. */
  lemma {:induction false} ToDictLastWins<V>(entries: seq<Entry<V>>, i: nat)
    requires i < |entries|
    requires forall j :: i < j < |entries| ==> entries[j].code != entries[i].code
    ensures entries[i].code in ToDict(entries)
    ensures ToDict(entries)[entries[i].code] == entries[i].monthlyP
    decreases |entries|
  {
    var init := entries[..|entries| - 1];
    if i < |entries| - 1 {
      assert init[i] == entries[i];
      forall j | i < j < |init|
        ensures init[j].code != init[i].code
      {
        assert init[j] == entries[j];
      }
      ToDictLastWins(init, i);
    }
  }

  /** Reading one more row updates the map with that row, if it is complete. */
  lemma {:induction false} ReferenceMapSnoc<V>(rows: seq<SourceRow<V>>, last: SourceRow<V>)
    ensures BuildReferenceMap(rows + [last])
         == if Complete(last) then BuildReferenceMap(rows)[last.code.value := last.monthlyP.value]
            else BuildReferenceMap(rows)
  {
    DropIncompleteSnoc(rows, last);
    if Complete(last) {
      ToDictSnoc(DropIncomplete(rows), Entry(last.code.value, last.monthlyP.value));
    }
  }

  /** `e` is what is left of `row` once the row is known to be complete. */
  ghost predicate Keeps<V>(row: SourceRow<V>, e: Entry<V>) {
    row.code == Some(e.code) && row.monthlyP == Some(e.monthlyP)
  }

  /** The kept entries are exactly the complete rows, with their fields unwrapped. */
  lemma {:induction false} DropIncompleteMembers<V>(rows: seq<SourceRow<V>>, e: Entry<V>)
    ensures e in DropIncomplete(rows) <==> exists j :: 0 <= j < |rows| && Keeps(rows[j], e)
    decreases |rows|
  {
    if |rows| > 0 {
      var init := rows[..|rows| - 1];
      var last := rows[|rows| - 1];
      assert rows == init + [last];
      DropIncompleteMembers(init, e);
      DropIncompleteSnoc(init, last);
      if exists j :: 0 <= j < |rows| && Keeps(rows[j], e) {
        var j :| 0 <= j < |rows| && Keeps(rows[j], e);
        if j < |init| {
          assert init[j] == rows[j];
        }
      }
      if exists j :: 0 <= j < |init| && Keeps(init[j], e) {
        var j :| 0 <= j < |init| && Keeps(init[j], e);
        assert rows[j] == init[j];
      }
    }
  }

  /** A code is a key exactly when some complete row carries it. */
  lemma {:induction false} ReferenceMapKeys<V>(rows: seq<SourceRow<V>>, k: string)
    ensures k in BuildReferenceMap(rows)
        <==> exists j :: 0 <= j < |rows| && Complete(rows[j]) && rows[j].code == Some(k)
    decreases |rows|
  {
    if |rows| > 0 {
      var init := rows[..|rows| - 1];
      var last := rows[|rows| - 1];
      assert rows == init + [last];
      ReferenceMapKeys(init, k);
      ReferenceMapSnoc(init, last);
      if exists j :: 0 <= j < |rows| && Complete(rows[j]) && rows[j].code == Some(k) {
        var j :| 0 <= j < |rows| && Complete(rows[j]) && rows[j].code == Some(k);
        if j < |rows| - 1 {
          assert init[j] == rows[j];
        }
      }
      if exists j :: 0 <= j < |init| && Complete(init[j]) && init[j].code == Some(k) {
        var j :| 0 <= j < |init| && Complete(init[j]) && init[j].code == Some(k);
        assert rows[j] == init[j];
      }
    }
  }

  /**
   Later rows win: the premium stored for a code is the one of the last
   complete row carrying that code.
   */
  lemma {:induction false} ReferenceMapLastWins<V>(rows: seq<SourceRow<V>>, i: nat)
    requires i < |rows| && Complete(rows[i])
    requires forall j :: i < j < |rows| && Complete(rows[j]) ==> rows[j].code != rows[i].code
    ensures rows[i].code.value in BuildReferenceMap(rows)
    ensures BuildReferenceMap(rows)[rows[i].code.value] == rows[i].monthlyP.value
    decreases |rows|
  {
    var init := rows[..|rows| - 1];
    var last := rows[|rows| - 1];
    assert rows == init + [last];
    ReferenceMapSnoc(init, last);
    if i < |rows| - 1 {
      assert init[i] == rows[i];
      forall j | i < j < |init| && Complete(init[j])
        ensures init[j].code != init[i].code
      {
        assert init[j] == rows[j];
      }
      ReferenceMapLastWins(init, i);
    }
  }
}
