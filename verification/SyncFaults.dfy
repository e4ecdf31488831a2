/** How many failures in a row initial replication survives, and what more of them cost. */
module SyncFaults {
  import opened SyncSpec
  import opened SyncTheorems

  /** No success status of the wrong kind and at most `k` failures in a row, `have` of which have come already. */
  ghost predicate AtMost(k: nat, have: nat, answers: seq<Answer>)
    decreases |answers|
  {
    answers != [] ==>
      && answers[0].reply != WrongKind
      && if answers[0].reply == Good then AtMost(k, 0, answers[1..]) else have < k && AtMost(k, have + 1, answers[1..])
  }

  /** A third failure in a row would be one too many. */
  lemma NotThree(k: nat, have: nat, answers: seq<Answer>)
    requires k <= 2 && AtMost(k, have, answers) && |answers| > 2
    ensures answers[0].reply == Good || answers[1].reply == Good || answers[2].reply == Good
  {
    var more := answers[1..];
    var rest := more[1..];
    assert more[0] == answers[1] && rest[0] == answers[2];
    if answers[0].reply != Good && more[0].reply != Good {
      assert AtMost(k, have + 2, rest);
    }
  }

  lemma {:induction false} AtMostTwoRecovers(k: nat, have: nat, answers: seq<Answer>)
    requires k <= 2 && AtMost(k, have, answers)
    ensures Recovers(answers)
    decreases |answers|
  {
    if answers != [] {
      var more := answers[1..];
      AtMostTwoRecovers(k, if answers[0].reply == Good then 0 else have + 1, more);
      assert forall i :: 0 <= i < |more| ==> more[i] == answers[i + 1];
      if |answers| > 2 { NotThree(k, have, answers); }
      forall i | 0 <= i < |answers| - 2
        ensures answers[i].reply == Good || answers[i + 1].reply == Good || answers[i + 2].reply == Good
      {
        if i > 0 {
          assert more[i - 1].reply == Good || more[i - 1 + 1].reply == Good || more[i - 1 + 2].reply == Good;
        }
      }
    }
  }

  lemma {:induction false} FewerBefore(k: nat, have: nat, more: nat, answers: seq<Answer>)
    requires have <= more && AtMost(k, more, answers)
    ensures AtMost(k, have, answers)
    decreases |answers|
  {
    if answers != [] && answers[0].reply != Good { FewerBefore(k, have + 1, more + 1, answers[1..]); }
  }

  lemma {:induction false} AtMostConcat(k: nat, have: nat, a: seq<Answer>, b: seq<Answer>)
    requires have <= k && AtMost(k, have, a) && AtMost(k, k, b)
    ensures AtMost(k, have, a + b)
    decreases |a|
  {
    if a == [] {
      assert a + b == b;
      FewerBefore(k, have, k, b);
    } else {
      assert (a + b)[1..] == a[1..] + b;
      AtMostConcat(k, if a[0].reply == Good then 0 else have + 1, a[1..], b);
    }
  }

  // ---------- Answers that lose a row ----------

  const DONE: Answer := Answer(Good, true)
  const FAILED: Answer := Answer(Failure, false)

  lemma DoneFirst(k: nat, have: nat, more: seq<Answer>)
    requires AtMost(k, 0, more)
    ensures AtMost(k, have, [DONE] + more)
  {
    assert ([DONE] + more)[1..] == more;
  }

  /** The answers for all attempts at an insert. The server refuses a statement with a null key by itself. */
  function BlockScript(q: Query, fails: bool): seq<Answer> {
    if !Admissible(q) then [DONE] + ([DONE] + ([DONE] + []))
    else if fails then [FAILED, FAILED, FAILED]
    else [DONE] + []
  }

  /** Every statement succeeds but the insert of the batch in which row `target` travels; -1 stands for no row. */
  function InsertScript(table: Table, a: nat, b: nat, target: int, quotable: string -> bool): seq<Answer>
    requires a <= b <= |table.rows|
    decreases b - a
  {
    if a == b then []
    else
      var end := a + BatchLength(b - a);
      BlockScript(Insert(table.name, SentRows(table.rows[a..end], quotable)), a <= target < end)
      + InsertScript(table, end, b, target, quotable)
  }

  function TableScript(table: Table, offset: nat, target: int, quotable: string -> bool): seq<Answer>
    decreases if offset < |table.rows| then |table.rows| - offset else 0
  {
    [DONE] + if offset >= |table.rows| then []
             else InsertScript(table, offset, PageEnd(|table.rows|, offset), target, quotable)
                  + TableScript(table, offset + PAGE_SIZE, target, quotable)
  }

  function SyncScript(tables: seq<Table>, name: string, target: int, quotable: string -> bool): seq<Answer>
    decreases |tables|
  {
    if tables == [] then []
    else
      (if tables[0].keyed then TableScript(tables[0], 0, if tables[0].name == name then target else -1, quotable) else [])
      + SyncScript(tables[1..], name, target, quotable)
  }

  // ---------- They never fail more than three times in a row ----------

  lemma BlockCalm(q: Query, have: nat, more: seq<Answer>)
    requires AtMost(3, 0, more)
    ensures AtMost(3, have, BlockScript(q, false) + more)
  {
    hide Admissible;
    var one := [DONE] + more;
    DoneFirst(3, have, more);
    DoneFirst(3, 0, more);
    DoneFirst(3, 0, one);
    DoneFirst(3, have, [DONE] + one);
    hide AtMost;
    assert [DONE] + [] + more == one;
    assert [DONE] + ([DONE] + ([DONE] + [])) + more == [DONE] + ([DONE] + one);
  }

  lemma BlockFails(more: seq<Answer>)
    requires AtMost(3, 3, more)
    ensures AtMost(3, 0, [FAILED, FAILED, FAILED] + more)
  {
    var f := [FAILED, FAILED, FAILED];
    assert f[1..] == [FAILED, FAILED] && f[1..][1..] == [FAILED];
    assert AtMost(3, 2, [FAILED]) && AtMost(3, 1, [FAILED, FAILED]) && AtMost(3, 0, f);
    AtMostConcat(3, 0, f, more);
  }

  lemma {:induction false} InsertCalm(table: Table, a: nat, b: nat, target: int, quotable: string -> bool, have: nat)
    requires a <= b <= |table.rows| && !(a <= target < b)
    ensures AtMost(3, have, InsertScript(table, a, b, target, quotable))
    decreases b - a
  {
    hide BlockScript;
    if a != b {
      var end := a + BatchLength(b - a);
      InsertCalm(table, end, b, target, quotable, 0);
      BlockCalm(Insert(table.name, SentRows(table.rows[a..end], quotable)), have, InsertScript(table, end, b, target, quotable));
    }
  }

  lemma {:induction false} InsertBounded(table: Table, a: nat, b: nat, target: int, quotable: string -> bool)
    requires a <= b <= |table.rows|
    ensures AtMost(3, 0, InsertScript(table, a, b, target, quotable))
    decreases b - a
  {
    hide Admissible;
    hide AtMost;
    if a == b {
      InsertCalm(table, a, b, target, quotable, 0);
    } else {
      var end := a + BatchLength(b - a);
      var q := Insert(table.name, SentRows(table.rows[a..end], quotable));
      var rest := InsertScript(table, end, b, target, quotable);
      InsertBounded(table, end, b, target, quotable);
      if a <= target < end && Admissible(q) {
        InsertCalm(table, end, b, target, quotable, 3);
        BlockFails(rest);
      } else {
        BlockCalm(q, 0, rest);
      }
    }
  }

  lemma {:induction false} TableBounded(table: Table, offset: nat, target: int, quotable: string -> bool)
    ensures AtMost(3, 3, TableScript(table, offset, target, quotable))
    decreases if offset < |table.rows| then |table.rows| - offset else 0
  {
    hide InsertScript;
    if offset >= |table.rows| {
      DoneFirst(3, 3, []);
    } else {
      var page := InsertScript(table, offset, PageEnd(|table.rows|, offset), target, quotable);
      var rest := TableScript(table, offset + PAGE_SIZE, target, quotable);
      InsertBounded(table, offset, PageEnd(|table.rows|, offset), target, quotable);
      TableBounded(table, offset + PAGE_SIZE, target, quotable);
      AtMostConcat(3, 0, page, rest);
      DoneFirst(3, 3, page + rest);
    }
  }

  lemma {:induction false} SyncBounded(tables: seq<Table>, name: string, target: int, quotable: string -> bool)
    ensures AtMost(3, 3, SyncScript(tables, name, target, quotable))
    decreases |tables|
  {
    hide TableScript;
    if tables != [] {
      var at := if tables[0].name == name then target else -1;
      TableBounded(tables[0], 0, at, quotable);
      SyncBounded(tables[1..], name, target, quotable);
      AtMostConcat(3, 3, if tables[0].keyed then TableScript(tables[0], 0, at, quotable) else [],
                   SyncScript(tables[1..], name, target, quotable));
    }
  }

  // ---------- And they lose the row ----------

  lemma BlockRuns(w: World, q: Query, fails: bool, more: seq<Answer>)
    requires q.Insert? && w.answers == BlockScript(q, fails) + more
    ensures var after := Executed(w, q).world;
            && after.answers == more
            && after.hosted == if Admissible(q) && !fails then AddAll(w.hosted, q.name, q.rows) else w.hosted
  {
    hide AddAll;
    ThreeAttempts(w, q);
    hide Executed;
    var t := Attempt(w, q);
    var u := Attempt(t.world, q);
    hide Admissible;
    if Admissible(q) && !fails {
      assert w.answers == [DONE] + more;
    } else {
      assert t.world.answers == w.answers[1..] && u.world.answers == w.answers[2..] && w.answers[3..] == more;
    }
  }

  lemma SelectRuns(w: World, q: Query, more: seq<Answer>)
    requires q.Select? && w.answers == [DONE] + more
    ensures var r := Executed(w, q); r.reply == Good && r.world.answers == more && r.world.hosted == w.hosted
  {
    ThreeAttempts(w, q);
  }

  lemma {:induction false} NotAdded(h: Hosted, name: string, rows: seq<Row>, slot: Slot)
    requires slot !in h && forall i :: 0 <= i < |rows| ==> Slot(name, rows[i].key) != slot
    ensures slot !in AddAll(h, name, rows)
    decreases |rows|
  {
    if rows != [] { NotAdded(Add(h, name, rows[0]), name, rows[1..], slot); }
  }

  /** Of the rows of the table at most `target` belongs into the slot. */
  ghost predicate OnlyTarget(table: Table, target: int, slot: Slot) {
    forall j :: 0 <= j < |table.rows| && j != target ==> Slot(table.name, table.rows[j].key) != slot
  }

  lemma BlockMisses(w: World, tables: seq<Table>, t: nat, a: nat, b: nat, target: int, quotable: string -> bool, slot: Slot,
                    more: seq<Answer>)
    requires LocalData(tables) && t < |tables| && tables[t].keyed && Aligned(|tables[t].rows|, a, b) && a < b
    requires OnlyTarget(tables[t], target, slot) && slot !in w.hosted
    requires var end := a + BatchLength(b - a);
             w.answers == BlockScript(Insert(tables[t].name, SentRows(tables[t].rows[a..end], quotable)), a <= target < end) + more
    ensures var end := a + BatchLength(b - a);
            var after := Executed(w, Insert(tables[t].name, SentRows(tables[t].rows[a..end], quotable))).world;
            after.answers == more && slot !in after.hosted
  {
    var table := tables[t];
    var end := a + BatchLength(b - a);
    var q := Insert(table.name, SentRows(table.rows[a..end], quotable));
    BlockRuns(w, q, a <= target < end, more);
    BatchAdmissible(tables, t, a, b, quotable);
    hide LocalData;
    hide BlockScript;
    hide Executed;
    hide Admissible;
    hide BatchQuotable;
    hide FromLocal;
    if Admissible(q) && !(a <= target < end) {
      forall k | 0 <= k < |q.rows| ensures Slot(q.name, q.rows[k].key) != slot {
        assert q.rows[k].key == table.rows[a + k].key;
      }
      NotAdded(w.hosted, q.name, q.rows, slot);
    }
  }

  lemma {:induction false} InsertMisses(w: World, tables: seq<Table>, t: nat, a: nat, b: nat, target: int,
                                        quotable: string -> bool, slot: Slot, more: seq<Answer>)
    requires LocalData(tables) && t < |tables| && tables[t].keyed && Aligned(|tables[t].rows|, a, b)
    requires OnlyTarget(tables[t], target, slot) && slot !in w.hosted
    requires w.answers == InsertScript(tables[t], a, b, target, quotable) + more
    ensures var after := InsertAll(w, tables[t].name, SentRows(tables[t].rows[a..b], quotable));
            after.answers == more && slot !in after.hosted
    decreases b - a
  {
    hide LocalData;
    hide OnlyTarget;
    hide BlockScript;
    hide Executed;
    var table := tables[t];
    var sent := SentRows(table.rows[a..b], quotable);
    if a == b {
      assert w.answers == more;
    } else {
      var end := a + BatchLength(b - a);
      var q := Insert(table.name, SentRows(table.rows[a..end], quotable));
      var rest := InsertScript(table, end, b, target, quotable);
      assert sent[..end - a] == q.rows && sent[end - a..] == SentRows(table.rows[end..b], quotable);
      assert w.answers == BlockScript(q, a <= target < end) + (rest + more);
      BlockMisses(w, tables, t, a, b, target, quotable, slot, rest + more);
      BatchWindow(|table.rows|, a, b, a, a);
      InsertMisses(Executed(w, q).world, tables, t, end, b, target, quotable, slot, more);
    }
  }

  lemma {:induction false} TableMisses(w: World, tables: seq<Table>, t: nat, offset: nat, target: int,
                                       quotable: string -> bool, slot: Slot, more: seq<Answer>)
    requires LocalData(tables) && t < |tables| && tables[t].keyed && offset % PAGE_SIZE == 0
    requires OnlyTarget(tables[t], target, slot) && slot !in w.hosted
    requires w.answers == TableScript(tables[t], offset, target, quotable) + more
    ensures var after := SyncedTable(w, tables[t], offset, quotable); after.answers == more && slot !in after.hosted
    decreases if offset < |tables[t].rows| then |tables[t].rows| - offset else 0
  {
    hide LocalData;
    hide OnlyTarget;
    hide InsertScript;
    hide Executed;
    hide InsertAll;
    hide SentRows;
    hide SyncedTable;
    var table := tables[t];
    var n := |table.rows|;
    TableStep(w, table, offset, quotable);
    if offset >= n {
      assert w.answers == [DONE] + more;
      SelectRuns(w, Select(table, offset), more);
    } else {
      var end := PageEnd(n, offset);
      var page := InsertScript(table, offset, end, target, quotable);
      var rest := TableScript(table, offset + PAGE_SIZE, target, quotable);
      assert w.answers == [DONE] + (page + (rest + more));
      SelectRuns(w, Select(table, offset), page + (rest + more));
      var w1 := Executed(w, Select(table, offset)).world;
      PageAligned(n, offset);
      InsertMisses(w1, tables, t, offset, end, target, quotable, slot, rest + more);
      TableMisses(InsertAll(w1, table.name, SentRows(table.rows[offset..end], quotable)), tables, t, offset + PAGE_SIZE, target,
                  quotable, slot, more);
    }
  }

  lemma {:induction false} SyncMisses(w: World, tables: seq<Table>, from: nat, t: nat, i: nat, quotable: string -> bool)
    requires LocalData(tables) && from <= |tables| && t < |tables| && i < |tables[t].rows|
    requires Slot(tables[t].name, tables[t].rows[i].key) !in w.hosted
    requires w.answers == SyncScript(tables[from..], tables[t].name, i, quotable)
    ensures Slot(tables[t].name, tables[t].rows[i].key) !in Synced(w, tables[from..], quotable).hosted
    decreases |tables| - from
  {
    hide TableScript;
    hide SyncedTable;
    if from < |tables| {
      var table := tables[from];
      var slot := Slot(tables[t].name, tables[t].rows[i].key);
      assert tables[from..][0] == table && tables[from..][1..] == tables[from + 1..];
      var rest := SyncScript(tables[from + 1..], tables[t].name, i, quotable);
      var w1 := w;
      if table.keyed {
        var target := if table.name == tables[t].name then i else -1;
        assert OnlyTarget(table, target, slot);
        TableMisses(w, tables, from, 0, target, quotable, slot, rest);
        w1 := SyncedTable(w, table, 0, quotable);
      } else {
        assert [] + rest == rest;
      }
      SyncMisses(w1, tables, from + 1, t, i, quotable);
    }
  }

  // ---------- Main results ----------

  /** A local row that is not hosted and whose batch can be sent. */
  ghost predicate ToSend(h: Hosted, tables: seq<Table>, t: nat, i: nat, quotable: string -> bool) {
    && t < |tables| && tables[t].keyed && i < |tables[t].rows| && BatchQuotable(tables[t].rows, i, quotable)
    && Slot(tables[t].name, tables[t].rows[i].key) !in h
  }

  lemma RowLost(h: Hosted, tables: seq<Table>, t: nat, i: nat, quotable: string -> bool) returns (answers: seq<Answer>)
    requires LocalData(tables) && ToSend(h, tables, t, i, quotable)
    ensures AtMost(3, 0, answers)
    ensures Slot(tables[t].name, tables[t].rows[i].key) !in Synced(World(h, answers, []), tables, quotable).hosted
  {
    hide LocalData;
    hide BatchQuotable;
    hide SyncScript;
    hide Synced;
    answers := SyncScript(tables, tables[t].name, i, quotable);
    assert tables[0..] == tables;
    SyncBounded(tables, tables[t].name, i, quotable);
    FewerBefore(3, 0, 3, answers);
    hide AtMost;
    SyncMisses(World(h, answers, []), tables, 0, t, i, quotable);
  }

  lemma {:induction false} AtMostGrows(k: nat, l: nat, have: nat, answers: seq<Answer>)
    requires k <= l && AtMost(k, have, answers)
    ensures AtMost(l, have, answers)
    decreases |answers|
  {
    if answers != [] { AtMostGrows(k, l, if answers[0].reply == Good then 0 else have + 1, answers[1..]); }
  }

  /** Whatever is answered with at most `k` failures in a row, the run reaches the merge. */
  ghost predicate Survives(k: nat, h: Hosted, tables: seq<Table>, quotable: string -> bool) {
    forall answers: seq<Answer> :: AtMost(k, 0, answers) ==>
      Merged(h, Synced(World(h, answers, []), tables, quotable).hosted, tables, quotable)
  }

  /** Two failures in a row are survived, and three are not as soon as there is a row to be sent. */
  lemma SurvivesIff(k: nat, h: Hosted, tables: seq<Table>, quotable: string -> bool)
    requires LocalData(tables)
    ensures Survives(k, h, tables, quotable) <==> k <= 2 || !exists t: nat, i: nat :: ToSend(h, tables, t, i, quotable)
  {
    hide LocalData;
    hide Synced;
    hide BatchQuotable;
    hide AtMost;
    if k > 2 {
      if t: nat, i: nat :| ToSend(h, tables, t, i, quotable) {
        var answers := RowLost(h, tables, t, i, quotable);
        AtMostGrows(3, k, 0, answers);
        if Merged(h, Synced(World(h, answers, []), tables, quotable).hosted, tables, quotable) {
          RowArrivesIff(h, Synced(World(h, answers, []), tables, quotable).hosted, tables, t, i, quotable);
        }
      } else {
        forall answers: seq<Answer> ensures Merged(h, Synced(World(h, answers, []), tables, quotable).hosted, tables, quotable) {
          SyncIsSafe(World(h, answers, []), tables, quotable);
          NothingToSend(h, Synced(World(h, answers, []), tables, quotable).hosted, tables, quotable);
        }
      }
    } else {
      forall answers | AtMost(k, 0, answers) ensures Merged(h, Synced(World(h, answers, []), tables, quotable).hosted, tables, quotable) {
        AtMostTwoRecovers(k, 0, answers);
        RecoveringSyncMerges(World(h, answers, []), tables, quotable);
      }
    }
  }

  lemma NothingToSend(h: Hosted, g: Hosted, tables: seq<Table>, quotable: string -> bool)
    requires Grown(h, g, tables, quotable) && !exists t: nat, i: nat :: ToSend(h, tables, t, i, quotable)
    ensures Merged(h, g, tables, quotable)
  {
    hide BatchQuotable;
    forall t, i | 0 <= t < |tables| && tables[t].keyed && 0 <= i < |tables[t].rows| && BatchQuotable(tables[t].rows, i, quotable)
      ensures Slot(tables[t].name, tables[t].rows[i].key) in g
    {
      assert !ToSend(h, tables, t, i, quotable);
    }
  }

  /** Any row to be sent is lost for good by some healthy start that meets no more than three failures in a row: no later
      start, however healthy and free of faults, sends it, while a start without faults would have. */
  lemma FailedStartIsFinal(h: Hosted, tables: seq<Table>, t: nat, i: nat, quotable: string -> bool) returns (answers: seq<Answer>)
    requires LocalData(tables) && ToSend(h, tables, t, i, quotable)
    ensures AtMost(3, 0, answers)
    ensures var slot := Slot(tables[t].name, tables[t].rows[i].key);
            && (forall later: seq<StartCall> :: slot !in Started(h, false, [StartCall(true, answers)] + later, tables, quotable))
            && slot in Synced(World(h, [], []), tables, quotable).hosted
  {
    hide LocalData;
    hide Synced;
    hide AtMost;
    hide Merged;
    answers := RowLost(h, tables, t, i, quotable);
    var slot := Slot(tables[t].name, tables[t].rows[i].key);
    forall later: seq<StartCall> ensures slot !in Started(h, false, [StartCall(true, answers)] + later, tables, quotable) {
      FirstHealthyDecides(h, [StartCall(true, answers)] + later, 0, tables, quotable);
    }
    var free := World(h, [], []);
    RecoveringSyncMerges(free, tables, quotable);
    RowArrivesIff(h, Synced(free, tables, quotable).hosted, tables, t, i, quotable);
  }
}
