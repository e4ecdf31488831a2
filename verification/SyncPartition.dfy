/** Without faults, the pages and the inserts of a table each split it without gap or overlap. */
module SyncPartition {
  import opened SyncSpec

  /** The rows that the selects of a log deliver, in order. */
  function Selected(log: seq<Query>): seq<Row>
    decreases |log|
  {
    if log == [] then []
    else (if log[0].Select? then PageOf(log[0].table.rows, log[0].offset) else []) + Selected(log[1..])
  }

  /** The rows that its inserts carry, in order. */
  function Inserted(log: seq<Query>): seq<Row>
    decreases |log|
  {
    if log == [] then [] else (if log[0].Insert? then log[0].rows else []) + Inserted(log[1..])
  }

  ghost predicate Bounded(log: seq<Query>) {
    && (forall i :: 0 <= i < |log| && log[i].Insert? ==> 0 < |log[i].rows| <= BATCH_SIZE)
    && (forall i :: 0 <= i < |log| && log[i].Select? ==> |PageOf(log[i].table.rows, log[i].offset)| <= PAGE_SIZE)
  }

  lemma {:induction false} LogConcat(a: seq<Query>, b: seq<Query>)
    ensures Selected(a + b) == Selected(a) + Selected(b)
    ensures Inserted(a + b) == Inserted(a) + Inserted(b)
    decreases |a|
  {
    hide PageOf;
    if a == [] {
      assert a + b == b;
    } else {
      assert (a + b)[1..] == a[1..] + b;
      LogConcat(a[1..], b);
    }
  }

  lemma SelectLog(q: Query)
    requires q.Select?
    ensures Selected([q]) == PageOf(q.table.rows, q.offset) && Inserted([q]) == []
  {
    hide PageOf;
    assert [q][1..] == [];
    assert Selected([q]) == PageOf(q.table.rows, q.offset) + [];
  }

  lemma InsertLog(q: Query)
    requires q.Insert?
    ensures Selected([q]) == [] && Inserted([q]) == q.rows
  {
    assert [q][1..] == [];
    assert Inserted([q]) == q.rows + [];
  }

  lemma FaultFree(w: World, q: Query)
    requires w.answers == [] && Admissible(q)
    ensures var t := Executed(w, q);
            t.reply == Good && t.world.answers == [] && t.world.log == w.log + [q]
  {
    assert Retried(w, q, MAX_ATTEMPTS) == Attempt(w, q);
  }

  /** What a run adds to the log of an earlier state. */
  ghost predicate Added(before: World, after: World, selected: seq<Row>, inserted: seq<Row>) {
    && after.answers == [] && before.log <= after.log
    && var tail := after.log[|before.log|..];
       Selected(tail) == selected && Inserted(tail) == inserted && Bounded(tail)
  }

  lemma AddedTrans(u: World, v: World, w: World, s1: seq<Row>, i1: seq<Row>, s2: seq<Row>, i2: seq<Row>)
    requires Added(u, v, s1, i1) && Added(v, w, s2, i2)
    ensures Added(u, w, s1 + s2, i1 + i2)
  {
    hide PageOf;
    hide Selected;
    hide Inserted;
    var a, b := v.log[|u.log|..], w.log[|v.log|..];
    assert w.log[|u.log|..] == a + b;
    LogConcat(a, b);
  }

  lemma AddedOne(w: World, q: Query)
    requires w.answers == [] && Admissible(q)
    requires q.Insert? ==> 0 < |q.rows| <= BATCH_SIZE
    ensures if q.Select? then Added(w, Executed(w, q).world, PageOf(q.table.rows, q.offset), [])
            else Added(w, Executed(w, q).world, [], q.rows)
  {
    hide Executed;
    hide Admissible;
    hide Selected;
    hide Inserted;
    FaultFree(w, q);
    assert (w.log + [q])[|w.log|..] == [q];
    if q.Select? { SelectLog(q); } else { InsertLog(q); }
  }

  ghost predicate Sendable(rows: seq<Row>) {
    forall i :: 0 <= i < |rows| ==> Null !in rows[i].key
  }

  lemma {:induction false} InsertsPartition(w: World, name: string, rows: seq<Row>)
    requires w.answers == [] && Sendable(rows)
    ensures Added(w, InsertAll(w, name, rows), [], rows)
    decreases |rows|
  {
    hide Executed;
    hide Added;
    if rows == [] {
      assert Added(w, w, [], []) by { AddedNothing(w); }
    } else {
      var k := BatchLength(|rows|);
      var q := Insert(name, rows[..k]);
      var w1 := Executed(w, q).world;
      AddedOne(w, q);
      FaultFree(w, q);
      InsertsPartition(w1, name, rows[k..]);
      AddedTrans(w, w1, InsertAll(w1, name, rows[k..]), [], rows[..k], [], rows[k..]);
      var none: seq<Row> := [];
      assert none + none == none && rows[..k] + rows[k..] == rows;
    }
  }

  lemma AddedNothing(w: World)
    requires w.answers == []
    ensures Added(w, w, [], [])
  {
  }

  lemma {:induction false} TablePartition(w: World, t: Table, offset: nat, quotable: string -> bool)
    requires w.answers == [] && offset <= |t.rows| + PAGE_SIZE
    requires forall i :: 0 <= i < |t.rows| ==> Null !in Sent(t.rows[i], quotable).key
    ensures var from := if offset < |t.rows| then offset else |t.rows|;
            Added(w, SyncedTable(w, t, offset, quotable), t.rows[from..], SentRows(t.rows[from..], quotable))
    decreases if offset < |t.rows| then |t.rows| - offset else 0
  {
    hide Executed;
    hide Added;
    hide InsertAll;
    hide Sent;
    var q := Select(t, offset);
    var w1 := Executed(w, q).world;
    var n := |t.rows|;
    AddedOne(w, q);
    FaultFree(w, q);
    if offset >= n {
      assert PageOf(t.rows, offset) == t.rows[n..] == [] && SentRows(t.rows[n..], quotable) == [];
    } else {
      var end := PageEnd(n, offset);
      var page := t.rows[offset..end];
      var sent := SentRows(page, quotable);
      var w2 := InsertAll(w1, t.name, sent);
      InsertsPartition(w1, t.name, sent);
      AddedTrans(w, w1, w2, page, [], [], sent);
      assert page + [] == page && [] + sent == sent;
      assert w2.answers == [] by { Answers(w1, w2, [], sent); }
      TablePartition(w2, t, offset + PAGE_SIZE, quotable);
      AddedTrans(w, w2, SyncedTable(w2, t, offset + PAGE_SIZE, quotable), page, sent, t.rows[end..], SentRows(t.rows[end..], quotable));
      assert page + t.rows[end..] == t.rows[offset..];
      assert sent + SentRows(t.rows[end..], quotable) == SentRows(t.rows[offset..], quotable);
    }
  }

  lemma Answers(u: World, v: World, selected: seq<Row>, inserted: seq<Row>)
    requires Added(u, v, selected, inserted)
    ensures v.answers == []
  {
  }

  /** The whole table: its pages, one after the other, are the table; its inserts, of at most a hundred rows each, carry
      every row once and in order. */
  lemma PagesAndBatchesPartition(w: World, t: Table, quotable: string -> bool)
    requires w.answers == []
    requires forall i :: 0 <= i < |t.rows| ==> Null !in Sent(t.rows[i], quotable).key
    ensures var log := SyncedTable(w, t, 0, quotable).log;
            && w.log <= log
            && Bounded(log[|w.log|..])
            && Selected(log[|w.log|..]) == t.rows
            && Inserted(log[|w.log|..]) == SentRows(t.rows, quotable)
  {
    hide Selected;
    hide Inserted;
    hide Sent;
    TablePartition(w, t, 0, quotable);
    assert t.rows[0..] == t.rows;
  }
}
