/** What initial replication reaches under faults, and without them. */
module SyncTheorems {
  import opened SyncSpec

  // ---------- Answers that no statement fails on for good ----------

  /** Never three failures in a row, and no success status of the wrong kind. */
  ghost predicate Recovers(answers: seq<Answer>) {
    && (forall i :: 0 <= i < |answers| ==> answers[i].reply != WrongKind)
    && (forall i :: 0 <= i < |answers| - 2 ==>
          answers[i].reply == Good || answers[i + 1].reply == Good || answers[i + 2].reply == Good)
  }

  lemma RestRecovers(answers: seq<Answer>)
    requires Recovers(answers)
    ensures Recovers(Rest(answers))
  {
    if answers != [] {
      var more := answers[1..];
      forall i | 0 <= i < |more| - 2 ensures more[i].reply == Good || more[i + 1].reply == Good || more[i + 2].reply == Good {
        assert more[i] == answers[i + 1] && more[i + 1] == answers[i + 2] && more[i + 2] == answers[i + 3];
      }
    }
  }

  lemma ExecutedRecovers(w: World, q: Query)
    requires Recovers(w.answers)
    ensures Recovers(Executed(w, q).world.answers)
    ensures Admissible(q) ==> Executed(w, q).reply == Good
  {
    hide AddAll;
    hide Admissible;
    var w1 := Attempt(w, q).world;
    var w2 := Attempt(w1, q).world;
    var w3 := Attempt(w2, q).world;
    RestRecovers(w.answers);
    RestRecovers(w1.answers);
    RestRecovers(w2.answers);
    ThreeAttempts(w, q);
    if |w.answers| > 2 {
      assert w1.answers[0] == w.answers[1] && w2.answers[0] == w.answers[2];
    }
  }

  lemma ThreeAttempts(w: World, q: Query)
    ensures var t := Attempt(w, q);
            var u := Attempt(t.world, q);
            var v := Attempt(u.world, q);
            Executed(w, q) == if Accepted(t.reply) then t else if Accepted(u.reply) then u
                              else if Accepted(v.reply) then v else Tried(v.world, NoResult)
  {
    hide Attempt;
    hide Accepted;
    assert forall x: World :: Retried(x, q, 0) == Tried(x, NoResult);
    var t := Attempt(w, q);
    var u := Attempt(t.world, q);
    assert Retried(u.world, q, 1) == if Accepted(Attempt(u.world, q).reply) then Attempt(u.world, q) else Retried(Attempt(u.world, q).world, q, 0);
    assert Retried(t.world, q, 2) == if Accepted(u.reply) then u else Retried(u.world, q, 1);
    assert Retried(w, q, 3) == if Accepted(t.reply) then t else Retried(t.world, q, 2);
  }

  predicate Succeeds(q: Query, answers: seq<Answer>) {
    Meet(q, answers).reply == Good || Meet(q, answers).reply == WrongKind
  }

  /** A success of either kind ends the attempts, and a failure or a missing result leads to another one, up to three. */
  lemma AttemptsMade(w: World, q: Query)
    ensures var second, third := Rest(w.answers), Rest(Rest(w.answers));
            var e := Executed(w, q);
            if Succeeds(q, w.answers) then e.world.log == w.log + [q] && e.world.answers == second && e.reply == Meet(q, w.answers).reply
            else if Succeeds(q, second) then e.world.log == w.log + [q, q] && e.world.answers == third && e.reply == Meet(q, second).reply
            else
              && e.world.log == w.log + [q, q, q] && e.world.answers == Rest(third)
              && e.reply == if Succeeds(q, third) then Meet(q, third).reply else NoResult
  {
    hide Meet;
    hide Effect;
    hide Rest;
    ThreeAttempts(w, q);
    hide Executed;
    assert w.log + [q] + [q] == w.log + [q, q];
    assert w.log + [q, q] + [q] == w.log + [q, q, q];
  }

  /** An insert may take effect although every attempt at it is reported as failed. */
  lemma UnacknowledgedInsert(w: World, q: Query)
    requires q.Insert? && Admissible(q) && w.answers == [Answer(Failure, true), Answer(NoResult, true), Answer(Failure, true)]
    ensures var e := Executed(w, q);
            e.reply == NoResult && forall i :: 0 <= i < |q.rows| ==> Slot(q.name, q.rows[i].key) in e.world.hosted
  {
    ThreeAttempts(w, q);
    hide Executed;
    hide Admissible;
    var t := Attempt(w, q).world;
    var u := Attempt(t, q).world;
    AddedAll(w.hosted, q.name, q.rows);
    AddedAll(t.hosted, q.name, q.rows);
    AddedAll(u.hosted, q.name, q.rows);
    hide AddAll;
  }

  lemma {:induction false} AddedAll(h: Hosted, name: string, rows: seq<Row>)
    ensures forall i :: 0 <= i < |rows| ==> Slot(name, rows[i].key) in AddAll(h, name, rows)
    ensures forall s :: s in h ==> s in AddAll(h, name, rows)
    decreases |rows|
  {
    if rows != [] { AddedAll(Add(h, name, rows[0]), name, rows[1..]); }
  }

  // ---------- Batches ----------

  /** `a` to `b` consists of whole batches of the table. */
  predicate Aligned(n: nat, a: nat, b: nat) {
    a <= b <= n && (a == b || a % BATCH_SIZE == 0) && (b == n || b % BATCH_SIZE == 0)
  }

  lemma BatchWindow(n: nat, a: nat, b: nat, i: nat, j: nat)
    requires Aligned(n, a, b) && a <= i < a + BatchLength(b - a) && j < n
    ensures j / BATCH_SIZE == i / BATCH_SIZE <==> a <= j < a + BatchLength(b - a)
    ensures Aligned(n, a + BatchLength(b - a), b)
  {
  }

  lemma KeySendable(row: Row, quotable: string -> bool)
    requires forall c :: 0 <= c < |row.key| ==> row.key[c].Text?
    ensures KeyQuotable(row, quotable) <==> Null !in Sent(row, quotable).key
    ensures KeyQuotable(row, quotable) ==> Sent(row, quotable).key == row.key
  {
    var sent := SentCells(row.key, quotable);
    if Null !in sent {
      forall i | 0 <= i < |row.key| ensures row.key[i].Text? && quotable(row.key[i].value) { assert sent[i] in sent; }
    }
  }

  /** A batch is admissible just when it is the quotable batch of each of its rows. */
  lemma BatchAdmissible(tables: seq<Table>, t: nat, a: nat, b: nat, quotable: string -> bool)
    requires LocalData(tables) && t < |tables| && tables[t].keyed && Aligned(|tables[t].rows|, a, b) && a < b
    ensures var rows := tables[t].rows;
            var end := a + BatchLength(b - a);
            var q := Insert(tables[t].name, SentRows(rows[a..end], quotable));
            && (forall i :: a <= i < end ==> (BatchQuotable(rows, i, quotable) <==> Admissible(q)))
            && (Admissible(q) ==> forall k :: 0 <= k < |q.rows| ==>
                  FromLocal(Slot(q.name, q.rows[k].key), q.rows[k], tables, quotable) && q.rows[k].key == rows[a + k].key)
  {
    var rows := tables[t].rows;
    var end := a + BatchLength(b - a);
    var q := Insert(tables[t].name, SentRows(rows[a..end], quotable));
    forall k | 0 <= k < |q.rows|
      ensures q.rows[k] == Sent(rows[a + k], quotable)
      ensures KeyQuotable(rows[a + k], quotable) <==> Null !in q.rows[k].key
      ensures KeyQuotable(rows[a + k], quotable) ==> q.rows[k].key == rows[a + k].key
    {
      KeySendable(rows[a + k], quotable);
    }
    forall i | a <= i < end ensures BatchQuotable(rows, i, quotable) <==> Admissible(q) {
      BatchIs(rows, a, b, i, quotable);
      forall k | 0 <= k < |q.rows|
        ensures Admissible(q) ==> KeyQuotable(rows[a + k], quotable)
        ensures BatchQuotable(rows, i, quotable) ==> Null !in q.rows[k].key
      {
      }
      if Admissible(q) {
        forall j | a <= j < end ensures KeyQuotable(rows[j], quotable) {
          assert KeyQuotable(rows[a + (j - a)], quotable);
        }
      }
    }
    if Admissible(q) {
      forall k | 0 <= k < |q.rows| ensures FromLocal(Slot(q.name, q.rows[k].key), q.rows[k], tables, quotable) {
        assert IsLocal(Slot(q.name, q.rows[k].key), q.rows[k], tables, t, a + k, quotable);
      }
    }
  }

  lemma BatchIs(rows: seq<Row>, a: nat, b: nat, i: nat, quotable: string -> bool)
    requires Aligned(|rows|, a, b) && a <= i < a + BatchLength(b - a)
    ensures BatchQuotable(rows, i, quotable) <==>
            forall j :: a <= j < a + BatchLength(b - a) ==> KeyQuotable(rows[j], quotable)
  {
    hide KeyQuotable;
    forall j: nat | j < |rows| ensures j / BATCH_SIZE == i / BATCH_SIZE <==> a <= j < a + BatchLength(b - a) {
      BatchWindow(|rows|, a, b, i, j);
    }
  }

  /** The rows of the batches that can be sent have arrived. */
  ghost predicate Arrived(h: Hosted, table: Table, a: nat, b: nat, quotable: string -> bool) {
    forall i :: a <= i < b && i < |table.rows| && BatchQuotable(table.rows, i, quotable) ==>
      Slot(table.name, table.rows[i].key) in h
  }

  lemma ArrivedGrown(h: Hosted, g: Hosted, table: Table, a: nat, b: nat, tables: seq<Table>, quotable: string -> bool)
    requires Arrived(h, table, a, b, quotable) && Grown(h, g, tables, quotable)
    ensures Arrived(g, table, a, b, quotable)
  {
    hide FromLocal;
    hide BatchQuotable;
  }

  lemma {:induction false} InsertAllKeeps(w: World, tables: seq<Table>, t: nat, a: nat, b: nat, quotable: string -> bool)
    requires LocalData(tables) && t < |tables| && tables[t].keyed && Aligned(|tables[t].rows|, a, b)
    ensures var after := InsertAll(w, tables[t].name, SentRows(tables[t].rows[a..b], quotable));
            && Grown(w.hosted, after.hosted, tables, quotable)
            && (Recovers(w.answers) ==> Recovers(after.answers) && Arrived(after.hosted, tables[t], a, b, quotable))
    decreases b - a
  {
    hide FromLocal;
    hide Grown;
    hide BatchQuotable;
    hide Admissible;
    hide Recovers;
    hide Retried;
    hide LocalData;
    var table := tables[t];
    var sent := SentRows(table.rows[a..b], quotable);
    var after := InsertAll(w, table.name, sent);
    if a == b {
      GrownRefl(w.hosted, tables, quotable);
    } else {
      var k := BatchLength(b - a);
      var q := Insert(table.name, SentRows(table.rows[a..a + k], quotable));
      assert sent[..k] == q.rows && sent[k..] == SentRows(table.rows[a + k..b], quotable);
      var w1 := Executed(w, q).world;
      assert after == InsertAll(w1, table.name, sent[k..]);
      BatchAdmissible(tables, t, a, b, quotable);
      RetriedGrown(w, q, MAX_ATTEMPTS, tables, quotable);
      BatchWindow(|table.rows|, a, b, a, a);
      InsertAllKeeps(w1, tables, t, a + k, b, quotable);
      GrownTrans(w.hosted, w1.hosted, after.hosted, tables, quotable);
      if Recovers(w.answers) {
        ExecutedRecovers(w, q);
        BatchArrived(w1.hosted, q, table, a, k, quotable);
        ArrivedGrown(w1.hosted, after.hosted, table, a, a + k, tables, quotable);
        ArrivedConcat(after.hosted, table, a, a + k, b, quotable);
      }
    }
  }

  lemma ArrivedConcat(h: Hosted, table: Table, a: nat, m: nat, b: nat, quotable: string -> bool)
    requires Arrived(h, table, a, m, quotable) && Arrived(h, table, m, b, quotable)
    ensures Arrived(h, table, a, b, quotable)
  {
    hide BatchQuotable;
  }

  lemma BatchArrived(h: Hosted, q: Query, table: Table, a: nat, k: nat, quotable: string -> bool)
    requires q.Insert? && q.name == table.name && |q.rows| == k && a + k <= |table.rows|
    requires forall i :: a <= i < a + k ==> (BatchQuotable(table.rows, i, quotable) <==> Admissible(q))
    requires Admissible(q) ==> forall j :: 0 <= j < k ==> q.rows[j].key == table.rows[a + j].key
    requires Admissible(q) ==> forall j :: 0 <= j < k ==> Slot(q.name, q.rows[j].key) in h
    ensures Arrived(h, table, a, a + k, quotable)
  {
    hide BatchQuotable;
    hide Admissible;
    forall i | a <= i < a + k && BatchQuotable(table.rows, i, quotable) ensures Slot(table.name, table.rows[i].key) in h {
      assert Slot(q.name, q.rows[i - a].key) in h;
    }
  }

  // ---------- Pages and tables ----------

  lemma PageAligned(n: nat, offset: nat)
    requires offset % PAGE_SIZE == 0 && offset < n
    ensures Aligned(n, offset, PageEnd(n, offset)) && (offset + PAGE_SIZE) % PAGE_SIZE == 0
  {
    var pages := offset / 1000;
    assert offset == 100 * (10 * pages);
    assert offset + 1000 == 1000 * (pages + 1) == 100 * (10 * pages + 10);
    assert offset % 100 == 0 && (offset + 1000) % 100 == 0 && (offset + 1000) % 1000 == 0;
  }

  lemma SelectKeeps(w: World, q: Query, tables: seq<Table>, quotable: string -> bool)
    requires q.Select?
    ensures Grown(w.hosted, Executed(w, q).world.hosted, tables, quotable)
    ensures Recovers(w.answers) ==> Recovers(Executed(w, q).world.answers) && Executed(w, q).reply == Good
  {
    hide Recovers;
    hide Grown;
    RetriedGrown(w, q, MAX_ATTEMPTS, tables, quotable);
    if Recovers(w.answers) { ExecutedRecovers(w, q); }
  }

  lemma TableStep(w: World, t: Table, offset: nat, quotable: string -> bool)
    ensures var r := Executed(w, Select(t, offset));
            SyncedTable(w, t, offset, quotable) ==
            if r.reply != Good || offset >= |t.rows| then r.world
            else SyncedTable(InsertAll(r.world, t.name, SentRows(t.rows[offset..PageEnd(|t.rows|, offset)], quotable)), t,
                             offset + PAGE_SIZE, quotable)
  {
    hide Executed;
    hide InsertAll;
    hide SentRows;
  }

  lemma {:induction false} TableKeeps(w: World, tables: seq<Table>, t: nat, offset: nat, quotable: string -> bool)
    requires LocalData(tables) && t < |tables| && tables[t].keyed && offset % PAGE_SIZE == 0
    ensures var after := SyncedTable(w, tables[t], offset, quotable);
            && Grown(w.hosted, after.hosted, tables, quotable)
            && (Recovers(w.answers) ==>
                  Recovers(after.answers) && Arrived(after.hosted, tables[t], offset, |tables[t].rows|, quotable))
    decreases if offset < |tables[t].rows| then |tables[t].rows| - offset else 0
  {
    hide FromLocal;
    hide Grown;
    hide BatchQuotable;
    hide Recovers;
    hide Retried;
    hide LocalData;
    hide InsertAll;
    hide SyncedTable;
    hide SentRows;
    hide Executed;
    var table := tables[t];
    var n := |table.rows|;
    var q := Select(table, offset);
    var r := Executed(w, q);
    var after := SyncedTable(w, table, offset, quotable);
    TableStep(w, table, offset, quotable);
    SelectKeeps(w, q, tables, quotable);
    if r.reply == Good && offset < n {
      var end := PageEnd(n, offset);
      PageAligned(n, offset);
      InsertAllKeeps(r.world, tables, t, offset, end, quotable);
      var w1 := InsertAll(r.world, table.name, SentRows(table.rows[offset..end], quotable));
      TableKeeps(w1, tables, t, offset + PAGE_SIZE, quotable);
      GrownTrans(w.hosted, r.world.hosted, w1.hosted, tables, quotable);
      GrownTrans(w.hosted, w1.hosted, after.hosted, tables, quotable);
      if Recovers(w.answers) {
        ArrivedGrown(w1.hosted, after.hosted, table, offset, end, tables, quotable);
        ArrivedConcat(after.hosted, table, offset, end, n, quotable);
      }
    }
  }

  /** All tables from `from` on have arrived. */
  ghost predicate AllArrived(h: Hosted, tables: seq<Table>, from: nat, quotable: string -> bool) {
    forall t :: from <= t < |tables| && tables[t].keyed ==> Arrived(h, tables[t], 0, |tables[t].rows|, quotable)
  }

  lemma {:induction false} SyncKeepsFrom(w: World, tables: seq<Table>, from: nat, quotable: string -> bool)
    requires LocalData(tables) && from <= |tables|
    ensures var after := Synced(w, tables[from..], quotable);
            && Grown(w.hosted, after.hosted, tables, quotable)
            && (Recovers(w.answers) ==> Recovers(after.answers) && AllArrived(after.hosted, tables, from, quotable))
    decreases |tables| - from
  {
    hide FromLocal;
    hide Grown;
    hide Recovers;
    hide Arrived;
    hide LocalData;
    hide SyncedTable;
    var after := Synced(w, tables[from..], quotable);
    if from == |tables| {
      GrownRefl(w.hosted, tables, quotable);
    } else {
      var table := tables[from];
      assert tables[from..][0] == table && tables[from..][1..] == tables[from + 1..];
      var w1 := if table.keyed then SyncedTable(w, table, 0, quotable) else w;
      if table.keyed { TableKeeps(w, tables, from, 0, quotable); } else { GrownRefl(w.hosted, tables, quotable); }
      SyncKeepsFrom(w1, tables, from + 1, quotable);
      GrownTrans(w.hosted, w1.hosted, after.hosted, tables, quotable);
      if Recovers(w.answers) && table.keyed {
        ArrivedGrown(w1.hosted, after.hosted, table, 0, |table.rows|, tables, quotable);
      }
    }
  }

  // ---------- Main results ----------

  /** Under any faults: hosted rows stay as they are, and every row added is a local row, sent whole. */
  lemma SyncIsSafe(w: World, tables: seq<Table>, quotable: string -> bool)
    requires LocalData(tables)
    ensures Grown(w.hosted, Synced(w, tables, quotable).hosted, tables, quotable)
  {
    assert tables[0..] == tables;
    SyncKeepsFrom(w, tables, 0, quotable);
  }

  /** The merge: what was hosted wins, and of the local rows exactly those of batches that can be sent are there. */
  ghost predicate Merged(h: Hosted, g: Hosted, tables: seq<Table>, quotable: string -> bool) {
    Grown(h, g, tables, quotable) && AllArrived(g, tables, 0, quotable)
  }

  lemma RecoveringSyncMerges(w: World, tables: seq<Table>, quotable: string -> bool)
    requires LocalData(tables) && Recovers(w.answers)
    ensures Merged(w.hosted, Synced(w, tables, quotable).hosted, tables, quotable)
  {
    assert tables[0..] == tables;
    SyncKeepsFrom(w, tables, 0, quotable);
  }

  /** The row as it can be hosted: the same key, and in every other column the same value, or NULL for a text that cannot be
      quoted. */
  ghost predicate HostedAs(row: Row, hosted: Row, quotable: string -> bool) {
    && hosted.key == row.key && |hosted.rest| == |row.rest|
    && (forall c :: 0 <= c < |row.rest| ==>
          match row.rest[c]
          case Null => hosted.rest[c] == Null
          case Text(value) => if quotable(value) then hosted.rest[c] == Text(value) else hosted.rest[c] == Null)
  }

  /** A local row is hosted after such a run if and only if its key was there before or its whole batch can be sent. */
  lemma RowArrivesIff(h: Hosted, g: Hosted, tables: seq<Table>, t: nat, i: nat, quotable: string -> bool)
    requires LocalData(tables) && Merged(h, g, tables, quotable)
    requires t < |tables| && tables[t].keyed && i < |tables[t].rows|
    ensures var slot := Slot(tables[t].name, tables[t].rows[i].key);
            && (slot in g <==> slot in h || BatchQuotable(tables[t].rows, i, quotable))
            && (slot in g && slot in h ==> g[slot] == h[slot])
            && (slot in g && slot !in h ==> g[slot] == Sent(tables[t].rows[i], quotable) && HostedAs(tables[t].rows[i], g[slot], quotable))
  {
    hide BatchQuotable;
    var slot := Slot(tables[t].name, tables[t].rows[i].key);
    assert Arrived(g, tables[t], 0, |tables[t].rows|, quotable);
    if slot in g && slot !in h {
      var u: nat, j: nat :| IsLocal(slot, g[slot], tables, u, j, quotable);
      assert tables[u] == tables[t];
      assert i == j;
      assert KeyQuotable(tables[t].rows[i], quotable) by { OwnKey(tables[t].rows, i, quotable); }
      KeySendable(tables[t].rows[i], quotable);
    }
  }

  lemma OwnKey(rows: seq<Row>, i: nat, quotable: string -> bool)
    requires i < |rows| && BatchQuotable(rows, i, quotable)
    ensures KeyQuotable(rows[i], quotable)
  {
  }

  /** The merge is determined by what was hosted and what is local. */
  lemma MergeUnique(h: Hosted, g: Hosted, k: Hosted, tables: seq<Table>, quotable: string -> bool)
    requires LocalData(tables) && Merged(h, g, tables, quotable) && Merged(h, k, tables, quotable)
    ensures g == k
  {
    MergeIncluded(h, g, k, tables, quotable);
    MergeIncluded(h, k, g, tables, quotable);
  }

  lemma MergeIncluded(h: Hosted, g: Hosted, k: Hosted, tables: seq<Table>, quotable: string -> bool)
    requires LocalData(tables) && Merged(h, g, tables, quotable) && Merged(h, k, tables, quotable)
    ensures forall s :: s in g ==> s in k && k[s] == g[s]
  {
    hide BatchQuotable;
    forall s | s in g ensures s in k && k[s] == g[s] {
      if s !in h {
        var t: nat, i: nat :| IsLocal(s, g[s], tables, t, i, quotable);
        RowArrivesIff(h, g, tables, t, i, quotable);
        RowArrivesIff(h, k, tables, t, i, quotable);
      }
    }
  }

  /** The hosted database after one run for each of the fault patterns. */
  function SyncedOften(h: Hosted, faults: seq<seq<Answer>>, tables: seq<Table>, quotable: string -> bool): Hosted
    decreases |faults|
  {
    if faults == [] then h
    else SyncedOften(Synced(World(h, faults[0], []), tables, quotable).hosted, faults[1..], tables, quotable)
  }

  lemma {:induction false} OftenIsSafe(h: Hosted, faults: seq<seq<Answer>>, tables: seq<Table>, quotable: string -> bool)
    requires LocalData(tables)
    ensures Grown(h, SyncedOften(h, faults, tables, quotable), tables, quotable)
    decreases |faults|
  {
    hide FromLocal;
    hide Grown;
    hide Synced;
    if faults == [] {
      GrownRefl(h, tables, quotable);
    } else {
      var w := World(h, faults[0], []);
      var g := Synced(w, tables, quotable).hosted;
      SyncIsSafe(w, tables, quotable);
      OftenIsSafe(g, faults[1..], tables, quotable);
      GrownTrans(h, g, SyncedOften(h, faults, tables, quotable), tables, quotable);
    }
  }

  /** Executed at least once, in effect exactly once: after any runs under any faults, one run in which no statement
      fails for good leaves the database that a single run without faults would have left at the start. */
  lemma ExactlyOnce(h: Hosted, faults: seq<seq<Answer>>, last: seq<Answer>, tables: seq<Table>, quotable: string -> bool)
    requires LocalData(tables) && Recovers(last)
    ensures var g := SyncedOften(h, faults, tables, quotable);
            Synced(World(g, last, []), tables, quotable).hosted == Synced(World(h, [], []), tables, quotable).hosted
  {
    hide FromLocal;
    hide Grown;
    hide Synced;
    hide AllArrived;
    var g := SyncedOften(h, faults, tables, quotable);
    OftenIsSafe(h, faults, tables, quotable);
    RecoveringSyncMerges(World(g, last, []), tables, quotable);
    var k := Synced(World(g, last, []), tables, quotable).hosted;
    GrownTrans(h, g, k, tables, quotable);
    RecoveringSyncMerges(World(h, [], []), tables, quotable);
    MergeUnique(h, k, Synced(World(h, [], []), tables, quotable).hosted, tables, quotable);
  }

  // ---------- The once-only guard of `start` ----------

  datatype StartCall = StartCall(healthy: bool, answers: seq<Answer>)

  /** The hosted database after a sequence of calls of `start`. */
  function Started(h: Hosted, done: bool, calls: seq<StartCall>, tables: seq<Table>, quotable: string -> bool): Hosted
    decreases |calls|
  {
    if calls == [] then h
    else if calls[0].healthy && !done then
      Started(Synced(World(h, calls[0].answers, []), tables, quotable).hosted, true, calls[1..], tables, quotable)
    else Started(h, done, calls[1..], tables, quotable)
  }

  lemma {:induction false} DoneIsFinal(h: Hosted, calls: seq<StartCall>, tables: seq<Table>, quotable: string -> bool)
    ensures Started(h, true, calls, tables, quotable) == h
    decreases |calls|
  {
    if calls != [] { DoneIsFinal(h, calls[1..], tables, quotable); }
  }

  /** Only the first healthy call counts, whatever it met. */
  lemma {:induction false} FirstHealthyDecides(h: Hosted, calls: seq<StartCall>, k: nat, tables: seq<Table>, quotable: string -> bool)
    requires k <= |calls| && (k < |calls| ==> calls[k].healthy)
    requires forall i :: 0 <= i < k ==> !calls[i].healthy
    ensures Started(h, false, calls, tables, quotable) ==
            if k == |calls| then h else Synced(World(h, calls[k].answers, []), tables, quotable).hosted
    decreases k
  {
    hide Synced;
    if k > 0 {
      FirstHealthyDecides(h, calls[1..], k - 1, tables, quotable);
    } else if calls != [] {
      DoneIsFinal(Synced(World(h, calls[0].answers, []), tables, quotable).hosted, calls[1..], tables, quotable);
    }
  }
}
