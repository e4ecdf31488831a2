/** `ReplicationManager`: paging, batching and retrying over two database connections. */
module Replication {
  import opened SyncSpec
  import opened SyncTheorems

  const FIRST_DELAY: nat := 100

  newtype int32 = x: int | -0x8000_0000 <= x < 0x8000_0000

  /** A `PGresult` handle, which may be null. */
  datatype Result = Nothing | Result(id: nat, status: Reply, rows: seq<Row>)

  function Pow2(n: nat): nat { if n == 0 then 1 else 2 * Pow2(n - 1) }

  /** How many of at most `n` attempts fail. */
  function FailedAttempts(w: World, q: Query, n: nat): nat
    decreases n
  {
    if n == 0 then 0
    else
      var t := Attempt(w, q);
      if Accepted(t.reply) then 0 else 1 + FailedAttempts(t.world, q, n - 1)
  }

  lemma RetriedStep(w: World, q: Query, n: nat)
    requires n > 0
    ensures var t := Attempt(w, q);
            && Retried(w, q, n) == (if Accepted(t.reply) then t else Retried(t.world, q, n - 1))
            && FailedAttempts(w, q, n) == (if Accepted(t.reply) then 0 else 1 + FailedAttempts(t.world, q, n - 1))
  {
    hide Attempt;
  }

  /** Both connections: the hosted data, the coming answers, the results not yet cleared and the time slept. */
  class Databases {
    var hosted: Hosted
    var answers: seq<Answer>
    ghost var log: seq<Query>
    ghost var live: set<nat>
    var issued: nat
    var slept: nat

    constructor (hosted: Hosted, answers: seq<Answer>)
      ensures Now() == World(hosted, answers, []) && Valid() && live == {} && slept == 0
    {
      this.hosted, this.answers := hosted, answers;
      log, live := [], {};
      issued, slept := 0, 0;
    }

    ghost function Now(): World
      reads this
    {
      World(hosted, answers, log)
    }

    /** An identity once given out is never given out again. */
    ghost predicate Valid()
      reads this
    {
      forall id :: id in live ==> id < issued
    }

    /** `PQexec` */
    method Exec(q: Query) returns (res: Result)
      requires Valid()
      modifies this
      ensures Valid() && slept == old(slept) && issued >= old(issued)
      ensures Now() == Attempt(old(Now()), q).world
      ensures res.Nothing? <==> Attempt(old(Now()), q).reply == NoResult
      ensures res.Result? ==> res.status == Attempt(old(Now()), q).reply && res.id !in old(live)
      ensures res.Result? && res.status == Good && q.Select? ==> res.rows == PageOf(q.table.rows, q.offset)
      ensures live == old(live) + if res.Result? then {res.id} else {}
    {
      var a := Meet(q, answers);
      hosted := Effect(hosted, q, a);
      answers := Rest(answers);
      log := log + [q];
      if a.reply == NoResult { return Nothing; }
      res := Result(issued, a.reply, if q.Select? && a.reply == Good then PageOf(q.table.rows, q.offset) else []);
      live := live + {issued};
      issued := issued + 1;
    }

    /** `PQclear`: nothing happens to a null handle, and a result may be cleared only while it is live. */
    method Clear(res: Result)
      requires Valid() && (res.Result? ==> res.id in live)
      modifies `live
      ensures Valid() && live == old(live) - if res.Result? then {res.id} else {}
    {
      if res.Result? { live := live - {res.id}; }
    }

    /** One attempt of `executeWithRetry`: the result is kept if its status is a success, and cleared otherwise. */
    method AttemptQuery(q: Query) returns (done: bool, res: Result)
      requires Valid()
      modifies this
      ensures Valid() && slept == old(slept)
      ensures Now() == Attempt(old(Now()), q).world
      ensures done <==> Accepted(Attempt(old(Now()), q).reply)
      ensures done ==> res.Result? && res.status == Attempt(old(Now()), q).reply && res.id !in old(live)
      ensures done && res.status == Good && q.Select? ==> res.rows == PageOf(q.table.rows, q.offset)
      ensures !done ==> res.Nothing?
      ensures live == old(live) + if done then {res.id} else {}
    {
      hide Attempt;
      res := Exec(q);
      if res.Result? && Accepted(res.status) { return true, res; }
      Clear(res);
      return false, Nothing;
    }

    /** `Retry::withExponentialBackoff` around such attempts: it stops at the first success, and sleeps after every
        failure, twice as long each time. */
    method WithExponentialBackoff(maxAttempts: int, q: Query) returns (res: Result)
      requires Valid()
      modifies this
      ensures Valid()
      ensures RetryDone(old(Now()), q, Tries(maxAttempts), Now(), old(live), live, res)
      ensures slept == old(slept) + FIRST_DELAY * (Pow2(FailedAttempts(old(Now()), q, Tries(maxAttempts))) - 1)
    {
      hide Attempt;
      hide Retried;
      hide FailedAttempts;
      ghost var start, tries := Now(), Tries(maxAttempts);
      var attempt := 0;
      var delay := FIRST_DELAY;
      while attempt < maxAttempts
        invariant 0 <= attempt <= tries && Valid() && live == old(live)
        invariant Retried(Now(), q, tries - attempt) == Retried(start, q, tries)
        invariant FailedAttempts(start, q, tries) == attempt + FailedAttempts(Now(), q, tries - attempt)
        invariant delay == FIRST_DELAY * Pow2(attempt)
        invariant slept == old(slept) + FIRST_DELAY * (Pow2(attempt) - 1)
      {
        RetriedStep(Now(), q, tries - attempt);
        var done;
        done, res := AttemptQuery(q);
        if done { return res; }
        slept := slept + delay;
        delay := delay * 2;
        attempt := attempt + 1;
      }
      NoAttempts(Now(), q);
      res := Nothing;
    }

    /** `executeWithRetry` */
    method ExecuteWithRetry(q: Query, maxAttempts: int := MAX_ATTEMPTS) returns (res: Result)
      requires Valid()
      modifies this
      ensures Valid()
      ensures RetryDone(old(Now()), q, Tries(maxAttempts), Now(), old(live), live, res)
      ensures slept == old(slept) + FIRST_DELAY * (Pow2(FailedAttempts(old(Now()), q, Tries(maxAttempts))) - 1)
    {
      res := WithExponentialBackoff(maxAttempts, q);
    }
  }

  function Tries(maxAttempts: int): nat { if maxAttempts < 0 then 0 else maxAttempts }

  /** The world moved as specified; a result is returned just for a success, it is new, and no other one is left alive. */
  ghost predicate RetryDone(before: World, q: Query, tries: nat, after: World, live0: set<nat>, live: set<nat>, res: Result) {
    var t := Retried(before, q, tries);
    && after == t.world
    && (res.Result? <==> Accepted(t.reply))
    && (res.Result? ==> res.status == t.reply && res.id !in live0)
    && (res.Result? && res.status == Good && q.Select? ==> res.rows == PageOf(q.table.rows, q.offset))
    && live == live0 + if res.Result? then {res.id} else {}
  }

  lemma NoAttempts(w: World, q: Query)
    ensures Retried(w, q, 0) == Tried(w, NoResult) && FailedAttempts(w, q, 0) == 0
  {
  }

  /** The rows and the offsets of the pages fit into `int`. */
  predicate Countable(table: Table) { |table.rows| + PAGE_SIZE < 0x8000_0000 }

  class ReplicationManager {
    const db: Databases
    var initialSyncDone: bool

    constructor (db: Databases)
      ensures this.db == db && !initialSyncDone
    {
      this.db := db;
      initialSyncDone := false;
    }

    /** A batch that cannot be inserted is given up. */
    method InsertBatch(name: string, inserts: seq<Row>)
      requires db.Valid()
      modifies db
      ensures db.Valid() && db.live == old(db.live)
      ensures db.Now() == Executed(old(db.Now()), Insert(name, inserts)).world
    {
      hide Retried;
      hide FailedAttempts;
      var res := db.ExecuteWithRetry(Insert(name, inserts));
      db.Clear(res);
    }

    /** The rows of a page, in batches. */
    method InsertPage(name: string, rows: seq<Row>, quotable: string -> bool)
      requires db.Valid()
      modifies db
      ensures db.Valid() && db.live == old(db.live)
      ensures db.Now() == InsertAll(old(db.Now()), name, SentRows(rows, quotable))
    {
      hide Executed;
      hide InsertAll;
      hide Sent;
      ghost var all := SentRows(rows, quotable);
      ghost var goal := InsertAll(db.Now(), name, all);
      var inserts: seq<Row> := [];
      assert inserts + all[0..] == all;
      for i := 0 to |rows|
        invariant db.Valid() && db.live == old(db.live) && |inserts| < BATCH_SIZE
        invariant InsertAll(db.Now(), name, inserts + all[i..]) == goal
      {
        PushRow(inserts, all, i);
        inserts := inserts + [Sent(rows[i], quotable)];
        if |inserts| >= BATCH_SIZE {
          FullBatch(db.Now(), name, inserts, all[i + 1..]);
          InsertBatch(name, inserts);
          inserts := [];
          assert [] + all[i + 1..] == all[i + 1..];
        }
      }
      assert inserts + all[|rows|..] == inserts;
      LastBatch(db.Now(), name, inserts);
      if inserts != [] { InsertBatch(name, inserts); }
    }

    method SyncTable(table: Table, quotable: string -> bool)
      requires db.Valid() && Countable(table)
      modifies db
      ensures db.Valid() && db.live == old(db.live)
      ensures db.Now() == SyncedTable(old(db.Now()), table, 0, quotable)
    {
      hide Retried;
      hide InsertAll;
      hide SentRows;
      hide SyncedTable;
      hide FailedAttempts;
      ghost var goal := SyncedTable(db.Now(), table, 0, quotable);
      var offset: int32 := 0;
      var totalRows: int32 := 0;
      while true
        invariant db.Valid() && db.live == old(db.live)
        invariant 0 <= offset as int < |table.rows| + PAGE_SIZE
        invariant totalRows as int == if offset as int < |table.rows| then offset as int else |table.rows|
        invariant SyncedTable(db.Now(), table, offset as int, quotable) == goal
        decreases |table.rows| + PAGE_SIZE - offset as int
      {
        TableStep(db.Now(), table, offset as int, quotable);
        var q := Select(table, offset as int);
        var res := db.ExecuteWithRetry(q);
        if res.Nothing? || res.status != Good {
          db.Clear(res);
          break;
        }
        var rows := res.rows;
        if |rows| == 0 {
          db.Clear(res);
          break;
        }
        InsertPage(table.name, rows, quotable);
        db.Clear(res);
        totalRows := totalRows + |rows| as int32;
        offset := offset + PAGE_SIZE as int32;
      }
    }

    /** `initialSync`: its effect is the specified one, and every result it gets is cleared exactly once. */
    method InitialSync(tables: seq<Table>, quotable: string -> bool)
      requires db.Valid()
      requires forall t :: 0 <= t < |tables| ==> Countable(tables[t])
      modifies db
      ensures db.Valid() && db.live == old(db.live)
      ensures db.Now() == Synced(old(db.Now()), tables, quotable)
    {
      hide SyncedTable;
      hide Countable;
      assert tables[0..] == tables;
      for t := 0 to |tables|
        invariant db.Valid() && db.live == old(db.live)
        invariant Synced(db.Now(), tables[t..], quotable) == Synced(old(db.Now()), tables, quotable)
      {
        var table := tables[t];
        assert tables[t..][0] == table && tables[t..][1..] == tables[t + 1..];
        if table.keyed { SyncTable(table, quotable); }
      }
    }

    /** `start` up to the point where changes are fetched. */
    method Start(healthy: bool, tables: seq<Table>, quotable: string -> bool)
      requires db.Valid()
      requires forall t :: 0 <= t < |tables| ==> Countable(tables[t])
      modifies this`initialSyncDone, db
      ensures db.Valid() && db.live == old(db.live)
      ensures initialSyncDone == (old(initialSyncDone) || healthy)
      ensures db.Now() == if healthy && !old(initialSyncDone) then Synced(old(db.Now()), tables, quotable) else old(db.Now())
    {
      if !healthy { return; }
      if !initialSyncDone {
        InitialSync(tables, quotable);
        initialSyncDone := true;
      }
    }
  }

  lemma PushRow(inserts: seq<Row>, all: seq<Row>, i: nat)
    requires i < |all|
    ensures inserts + all[i..] == inserts + [all[i]] + all[i + 1..]
  {
  }

  lemma FullBatch(w: World, name: string, batch: seq<Row>, rest: seq<Row>)
    requires |batch| == BATCH_SIZE
    ensures InsertAll(w, name, batch + rest) == InsertAll(Executed(w, Insert(name, batch)).world, name, rest)
  {
    hide Executed;
    assert (batch + rest)[..BATCH_SIZE] == batch && (batch + rest)[BATCH_SIZE..] == rest;
  }

  lemma LastBatch(w: World, name: string, batch: seq<Row>)
    requires |batch| < BATCH_SIZE
    ensures InsertAll(w, name, batch) == if batch == [] then w else Executed(w, Insert(name, batch)).world
  {
    hide Executed;
    if batch != [] {
      assert batch[..|batch|] == batch && batch[|batch|..] == [];
      assert forall v: World :: InsertAll(v, name, []) == v;
    }
  }
}
