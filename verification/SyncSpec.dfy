/** Initial replication as a function of the database answers, and what every run of it reaches. */
module SyncSpec {

  const PAGE_SIZE: nat := 1000
  const BATCH_SIZE: nat := 100
  const MAX_ATTEMPTS: nat := 3

  datatype Cell = Null | Text(value: string)

  /** A row, its primary-key columns apart. */
  datatype Row = Row(key: seq<Cell>, rest: seq<Cell>)

  /** A tracked table: whether a primary key is known, and its rows in primary-key order. */
  datatype Table = Table(name: string, keyed: bool, rows: seq<Row>)

  /** The hosted database: the primary key is the only uniqueness constraint. */
  datatype Slot = Slot(table: string, key: seq<Cell>)

  type Hosted = map<Slot, Row>

  // ---------- Values as they are sent ----------

  function SentCells(cells: seq<Cell>, quotable: string -> bool): (r: seq<Cell>)
    ensures |r| == |cells|
    ensures forall i :: 0 <= i < |r| ==> r[i] == if cells[i].Text? && !quotable(cells[i].value) then Null else cells[i]
  {
    seq(|cells|, i requires 0 <= i < |cells| => if cells[i].Text? && !quotable(cells[i].value) then Null else cells[i])
  }

  /** A text that cannot be quoted is sent as NULL. */
  function Sent(row: Row, quotable: string -> bool): Row {
    Row(SentCells(row.key, quotable), SentCells(row.rest, quotable))
  }

  function SentRows(rows: seq<Row>, quotable: string -> bool): (r: seq<Row>)
    ensures |r| == |rows|
    ensures forall i :: 0 <= i < |r| ==> r[i] == Sent(rows[i], quotable)
  {
    seq(|rows|, i requires 0 <= i < |rows| => Sent(rows[i], quotable))
  }

  // ---------- One statement ----------

  datatype Query = Select(table: Table, offset: nat) | Insert(name: string, rows: seq<Row>)

  /** `Good` is the status that belongs to the kind of statement, `WrongKind` the other success status. */
  datatype Reply = Good | WrongKind | Failure | NoResult

  /** What one execution meets: its reply, and whether an insert took effect although the reply does not say so. */
  datatype Answer = Answer(reply: Reply, applied: bool)

  /** `ON CONFLICT DO NOTHING` */
  function Add(h: Hosted, name: string, row: Row): Hosted {
    if Slot(name, row.key) in h then h else h[Slot(name, row.key) := row]
  }

  function AddAll(h: Hosted, name: string, rows: seq<Row>): Hosted
    decreases |rows|
  {
    if rows == [] then h else AddAll(Add(h, name, rows[0]), name, rows[1..])
  }

  /** A primary key is never null, so the server refuses a statement with such a row as a whole. */
  predicate Admissible(q: Query) {
    q.Insert? ==> forall i :: 0 <= i < |q.rows| ==> Null !in q.rows[i].key
  }

  /** The databases with the answers still to come; past their end everything succeeds. */
  datatype World = World(hosted: Hosted, answers: seq<Answer>, log: seq<Query>)

  function Meet(q: Query, answers: seq<Answer>): Answer {
    if !Admissible(q) then
      Answer(if answers != [] && answers[0].reply == NoResult then NoResult else Failure, false)
    else if answers == [] then Answer(Good, true)
    else answers[0]
  }

  function Effect(h: Hosted, q: Query, a: Answer): Hosted {
    if q.Insert? && (a.reply.Good? || a.applied) then AddAll(h, q.name, q.rows) else h
  }

  function Rest(answers: seq<Answer>): seq<Answer> {
    if answers == [] then [] else answers[1..]
  }

  datatype Tried = Tried(world: World, reply: Reply)

  function Attempt(w: World, q: Query): Tried {
    var a := Meet(q, w.answers);
    Tried(World(Effect(w.hosted, q, a), Rest(w.answers), w.log + [q]), a.reply)
  }

  predicate Accepted(r: Reply) { r.Good? || r.WrongKind? }

  /** At most `n` attempts. */
  function Retried(w: World, q: Query, n: nat): Tried
    decreases n
  {
    if n == 0 then Tried(w, NoResult)
    else
      var t := Attempt(w, q);
      if Accepted(t.reply) then t else Retried(t.world, q, n - 1)
  }

  function Executed(w: World, q: Query): Tried { Retried(w, q, MAX_ATTEMPTS) }

  // ---------- The synchronisation ----------

  function BatchLength(n: nat): nat { if n < BATCH_SIZE then n else BATCH_SIZE }

  /** A failed insert is given up, and the next batch is sent all the same. */
  function InsertAll(w: World, name: string, rows: seq<Row>): World
    decreases |rows|
  {
    if rows == [] then w
    else
      var k := BatchLength(|rows|);
      InsertAll(Executed(w, Insert(name, rows[..k])).world, name, rows[k..])
  }

  function PageEnd(n: nat, offset: nat): nat { if offset + PAGE_SIZE < n then offset + PAGE_SIZE else n }

  function PageOf(rows: seq<Row>, offset: nat): seq<Row> {
    if offset >= |rows| then [] else rows[offset..PageEnd(|rows|, offset)]
  }

  /** A failed select ends the table. */
  function SyncedTable(w: World, t: Table, offset: nat, quotable: string -> bool): World
    decreases if offset < |t.rows| then |t.rows| - offset else 0
  {
    var r := Executed(w, Select(t, offset));
    var page := PageOf(t.rows, offset);
    if r.reply != Good || page == [] then r.world
    else SyncedTable(InsertAll(r.world, t.name, SentRows(page, quotable)), t, offset + PAGE_SIZE, quotable)
  }

  function Synced(w: World, tables: seq<Table>, quotable: string -> bool): World
    decreases |tables|
  {
    if tables == [] then w
    else Synced(if tables[0].keyed then SyncedTable(w, tables[0], 0, quotable) else w, tables[1..], quotable)
  }

  // ---------- Safety: whatever fails, only whole local rows are added ----------

  predicate KeyQuotable(row: Row, quotable: string -> bool) {
    forall i :: 0 <= i < |row.key| ==> row.key[i].Text? && quotable(row.key[i].value)
  }

  /** Every row of the batch that row `i` travels in has a key that can be sent. */
  ghost predicate BatchQuotable(rows: seq<Row>, i: nat, quotable: string -> bool) {
    forall j :: 0 <= j < |rows| && j / BATCH_SIZE == i / BATCH_SIZE ==> KeyQuotable(rows[j], quotable)
  }

  /** The local tables: keys are never null and are distinct, and a table listed twice is the same table. */
  ghost predicate LocalData(tables: seq<Table>) {
    && (forall t, i, c :: 0 <= t < |tables| && 0 <= i < |tables[t].rows| && 0 <= c < |tables[t].rows[i].key| ==>
          tables[t].rows[i].key[c].Text?)
    && (forall t, i, j :: 0 <= t < |tables| && 0 <= i < j < |tables[t].rows| ==>
          tables[t].rows[i].key != tables[t].rows[j].key)
    && (forall t, u :: 0 <= t < |tables| && 0 <= u < |tables| && tables[t].name == tables[u].name ==> tables[t] == tables[u])
  }

  /** `row` at `slot` is row `i` of table `t`, from a batch that can be sent. */
  ghost predicate IsLocal(slot: Slot, row: Row, tables: seq<Table>, t: nat, i: nat, quotable: string -> bool) {
    && t < |tables| && tables[t].keyed && i < |tables[t].rows|
    && slot == Slot(tables[t].name, tables[t].rows[i].key)
    && row == Sent(tables[t].rows[i], quotable)
    && BatchQuotable(tables[t].rows, i, quotable)
  }

  ghost predicate FromLocal(slot: Slot, row: Row, tables: seq<Table>, quotable: string -> bool) {
    exists t: nat, i: nat :: IsLocal(slot, row, tables, t, i, quotable)
  }

  /** From `h` to `g` nothing is lost or changed, and what is new are local rows. */
  ghost predicate Grown(h: Hosted, g: Hosted, tables: seq<Table>, quotable: string -> bool) {
    && (forall s :: s in h ==> s in g && g[s] == h[s])
    && (forall s :: s in g && s !in h ==> FromLocal(s, g[s], tables, quotable))
  }

  lemma GrownTrans(h: Hosted, g: Hosted, k: Hosted, tables: seq<Table>, quotable: string -> bool)
    requires Grown(h, g, tables, quotable) && Grown(g, k, tables, quotable)
    ensures Grown(h, k, tables, quotable)
  {
    hide FromLocal;
  }

  lemma {:induction false} AddAllGrown(h: Hosted, name: string, rows: seq<Row>, tables: seq<Table>, quotable: string -> bool)
    requires forall i :: 0 <= i < |rows| ==> FromLocal(Slot(name, rows[i].key), rows[i], tables, quotable)
    ensures Grown(h, AddAll(h, name, rows), tables, quotable)
    ensures forall i :: 0 <= i < |rows| ==> Slot(name, rows[i].key) in AddAll(h, name, rows)
    decreases |rows|
  {
    hide FromLocal;
    if rows != [] {
      var g := Add(h, name, rows[0]);
      assert Grown(h, g, tables, quotable);
      AddAllGrown(g, name, rows[1..], tables, quotable);
      GrownTrans(h, g, AddAll(h, name, rows), tables, quotable);
      forall i | 0 <= i < |rows| ensures Slot(name, rows[i].key) in AddAll(h, name, rows) {
        if i > 0 { assert rows[i] == rows[1..][i - 1]; }
      }
    }
  }

  /** A statement may be carried out as often as it is attempted. */
  lemma {:induction false} RetriedGrown(w: World, q: Query, n: nat, tables: seq<Table>, quotable: string -> bool)
    requires q.Insert? && Admissible(q) ==>
               forall i :: 0 <= i < |q.rows| ==> FromLocal(Slot(q.name, q.rows[i].key), q.rows[i], tables, quotable)
    ensures Grown(w.hosted, Retried(w, q, n).world.hosted, tables, quotable)
    ensures q.Insert? && Retried(w, q, n).reply == Good ==>
              forall i :: 0 <= i < |q.rows| ==> Slot(q.name, q.rows[i].key) in Retried(w, q, n).world.hosted
    decreases n
  {
    hide FromLocal;
    hide Grown;
    hide Admissible;
    hide AddAll;
    assert Grown(w.hosted, w.hosted, tables, quotable) by { GrownRefl(w.hosted, tables, quotable); }
    if n > 0 {
      var t := Attempt(w, q);
      if q.Insert? && Admissible(q) { AddAllGrown(w.hosted, q.name, q.rows, tables, quotable); }
      if !Accepted(t.reply) {
        RetriedGrown(t.world, q, n - 1, tables, quotable);
        GrownTrans(w.hosted, t.world.hosted, Retried(w, q, n).world.hosted, tables, quotable);
      }
    }
  }

  lemma GrownRefl(h: Hosted, tables: seq<Table>, quotable: string -> bool)
    ensures Grown(h, h, tables, quotable)
  {
  }
}
