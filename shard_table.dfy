/**
 * The registry's shard table as a value: thread identity to shard, each
 * shard a map from span id to slot. The closures the registry hands to a
 * shard, and the operations on the table they amount to, are functions
 * here; the classes in module Sharded are proved against them.
 */
module ShardTable {
  import opened Wrappers
  import opened Threads
  import opened Slots

  type Spans<Id, T> = map<Id, Slot<T>>
  type Table<Id, T> = map<Thread, Spans<Id, T>>

  /** The thread's shard; a thread without one sees the empty shard the slow path would create. */
  function ShardOf<Id, T>(tbl: Table<Id, T>, t: Thread): Spans<Id, T> {
    if t in tbl then tbl[t] else map[]
  }

  /** The slot stored under `id` in thread `t`'s shard. */
  function Entry<Id, T>(tbl: Table<Id, T>, t: Thread, id: Id): Option<Slot<T>> {
    var spans := ShardOf(tbl, t);
    if id in spans then Some(spans[id]) else None
  }

  /**
   * What a span map yields under `id`: the span's data only while its slot
   * is `Present` (`spans.get(id).and_then(Slot::get_mut)`).
   */
  function Found<Id, T>(spans: Spans<Id, T>, id: Id): (r: Option<T>)
    ensures r.Some? <==> id in spans && spans[id].Present?
    ensures r.Some? ==> spans[id] == Present(r.value)
  {
    if id in spans then spans[id].GetMut() else None
  }

  /** What thread `t` finds under `id` in its shard. */
  function Lookup<Id, T>(tbl: Table<Id, T>, t: Thread, id: Id): Option<T> {
    Found(ShardOf(tbl, t), id)
  }

  /** `with_shard`: run `f` once on the calling thread's shard, creating the shard if it has none. */
  function WithShardSpec<Id, T, R>(tbl: Table<Id, T>, t: Thread, f: Spans<Id, T> -> (Spans<Id, T>, R)): (Table<Id, T>, R) {
    var (spans, r) := f(ShardOf(tbl, t));
    (tbl[t := spans], r)
  }

  /** The closure `insert` hands to `with_shard`: store the span as present, replacing any slot. */
  function InsertStep<Id, T>(spans: Spans<Id, T>, id: Id, span: T): (Spans<Id, T>, ()) {
    (spans[id := Present(span)], ())
  }

  /**
   * The closure `with_span` hands to `with_shard`: when the slot holds the
   * span, run the caller's `f` on it (a `&mut T`, so `f` returns the new
   * data beside its result); otherwise leave the shard alone.
   */
  function SpanStep<Id, T, R>(spans: Spans<Id, T>, id: Id, f: T -> (T, R)): (Spans<Id, T>, Option<R>) {
    match Found(spans, id)
    case None => (spans, None)
    case Some(span) =>
      var (span', r) := f(span);
      (spans[id := Present(span')], Some(r))
  }

  /** `insert` from thread `t`, on the table. */
  function InsertSpec<Id, T>(tbl: Table<Id, T>, t: Thread, id: Id, span: T): Table<Id, T> {
    tbl[t := InsertStep(ShardOf(tbl, t), id, span).0]
  }

  /** `with_span` from thread `t`, on the table: the new table and the caller's result. */
  function WithSpanSpec<Id, T, R>(tbl: Table<Id, T>, t: Thread, id: Id, f: T -> (T, R)): (Table<Id, T>, Option<R>) {
    var (spans, r) := SpanStep(ShardOf(tbl, t), id, f);
    (tbl[t := spans], r)
  }

  /** `try_steal` on one shard by thread `thief`: the new shard and the slot handed back. */
  function StealStep<Id, T>(spans: Spans<Id, T>, id: Id, thief: Thread): (Spans<Id, T>, Option<Slot<T>>) {
    if id in spans then (spans[id := Stolen(thief)], Some(spans[id])) else (spans, None)
  }

  /** Inserting `v` and then calling `with_span` on the same thread runs `f` on `v` and returns its result. */
  lemma InsertThenWithSpan<Id, T, R>(tbl: Table<Id, T>, t: Thread, id: Id, v: T, f: T -> (T, R))
    ensures Lookup(InsertSpec(tbl, t, id, v), t, id) == Some(v)
    ensures WithSpanSpec(InsertSpec(tbl, t, id, v), t, id, f) == (InsertSpec(tbl, t, id, f(v).0), Some(f(v).1))
  {
    var spans := ShardOf(tbl, t);
    assert ShardOf(InsertSpec(tbl, t, id, v), t) == spans[id := Present(v)];
    assert spans[id := Present(v)][id := Present(f(v).0)] == spans[id := Present(f(v).0)];
    assert InsertSpec(tbl, t, id, v)[t := spans[id := Present(f(v).0)]] == tbl[t := spans[id := Present(f(v).0)]];
  }

  /**
   * `with_span` calls `f` exactly when the caller's shard holds the span as
   * present; otherwise it returns nothing and the table changes only by the
   * caller's (possibly new, empty) shard.
   */
  lemma WithSpanPresent<Id, T, R>(tbl: Table<Id, T>, t: Thread, id: Id, f: T -> (T, R))
    ensures WithSpanSpec(tbl, t, id, f).1.Some? <==> Lookup(tbl, t, id).Some?
    ensures Lookup(tbl, t, id).Some? ==>
      WithSpanSpec(tbl, t, id, f) == (InsertSpec(tbl, t, id, f(Lookup(tbl, t, id).value).0), Some(f(Lookup(tbl, t, id).value).1))
    ensures Lookup(tbl, t, id).None? ==> WithSpanSpec(tbl, t, id, f).0 == tbl[t := ShardOf(tbl, t)]
  {
  }

  /**
   * A `with_span` whose closure only reads, from a thread that has a shard,
   * leaves the table exactly as it was.
   */
  lemma WithSpanReadOnly<Id, T, R>(tbl: Table<Id, T>, t: Thread, id: Id, f: T -> (T, R))
    requires t in tbl
    requires forall x :: f(x).0 == x
    ensures WithSpanSpec(tbl, t, id, f).0 == tbl
  {
    var spans := tbl[t];
    if id in spans && spans[id].Present? {
      assert spans[id := Present(f(spans[id].span).0)] == spans;
    }
    assert tbl[t := spans] == tbl;
  }

  /**
   * The registry's own test, on the table: one thread inserts ids 1 and 2,
   * reads both back, inserts 3, and reads all three back; reading changes
   * nothing.
   */
  lemma BasicallyWorks(t: Thread)
    ensures var read := (s: int) => (s, s);
      var empty: Table<int, int> := map[];
      var two := InsertSpec(InsertSpec(empty, t, 1, 1), t, 2, 2);
      var three := InsertSpec(two, t, 3, 3);
      && WithSpanSpec(two, t, 1, read) == (two, Some(1))
      && WithSpanSpec(two, t, 2, read) == (two, Some(2))
      && WithSpanSpec(three, t, 1, read) == (three, Some(1))
      && WithSpanSpec(three, t, 2, read) == (three, Some(2))
      && WithSpanSpec(three, t, 3, read) == (three, Some(3))
  {
    var read := (s: int) => (s, s);
    var empty: Table<int, int> := map[];
    var two := InsertSpec(InsertSpec(empty, t, 1, 1), t, 2, 2);
    var three := InsertSpec(two, t, 3, 3);
    WithSpanReadOnly(two, t, 1, read);
    WithSpanReadOnly(two, t, 2, read);
    WithSpanReadOnly(three, t, 1, read);
    WithSpanReadOnly(three, t, 2, read);
    WithSpanReadOnly(three, t, 3, read);
  }

  /** A registry operation as a value: which thread calls it, on which id. */
  datatype Op<Id, !T, R> =
    | InsertOp(thread: Thread, id: Id, span: T)
    | WithSpanOp(thread: Thread, id: Id, f: T -> (T, R))

  function Apply<Id, T, R>(tbl: Table<Id, T>, op: Op<Id, T, R>): Table<Id, T> {
    match op
    case InsertOp(t, id, span) => InsertSpec(tbl, t, id, span)
    case WithSpanOp(t, id, f) => WithSpanSpec(tbl, t, id, f).0
  }

  /** The operations `ops`, one after another. */
  function Run<Id, T, R>(tbl: Table<Id, T>, ops: seq<Op<Id, T, R>>): Table<Id, T>
    decreases |ops|
  {
    if ops == [] then tbl else Run(Apply(tbl, ops[0]), ops[1..])
  }

  /** The threads that call the operations `ops`. */
  function Callers<Id, T, R>(ops: seq<Op<Id, T, R>>): set<Thread> {
    set i | 0 <= i < |ops| :: ops[i].thread
  }

  /**
   * An operation touches only the caller's shard and, in it, only its own id:
   * every other slot of every shard is unchanged, and the only shard it can
   * add is the caller's.
   */
  lemma ApplyFrame<Id, T, R>(tbl: Table<Id, T>, op: Op<Id, T, R>, u: Thread, j: Id)
    requires u != op.thread || j != op.id
    ensures Entry(Apply(tbl, op), u, j) == Entry(tbl, u, j)
    ensures u != op.thread ==> ShardOf(Apply(tbl, op), u) == ShardOf(tbl, u)
    ensures Apply(tbl, op).Keys == tbl.Keys + {op.thread}
  {
  }

  /**
   * Shards are only ever added, one per calling thread however many times it
   * calls, and a thread that calls nothing keeps its shard as it was.
   */
  lemma {:induction false} RunShards<Id, T, R>(tbl: Table<Id, T>, ops: seq<Op<Id, T, R>>)
    ensures Run(tbl, ops).Keys == tbl.Keys + Callers(ops)
    ensures forall u :: u in tbl && u !in Callers(ops) ==> Run(tbl, ops)[u] == tbl[u]
    decreases |ops|
  {
    if ops != [] {
      var next := Apply(tbl, ops[0]);
      RunShards(next, ops[1..]);
      assert Callers(ops) == {ops[0].thread} + Callers(ops[1..]) by {
        forall u | u in Callers(ops) ensures u in {ops[0].thread} + Callers(ops[1..]) {
          var i :| 0 <= i < |ops| && ops[i].thread == u;
          if i > 0 {
            assert ops[1..][i - 1] == ops[i];
          }
        }
        forall u | u in Callers(ops[1..]) ensures u in Callers(ops) {
          var i :| 0 <= i < |ops[1..]| && ops[1..][i].thread == u;
          assert ops[i + 1] == ops[1..][i];
        }
      }
      forall u | u in tbl && u !in Callers(ops) ensures Run(tbl, ops)[u] == tbl[u] {
        assert ShardOf(next, u) == ShardOf(tbl, u);
      }
    }
  }

  /** The data of the last insert of `(u, j)` in `ops`, if any. */
  function LastInsert<Id(==), T, R>(ops: seq<Op<Id, T, R>>, u: Thread, j: Id): Option<T>
    decreases |ops|
  {
    if ops == [] then None
    else
      var later := LastInsert(ops[1..], u, j);
      if later.Some? then later
      else if ops[0].InsertOp? && ops[0].thread == u && ops[0].id == j then Some(ops[0].span)
      else None
  }

  /**
   * After a run of inserts, from any threads, each thread finds under each id
   * the data it last inserted there, and what it found before where it
   * inserted nothing.
   */
  lemma {:induction false} InsertsRetrievable<Id, T, R>(tbl: Table<Id, T>, ops: seq<Op<Id, T, R>>, u: Thread, j: Id)
    requires forall i :: 0 <= i < |ops| ==> ops[i].InsertOp?
    ensures Lookup(Run(tbl, ops), u, j) == if LastInsert(ops, u, j).Some? then LastInsert(ops, u, j) else Lookup(tbl, u, j)
    decreases |ops|
  {
    if ops != [] {
      var next := Apply(tbl, ops[0]);
      InsertsRetrievable(next, ops[1..], u, j);
      if ops[0].thread == u && ops[0].id == j {
        InsertThenWithSpan(tbl, u, j, ops[0].span, (x: T) => (x, ()));
      } else {
        ApplyFrame(tbl, ops[0], u, j);
      }
    }
  }

  /**
   * `try_steal` on an absent id hands back nothing and changes nothing;
   * otherwise it hands back the previous slot, marks the id as stolen by the
   * thief, so that no lookup finds the span present any more, and changes no
   * other entry.
   */
  lemma StealOutcome<Id, T>(spans: Spans<Id, T>, id: Id, thief: Thread)
    ensures var (after, prev) := StealStep(spans, id, thief);
      && (prev.None? <==> id !in spans)
      && (prev.None? ==> after == spans)
      && (prev.Some? ==> prev.value == spans[id] && id in after && after[id] == Stolen(thief) && after[id].GetMut().None?)
      && after.Keys == spans.Keys
      && (forall j :: j in spans && j != id ==> after[j] == spans[j])
  {
  }

  /** A span's data is handed out by stealing at most once: a second steal only sees the first thief. */
  lemma StealHandsOverOnce<Id, T>(spans: Spans<Id, T>, id: Id, first: Thread, second: Thread)
    ensures var (after, prev) := StealStep(spans, id, first);
      prev.Some? ==> StealStep(after, id, second).1 == Some(Stolen(first))
  {
  }
}
