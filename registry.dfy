/**
 * The sharded registry, sequentially: a table from thread identity to that
 * thread's shard, each shard an object whose span map is updated in place.
 * Locks are gone; what is left of them is the table lock's poison flag,
 * passed in as `poisoned`, and the caller's `panicking` state. The calling
 * thread is the worker `w`, whose identity `ids` hands out.
 */
module Sharded {
  import opened Wrappers
  import opened Threads
  import opened Slots
  import opened Poison
  import opened ShardTable

  /** One thread's storage: span id to slot. */
  class Shard<Id(==), T> {
    var spans: Spans<Id, T>

    /** `Shard::new`: an empty span map. */
    constructor ()
      ensures spans == map[]
    {
      spans := map[];
    }

    /** `Shard::span`: the span's data while its slot is present here, and nothing otherwise. */
    function Span(id: Id): (r: Option<T>)
      reads this
      ensures r.Some? <==> id in spans && spans[id].Present?
      ensures r.Some? ==> spans[id] == Present(r.value)
      ensures r == Found(spans, id)
    {
      if id in spans then spans[id].GetMut() else None
    }

    /**
     * `Shard::try_steal` called by worker `w`: mark the slot as stolen by the
     * caller and hand back what it held. The caller's identity is only asked
     * for when the id is there.
     */
    method TrySteal<W(==)>(id: Id, ids: ThreadIds<W>, w: W) returns (prev: Option<Slot<T>>)
      requires ids.Valid()
      modifies this, ids
      ensures ids.Valid()
      ensures id !in old(spans) ==> prev == None && spans == old(spans) && ids.State() == old(ids.State())
      ensures id in old(spans) ==>
        && ids.State() == Assign(old(ids.State()), w).1
        && (spans, prev) == StealStep(old(spans), id, Assign(old(ids.State()), w).0)
    {
      if id !in spans {
        return None;
      }
      var thief := ids.Current(w);
      prev := Some(spans[id]);
      spans := spans[id := Stolen(thief)];
    }
  }

  /** The table of shards, one per thread that ever called into the registry. */
  class Shards<Id(==), T> {
    var table: map<Thread, Shard<Id, T>>

    /** No two threads share a shard object. */
    ghost predicate Valid()
      reads this
    {
      forall u, v :: u in table && v in table && u != v ==> table[u] != table[v]
    }

    /** The table's contents as a value. */
    ghost function View(): Table<Id, T>
      reads this, table.Values
    {
      map u | u in table :: table[u].spans
    }

    constructor ()
      ensures Valid() && table == map[] && View() == map[]
    {
      table := map[];
    }

    /**
     * `Shards::with_shard`: when `thread` has a shard and the closure has not
     * been taken yet, take it and run it once on that shard; otherwise hand
     * the closure back untouched.
     */
    method WithShard<R>(thread: Thread, f: Option<Spans<Id, T> -> (Spans<Id, T>, R)>)
      returns (r: Option<R>, rest: Option<Spans<Id, T> -> (Spans<Id, T>, R)>)
      requires Valid()
      modifies table.Values
      ensures Valid() && table == old(table)
      ensures r.Some? <==> thread in table && f.Some?
      ensures r.None? ==> rest == f && View() == old(View())
      ensures r.Some? ==> rest == None && (View(), r.value) == WithShardSpec(old(View()), thread, f.value)
    {
      if thread !in table {
        return None, f;
      }
      var shard := table[thread];
      if f.None? {
        return None, f;
      }
      var g := f.value;
      rest := None;
      var (spans, res) := g(shard.spans);
      shard.spans := spans;
      r := Some(res);
      assert View() == old(View())[thread := spans] by {
        forall u | u in table && u != thread ensures table[u].spans == old(table[u].spans) {
          assert table[u] != shard;
        }
      }
    }

    /** `Shards::new_shard_for`: give `thread` a fresh, empty shard (replacing one it had). */
    method NewShardFor(thread: Thread)
      requires Valid()
      modifies this
      ensures Valid()
      ensures thread in table && fresh(table[thread])
      ensures fresh(table.Values - old(table.Values))
      ensures table == old(table)[thread := table[thread]]
      ensures View() == old(View())[thread := map[]]
    {
      var shard := new Shard();
      table := table[thread := shard];
    }
  }

  class Registry<Id(==), T> {
    const shards: Shards<Id, T>

    ghost predicate Valid()
      reads this, shards
    {
      shards.Valid()
    }

    /** Every thread's spans, as a value. */
    ghost function View(): Table<Id, T>
      reads this, shards, shards.table.Values
    {
      shards.View()
    }

    /** `Registry::new`: no shards yet. */
    constructor ()
      ensures Valid() && fresh(shards) && shards.table == map[] && View() == map[]
    {
      shards := new Shards();
    }

    /**
     * `Registry::with_shard`: identify the caller, then the fast path (its
     * shard exists) or the slow path (create exactly that shard, then use it).
     * A poisoned table lock fails both paths before the closure runs.
     */
    method WithShard<W(==), R>(f: Spans<Id, T> -> (Spans<Id, T>, R), ids: ThreadIds<W>, w: W, poisoned: bool)
      returns (r: Result<R>)
      requires Valid() && ids.Valid()
      modifies shards, shards.table.Values, ids
      ensures Valid() && ids.Valid()
      ensures ids.State() == Assign(old(ids.State()), w).1
      ensures r.Ok? <==> !poisoned
      ensures poisoned ==> shards.table == old(shards.table) && View() == old(View())
      ensures !poisoned ==> (View(), r.value) == WithShardSpec(old(View()), Assign(old(ids.State()), w).0, f)
      ensures !poisoned ==> shards.table.Keys == old(shards.table.Keys) + {Assign(old(ids.State()), w).0}
      ensures forall u :: u in old(shards.table) ==> u in shards.table && shards.table[u] == old(shards.table[u])
      ensures fresh(shards.table.Values - old(shards.table.Values))
    {
      var thread := ids.Current(w);
      assert shards.table == old(shards.table) && View() == old(View());
      var pending := Some(f);
      // The read and the write lock of the table share one poison flag.
      if poisoned {
        return Err;
      }
      var fast;
      fast, pending := shards.WithShard(thread, pending);
      if fast.Some? {
        return Ok(fast.value);
      }
      ghost var before := shards.View();
      assert thread !in shards.table;
      assert thread !in before;
      assert shards.table == old(shards.table);
      shards.NewShardFor(thread);
      assert shards.View() == before[thread := map[]];
      assert fresh(shards.table.Values - old(shards.table.Values));
      var slow;
      slow, pending := shards.WithShard(thread, pending);
      r := if slow.Some? then Ok(slow.value) else Err;
      assert before[thread := map[]][thread := f(map[]).0] == before[thread := f(map[]).0];
    }

    /**
     * `Registry::with_span`: run `f` on the caller's span when its shard holds
     * it as present, and report absence otherwise. A panicking caller gets
     * absence from a poisoned registry; any other caller aborts there.
     */
    method WithSpan<W(==), R>(id: Id, f: T -> (T, R), ids: ThreadIds<W>, w: W, panicking: bool, poisoned: bool)
      returns (r: Option<R>)
      requires Valid() && ids.Valid()
      requires panicking || !poisoned
      modifies shards, shards.table.Values, ids
      ensures Valid() && ids.Valid()
      ensures ids.State() == Assign(old(ids.State()), w).1
      ensures poisoned ==> r == None && View() == old(View())
      ensures !poisoned ==> (View(), r) == WithSpanSpec(old(View()), Assign(old(ids.State()), w).0, id, f)
      ensures forall u :: u in old(shards.table) ==> u in shards.table && shards.table[u] == old(shards.table[u])
      ensures fresh(shards.table.Values - old(shards.table.Values))
    {
      var res := WithShard((spans: Spans<Id, T>) => SpanStep(spans, id, f), ids, w, poisoned);
      var handled := HandlePoison(panicking, res);
      r := if handled.Some? then handled.value else None;
    }

    /**
     * `Registry::insert`: store the span as present under `id` in the caller's
     * shard, and return the registry for chaining. A non-panicking caller
     * aborts on a poisoned registry; a panicking one leaves it untouched.
     */
    method Insert<W(==)>(id: Id, span: T, ids: ThreadIds<W>, w: W, panicking: bool, poisoned: bool)
      returns (self: Registry<Id, T>)
      requires Valid() && ids.Valid()
      requires panicking || !poisoned
      modifies shards, shards.table.Values, ids
      ensures self == this && Valid() && ids.Valid()
      ensures ids.State() == Assign(old(ids.State()), w).1
      ensures View() == if poisoned then old(View()) else InsertSpec(old(View()), Assign(old(ids.State()), w).0, id, span)
      ensures forall u :: u in old(shards.table) ==> u in shards.table && shards.table[u] == old(shards.table[u])
      ensures fresh(shards.table.Values - old(shards.table.Values))
    {
      var ok := WithShard((spans: Spans<Id, T>) => InsertStep(spans, id, span), ids, w, poisoned);
      if !panicking {
        assert ok.Ok?;
      }
      self := this;
    }
  }

  /**
   * The start of the registry's own test, driven through the objects: one
   * worker inserts ids 1 and 2 and reads id 1 back.
   */
  method InsertTwoReadBack() returns (a: Option<int>)
    ensures a == Some(1)
  {
    var registry := new Registry<int, int>();
    var ids := new ThreadIds<int>();
    var main := 0;
    var read := (s: int) => (s, s);
    var r := registry.Insert(1, 1, ids, main, false, false);
    r := r.Insert(2, 2, ids, main, false, false);
    a := registry.WithSpan(1, read, ids, main, false, false);
  }
}
