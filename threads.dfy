/**
 * Thread identities. Each thread is given, on its first call, the current
 * value of a process-wide counter, which it then caches for its lifetime.
 * The counter and the per-thread caches are one explicit state here: a
 * worker (the OS thread) is a value of the type parameter `W`.
 */
module Threads {

  /** A thread's registry identity, the counter value it was handed. */
  datatype Thread = Thread(id: nat)

  /** The counter `next` and every worker's cached identity. */
  datatype IdState<W> = IdState(next: nat, cache: map<W, nat>)

  /** Every cached identity was drawn from the counter, and no two workers share one. */
  ghost predicate IdsValid<W>(st: IdState<W>) {
    && (forall w :: w in st.cache ==> st.cache[w] < st.next)
    && (forall w1, w2 :: w1 in st.cache && w2 in st.cache && w1 != w2 ==> st.cache[w1] != st.cache[w2])
  }

  /** One call of `current` by worker `w`: the cached identity, or a fresh one from the counter. */
  function Assign<W>(st: IdState<W>, w: W): (Thread, IdState<W>) {
    if w in st.cache then (Thread(st.cache[w]), st)
    else (Thread(st.next), IdState(st.next + 1, st.cache[w := st.next]))
  }

  /** A worker's first call takes the counter and advances it by exactly one; later calls change nothing. */
  lemma AssignCounter<W>(st: IdState<W>, w: W)
    ensures var (t, st') := Assign(st, w);
      && w in st'.cache && t.id == st'.cache[w]
      && (w !in st.cache ==> t.id == st.next && st'.next == st.next + 1)
      && (w in st.cache ==> st' == st)
  {
  }

  /** `current` returns the same identity on every call from one worker. */
  lemma AssignStable<W>(st: IdState<W>, w: W)
    ensures Assign(Assign(st, w).1, w) == Assign(st, w)
  {
  }

  /** A call keeps the state valid and never changes an identity already handed out. */
  lemma AssignKeepsValid<W>(st: IdState<W>, w: W)
    requires IdsValid(st)
    ensures var st' := Assign(st, w).1;
      && IdsValid(st')
      && st.next <= st'.next
      && (forall v :: v in st.cache ==> v in st'.cache && st'.cache[v] == st.cache[v])
  {
  }

  /** The identities handed to the workers `ws`, calling one after another. */
  function AssignAll<W>(st: IdState<W>, ws: seq<W>): (IdState<W>, seq<Thread>)
    decreases |ws|
  {
    if ws == [] then (st, [])
    else
      var (t, st1) := Assign(st, ws[0]);
      var (fin, ts) := AssignAll(st1, ws[1..]);
      (fin, [t] + ts)
  }

  /** After any run of calls, each call's identity is the one its worker has cached at the end. */
  lemma {:induction false} AssignAllCached<W>(st: IdState<W>, ws: seq<W>)
    requires IdsValid(st)
    ensures var (fin, ts) := AssignAll(st, ws);
      && IdsValid(fin)
      && |ts| == |ws|
      && (forall v :: v in st.cache ==> v in fin.cache && fin.cache[v] == st.cache[v])
      && (forall i :: 0 <= i < |ws| ==> ws[i] in fin.cache && ts[i] == Thread(fin.cache[ws[i]]))
    decreases |ws|
  {
    if ws != [] {
      var (t, st1) := Assign(st, ws[0]);
      AssignKeepsValid(st, ws[0]);
      AssignAllCached(st1, ws[1..]);
      var (fin, ts) := AssignAll(st1, ws[1..]);
      assert AssignAll(st, ws) == (fin, [t] + ts);
      forall i | 0 <= i < |ws|
        ensures ws[i] in fin.cache && ([t] + ts)[i] == Thread(fin.cache[ws[i]])
      {
        if i > 0 {
          assert ws[i] == ws[1..][i - 1];
        }
      }
    }
  }

  /** Two calls get the same identity exactly when they come from the same worker. */
  lemma {:induction false} AssignAllDistinct<W>(st: IdState<W>, ws: seq<W>, i: nat, j: nat)
    requires IdsValid(st)
    requires i < |ws| && j < |ws|
    ensures |AssignAll(st, ws).1| == |ws|
    ensures AssignAll(st, ws).1[i] == AssignAll(st, ws).1[j] <==> ws[i] == ws[j]
  {
    AssignAllCached(st, ws);
  }

  /** The static counter together with every thread's cached identity cell. */
  class ThreadIds<W(==)> {
    var next: nat
    var cache: map<W, nat>

    ghost function State(): IdState<W>
      reads this
    {
      IdState(next, cache)
    }

    ghost predicate Valid()
      reads this
    {
      IdsValid(State())
    }

    /** The counter starts at zero and no thread has an identity yet. */
    constructor ()
      ensures Valid() && State() == IdState(0, map[])
    {
      next := 0;
      cache := map[];
    }

    /** `Thread::current` called by worker `w`. */
    method Current(w: W) returns (t: Thread)
      requires Valid()
      modifies this
      ensures Valid()
      ensures (t, State()) == Assign(old(State()), w)
    {
      if w in cache {
        t := Thread(cache[w]);
      } else {
        var id := next;
        next := next + 1;
        cache := cache[w := id];
        t := Thread(id);
      }
    }
  }
}
