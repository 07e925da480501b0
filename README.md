# Sharded span registry — a sequential Dafny model

This project models the sharded span registry of `tracing-subscriber`
(`tracing-subscriber/src/registry/sharded.rs`): a store of per-span data
split into one shard per thread. A thread finds its shard through a table
keyed by its thread identity. Each shard maps span ids to slots, and a slot
either holds the span's data (`Present`) or records the thread that stole it
(`Stolen`).

The model keeps the file's sequential behaviour and drops its locks:

- `threads.dfy` — `Thread::current`: a counter plus a per-worker cache
  (class `ThreadIds`), specified by the function `Assign`, with lemmas on
  stability and distinctness of identities.
- `slots.dfy` — `Slot` and `Slot::get_mut`.
- `poison.dfy` — `handle_poison`.
- `shard_table.dfy` — the table as a value (`Table = map<Thread, map<Id, Slot<T>>>`),
  the closures that `insert` and `with_span` hand to `with_shard`
  (`InsertStep`, `SpanStep`), `try_steal` on a shard (`StealStep`), and the
  lemmas about them, including runs of many operations.
- `registry.dfy` — classes `Shard`, `Shards` and `Registry`. Their fields are
  updated in place the way the source does. Each method is proved against
  the value-level functions of `shard_table.dfy`.
- `wrappers.dfy` — `Option` and `Result<T, ()>`.

The calling thread is an explicit worker value `w`, and the identity state
`ids` is passed in. Whether the caller is panicking and whether the table
lock is poisoned are boolean inputs. A closure `FnOnce(&mut HashMap<Id, T>) -> I`
is a pure function from the shard's map to the new map and a result. The
user's `FnOnce(&mut T) -> I` is a function from the data to the new data and
a result.

The draft's types disagree with one another; the model resolves them as
follows:
- The source's shard field is declared as `HashMap<Id, T>`, but it is read as
  a map of slots and `insert` stores a bare `T`. The model stores `Slot<T>`,
  and `insert` stores `Present(span)`.
- `try_steal` is written to return the replaced slot directly. The model
  returns `Some(previous)`, matching its declared return type.
- The source leaves `get_span` as `unimplemented!()` and the steal fallback
  in `with_span` as a `// TODO`; neither is modelled.
- `with_span` on a thread without a shard takes the slow path too. It creates
  that thread's empty shard and then reports absence. The model keeps this.

## Model

| member | source | states |
|---|---|---|
| `Poison.HandlePoison` | tracing-subscriber/src/registry/sharded.rs:42-48 | a non-panicking caller must not pass an `Err` (the draft aborts with "registry poisoned"); the result holds a value exactly when the input is `Ok`, and then the same value, whether or not the caller is panicking |
| `Slots.Slot.GetMut` | tracing-subscriber/src/registry/sharded.rs:162-168 | yields data exactly for a `Present` slot, and that slot's data; a `Stolen` slot yields nothing |
| `Threads.ThreadIds.constructor` | tracing-subscriber/src/registry/sharded.rs:144-147 | the counter starts at 0 and no worker has a cached identity |
| `Threads.ThreadIds.Current` | tracing-subscriber/src/registry/sharded.rs:142-159 | returns the cached identity, or takes the counter value, caches it and advances the counter; keeps cached identities below the counter and pairwise distinct |
| `Threads.AssignCounter` | tracing-subscriber/src/registry/sharded.rs:148-158 | after a call the worker has a cached identity equal to the one returned; a first call returns the old counter and advances it by exactly one; a later call changes nothing |
| `Threads.AssignStable` | tracing-subscriber/src/registry/sharded.rs:148-152 | a second call from the same worker returns the same identity and leaves the state as it was |
| `Threads.AssignKeepsValid` | tracing-subscriber/src/registry/sharded.rs:153-154 | a call keeps identities distinct and below the counter, never lowers the counter and never changes an identity already handed out |
| `Threads.AssignAllCached` | tracing-subscriber/src/registry/sharded.rs:142-159 | after any sequence of calls every call's identity is its worker's final cached identity, earlier identities are unchanged and the state stays valid |
| `Threads.AssignAllDistinct` | tracing-subscriber/src/registry/sharded.rs:142-159 | in any sequence of calls two calls get the same identity if and only if they come from the same worker |
| `Sharded.Shard.constructor` | tracing-subscriber/src/registry/sharded.rs:121-125 | a new shard has no spans |
| `ShardTable.Found` | tracing-subscriber/src/registry/sharded.rs:131 | a span map yields data under an id exactly when the id is stored as `Present`, and then that data |
| `Sharded.Shard.Span` | tracing-subscriber/src/registry/sharded.rs:127-133 | yields data exactly when the id is stored as `Present`, and then that data; the same as the span-map lookup `Found` that `with_span` and `Lookup` use |
| `Sharded.Shard.TrySteal` | tracing-subscriber/src/registry/sharded.rs:135-139 | an absent id yields `None` and changes neither the shard nor the identities; a present id is marked `Stolen` by the caller's identity (asked for only then) and its previous slot is returned |
| `Sharded.Shards.constructor` | tracing-subscriber/src/registry/sharded.rs:97 | the table starts with no shards |
| `Sharded.Shards.WithShard` | tracing-subscriber/src/registry/sharded.rs:103-112 | runs the closure only when the thread has a shard and the closure is still there; then it takes the closure, applies it once to that shard and returns its result; otherwise it hands the closure back and changes nothing; shard objects stay distinct |
| `Sharded.Shards.NewShardFor` | tracing-subscriber/src/registry/sharded.rs:114-117 | the thread gets a fresh empty shard and every other thread's shard object and contents stay as they were |
| `Sharded.Registry.constructor` | tracing-subscriber/src/registry/sharded.rs:95-99 | a new registry has an empty table |
| `Sharded.Registry.WithShard` | tracing-subscriber/src/registry/sharded.rs:51-65 | identifies the caller, then fails without running the closure when the lock is poisoned; otherwise it runs the closure once on the caller's shard, creating that shard only if it had none; no existing shard is removed or replaced, and the caller's is the only one that can be added |
| `Sharded.Registry.WithSpan` | tracing-subscriber/src/registry/sharded.rs:71-82 | a panicking caller on a poisoned registry gets `None` and nothing changes; otherwise the new table and result are `WithSpanSpec` of the old table for the caller's identity |
| `Sharded.Registry.Insert` | tracing-subscriber/src/registry/sharded.rs:84-93 | returns the registry itself; unless poisoned (allowed only while panicking), the new table is `InsertSpec` of the old one for the caller's identity |
| `ShardTable.InsertThenWithSpan` | tracing-subscriber/src/registry/sharded.rs:71-87 | after inserting `v` under `id`, the same thread finds `v`, and `with_span(id, f)` returns `Some` of `f`'s result on `v` and stores `f`'s new data |
| `ShardTable.WithSpanPresent` | tracing-subscriber/src/registry/sharded.rs:71-78 | `with_span` returns a value if and only if the caller's slot is `Present`; then it is `f`'s result on that data; otherwise the only possible change is the caller's new empty shard |
| `ShardTable.WithSpanReadOnly` | tracing-subscriber/src/registry/sharded.rs:71-78 | a `with_span` whose closure leaves the data unchanged, from a thread with a shard, leaves the table unchanged |
| `ShardTable.BasicallyWorks` | tracing-subscriber/src/registry/sharded.rs:175-190 | ids 1 and 2 inserted by one thread read back as 1 and 2; after inserting 3, all three read back as 1, 2 and 3 |
| `Sharded.InsertTwoReadBack` | tracing-subscriber/src/registry/sharded.rs:177-182 | a new registry and identity state, one worker inserting 1 under id 1 and 2 under id 2, then reading id 1 back, gets `Some(1)` |
| `ShardTable.ApplyFrame` | tracing-subscriber/src/registry/sharded.rs:84-87 | an insert or `with_span` on `(thread, id)` leaves every other slot of every shard unchanged, leaves other threads' shards unchanged and can add only the caller's shard |
| `ShardTable.RunShards` | tracing-subscriber/src/registry/sharded.rs:51-65 | after any run of operations the table's threads are the old ones plus the callers (one shard per caller however often it calls), and shards of threads that made no call are unchanged |
| `ShardTable.InsertsRetrievable` | tracing-subscriber/src/registry/sharded.rs:84-87 | after any run of inserts, each thread finds under each id the data it last inserted there, and the old data where it inserted nothing |
| `ShardTable.StealOutcome` | tracing-subscriber/src/registry/sharded.rs:135-139 | `try_steal` on an absent id returns `None` and leaves the shard unchanged; otherwise it returns the previous slot, marks the id `Stolen` by the thief so no lookup finds it present, keeps the same ids and changes no other entry |
| `ShardTable.StealHandsOverOnce` | tracing-subscriber/src/registry/sharded.rs:135-139 | after a successful steal, a second steal gets back only the first thief's `Stolen` marker, never the data |

## Left out

- Locking: `ShardedLock`, `ReentrantMutex`, `RefCell` borrows, lock ordering and guard lifetimes. They serve concurrency; the model is sequential, so every operation happens atomically.
- Thread-local storage and the atomic `fetch_add` become an explicit worker value and the `ThreadIds` object. Memory ordering is not modelled.
- Threads.ThreadIds.Current: the counter is an unbounded `nat`; the source's `usize` counter would wrap after 2^64 identities, which the model does not capture.
- `Registry::get_span` and the `Ref` guard: the source leaves `get_span` unimplemented, and `Ref` is only about borrow lifetimes across two locks.
- The steal fallback inside `with_span` is only a TODO in the source, so no retry or redirect is modelled. `try_steal` is modelled with its declared return type, and nothing in the source calls it.
- Panics and poisoning are inputs: `panicking` is the caller's state, and `poisoned` is the table lock's single poison flag, shared by its read and write sides. A non-panicking caller on a poisoned lock aborts in the source; here that is a precondition.
- `with_span`'s inner `expect("called twice!")` never fires: `Shards.WithShard` takes the outer closure once, so `SpanStep` applies the user's closure at most once.
- Closures are pure functions of the data they are given. Side effects on captured state other than that `&mut` argument are not modelled.
- `hashbrown::HashMap` and `tracing_core::span::Id` are a Dafny `map` and a type parameter with equality.
- ShardTable.BasicallyWorks: the whole of the source's test is stated over the table values that the `Registry` methods are proved against; `Sharded.InsertTwoReadBack` drives only its first inserts and read through a `Registry` object, because each further call on the object makes the proof markedly more expensive.
