# obv: a verified model of an observable cell

The `obv` crate is a single generic type, `Obv<T>`. It holds one value and a
vector of boxed subscriber callbacks. It has three operations:

- `get` returns a reference to the value;
- `subscribe` pushes a callback onto the end of the vector;
- `set` stores a new value and then calls every callback, in vector order,
  with a reference to the value just stored.

The model is functional. `ObvCell.Obv<T, C>` is an immutable record of the
value and a `seq<C>` of subscribers. A subscriber is an opaque identity of
type `C`: the callback's body is not modelled. `ObvCell.Set` returns the
updated cell together with a notification trace, the sequence of
`Delivery(subscriber, value)` calls the loop makes. `ObvCell.SetLoop` is the
same operation written as the source's `for` loop, and it is proved equal to
`Set`. The `History` module runs a cell through a sequence of `get`, `set`
and `subscribe` calls and collects every delivery and every value read. This
lets properties that span several calls be stated, such as "a read sees the
latest write" and "reads change nothing".

Files:

- `obv.dfy` (module `ObvCell`): the cell, its three operations, and the
  scenarios of the crate's unit tests.
- `history.dfy` (module `History`): call sequences over the cell and
  properties of whole runs.

`obv.rs` has no `unsubscribe` and no subscription identifiers, so neither is
modelled. `set` iterates a `Vec`, and the two-subscriber test (obv.rs:64-81)
checks that the first-registered callback is called first, so the model
states registration order.

## Model

| member | source | states |
|---|---|---|
| ObvCell.New | obv.rs:30 | models the literal `Obv{value: 3, subscribers: Vec::new()}` the tests build cells with: a fresh cell reads back its initial value and has no subscribers |
| ObvCell.Get | obv.rs:14-16 | returns the held value; the value read together with the subscriber list is the whole cell, so reading loses nothing and can change nothing |
| ObvCell.Subscribe | obv.rs:17-19 | the new callback goes after all existing subscribers, which keep their positions; the value is unchanged |
| ObvCell.Fanout | obv.rs:10-12 | the loop makes one call per subscriber, and call i goes to subscriber i with the given value |
| ObvCell.Set | obv.rs:8-13 | afterwards `get` returns the new value; the subscriber list is untouched; the trace has exactly one entry per subscriber, in list order, and every entry carries the new value |
| ObvCell.SetLoop | obv.rs:8-13 | the store-then-loop rendering of `set` produces exactly the cell and trace that `Set` specifies |
| ObvCell.FanoutReachesEachOnce | obv.rs:10-12 | the sequence of callbacks called is exactly the subscriber sequence: each registration is called once, in order |
| ObvCell.SetNotifiesEachSubscriberOnce | obv.rs:8-13 | the callbacks `set` calls are exactly the registered subscribers, in order, so their multisets are also equal |
| ObvCell.SubscribeThenSet | obv.rs:8-19 | subscribing `f` before a `set` adds exactly one call, to `f` with the new value, after all the other calls |
| ObvCell.SetOverwrites | obv.rs:8-13 | after a first `set`, the second `set(v2)` gives the same cell and makes the same calls as `set(v2)` on the original cell |
| ObvCell.GetReturnsInitialValue | obv.rs:29-32 | a cell built with 3 and no subscribers reads 3 |
| ObvCell.SetUpdatesValue | obv.rs:43-48 | setting 2 on a cell built with 3 and no subscribers makes it read 2, and no callback is called |
| ObvCell.SetCallsSubscriber | obv.rs:51-61 | with one subscriber, `set(2)` calls it exactly once, with 2 |
| ObvCell.SetCallsSubscribersInOrder | obv.rs:64-81 | with two subscribers, `set(2)` calls the first-registered one and then the second, each with 2 |
| History.GetHasNoEffect | obv.rs:14-16 | a `get` appended to any call sequence yields the value the cell holds at that point and changes neither the final cell nor the callback calls |
| History.ReadsAreInvisible | obv.rs:14-16 | removing every `get` from any call sequence changes neither the final cell nor the callback calls |
| History.ExecuteAppend | obv.rs:7-20 | the cell's operations compose sequentially: running two call sequences one after the other gives the same cell, calls and reads as running their concatenation |
| History.SubscribersOnlyGrow | obv.rs:17-19 | over any call sequence the subscriber list only grows, by exactly the registered callbacks in registration order; `set` and `get` never change it |
| History.ValueStableWithoutSet | obv.rs:14-19 | in a call sequence without `set`, the value never changes, every read returns it, and no callback is called |
| History.ReadAfterWrite | obv.rs:8-16 | after `set(v)`, every read returns `v` until the next `set`, and the `set` itself made exactly the calls `Set` specifies |
| History.SetCallsCurrentSubscribers | obv.rs:8-13 | a `set` after any call sequence adds, after all earlier calls, exactly one call per subscriber registered at that moment, in order, with the new value; a callback subscribed after it is not called by it |
| History.OnlySubscribersAreCalled | obv.rs:10-12 | every callback called during a call sequence was registered when some `set` of the sequence ran; no call goes to a callback that was never subscribed before a `set` |
| History.CallsCarrySetValues | obv.rs:9-11 | every callback call carries a value that some `set` of the sequence stored, never one the cell held only before the sequence |

## Left out

- Callback bodies and their effects: the tests' closures send on `std::sync::mpsc` channels and assert on the value they receive. A callback is modelled as an opaque identity, and a call as a trace entry.
- Callback panics: the code defines no behaviour for them, so `set` is modelled as always running to completion.
- Reentrancy: `set` holds `&mut self` while it calls the `Fn(&T)` callbacks, so a callback cannot call back into the cell. Threads are not modelled either, because the type is used from one thread.
- The `obv_value_value_is_updateable` test (obv.rs:35-40) writes the `value` field directly, outside the cell's interface. It is plain field assignment and is not modelled.
- Borrowing: `get` returns `&T` and the callbacks receive `&T`. The model passes values. That matches the source only when nobody can change the stored value through such a reference, which depends on `T`; see the next line.
- ObvCell.Set, History.ValueStableWithoutSet, History.ReadAfterWrite: when `T` has interior mutability (`Cell`, `RefCell`, atomics), anyone holding a `&T` can change the stored value without calling `set`: a callback during `set`, or the caller of `get`. Later subscribers and reads would then see the changed value. The model assumes `T` has no interior mutability, as the tests' `i32` does.
- Unsubscription and keyed subscriber identifiers: they do not exist in `obv.rs`.
