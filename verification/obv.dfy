/**
 An observable cell: one value plus an ordered list of subscriber callbacks.

 `set` overwrites the value and then calls every subscriber once, in
 registration order, with the new value; `get` reads the value; `subscribe`
 appends a callback. Callbacks are opaque: a subscriber is an identity of
 type `C`, and calling it is recorded as a `Delivery` in a notification trace.
 */
module ObvCell {

  /** The cell: the held value and the subscribers in registration order. */
  datatype Obv<T, C> = Obv(value: T, subscribers: seq<C>)

  /** One callback invocation: which subscriber was called, and with what value. */
  datatype Delivery<T, C> = Delivery(subscriber: C, value: T)

  /** What `set` leaves behind: the updated cell and the calls it made, in order. */
  datatype SetOutcome<T, C> = SetOutcome(cell: Obv<T, C>, trace: seq<Delivery<T, C>>)

  /** A fresh cell holding `initial` and no subscribers. */
  function New<T, C>(initial: T): (o: Obv<T, C>)
    ensures Get(o) == initial
    ensures |o.subscribers| == 0
  {
    Obv(initial, [])
  }

  /**
   The current value. Reading has no effect on the cell: the value read and
   the subscriber list together are the whole cell.
   */
  function Get<T, C>(o: Obv<T, C>): (r: T)
    ensures o == Obv(r, o.subscribers)
  {
    o.value
  }

  /** Registers `f` after every existing subscriber; the value is untouched. */
  function Subscribe<T, C>(o: Obv<T, C>, f: C): (r: Obv<T, C>)
    ensures Get(r) == Get(o)
    ensures |r.subscribers| == |o.subscribers| + 1
    ensures r.subscribers[..|o.subscribers|] == o.subscribers
    ensures r.subscribers[|o.subscribers|] == f
  {
    o.(subscribers := o.subscribers + [f])
  }

  /** Calls each subscriber of `subs`, front to back, with `v`. */
  function Fanout<T, C>(subs: seq<C>, v: T): (trace: seq<Delivery<T, C>>)
    ensures |trace| == |subs|
    ensures forall i :: 0 <= i < |subs| ==> trace[i] == Delivery(subs[i], v)
  {
    if |subs| == 0 then [] else [Delivery(subs[0], v)] + Fanout(subs[1..], v)
  }

  /** The subscribers named by a trace, in the order they were called. */
  function Recipients<T, C>(trace: seq<Delivery<T, C>>): seq<C>
  {
    if |trace| == 0 then [] else [trace[0].subscriber] + Recipients(trace[1..])
  }

  /**
   Overwrites the value, then notifies every subscriber of the updated cell,
   passing the value the cell now holds.
   */
  function Set<T, C>(o: Obv<T, C>, newValue: T): (r: SetOutcome<T, C>)
    ensures Get(r.cell) == newValue
    ensures r.cell.subscribers == o.subscribers
    ensures |r.trace| == |o.subscribers|
    ensures forall i :: 0 <= i < |r.trace| ==> r.trace[i].subscriber == o.subscribers[i]
    ensures forall i :: 0 <= i < |r.trace| ==> r.trace[i].value == newValue
  {
    var cell := o.(value := newValue);
    SetOutcome(cell, Fanout(cell.subscribers, cell.value))
  }

  /**
   `set` written as the loop over the subscriber vector: the value is stored
   first, then each subscriber in turn is handed the stored value.
   */
  method SetLoop<T, C>(o: Obv<T, C>, newValue: T) returns (cell: Obv<T, C>, trace: seq<Delivery<T, C>>)
    ensures SetOutcome(cell, trace) == Set(o, newValue)
  {
    cell := o.(value := newValue);
    trace := [];
    for i := 0 to |cell.subscribers|
      invariant |trace| == i
      invariant forall k :: 0 <= k < i ==> trace[k] == Delivery(cell.subscribers[k], cell.value)
    {
      trace := trace + [Delivery(cell.subscribers[i], cell.value)];
    }
  }

  /** Every registration is called exactly once per `set`, in registration order. */
  lemma {:induction false} FanoutReachesEachOnce<T, C>(subs: seq<C>, v: T)
    ensures Recipients(Fanout(subs, v)) == subs
    decreases |subs|
  {
    if |subs| != 0 {
      FanoutReachesEachOnce(subs[1..], v);
      assert subs == [subs[0]] + subs[1..];
    }
  }

  /** Corollary for `set`: the callers notified are exactly the subscriber list. */
  lemma SetNotifiesEachSubscriberOnce<T, C>(o: Obv<T, C>, v: T)
    ensures Recipients(Set(o, v).trace) == o.subscribers
    ensures multiset(Recipients(Set(o, v).trace)) == multiset(o.subscribers)
  {
    FanoutReachesEachOnce(o.subscribers, v);
  }

  /** Subscribing `f` adds exactly one call, to `f`, after all earlier calls. */
  lemma SubscribeThenSet<T, C>(o: Obv<T, C>, f: C, v: T)
    ensures Set(Subscribe(o, f), v).trace == Set(o, v).trace + [Delivery(f, v)]
  {
  }

  /** A second `set` wins: the first value leaves no trace on the cell or on the calls. */
  lemma SetOverwrites<T, C>(o: Obv<T, C>, v1: T, v2: T)
    ensures Set(Set(o, v1).cell, v2) == Set(o, v2)
  {
  }

  /** The cell built with 3 and no subscribers reads 3. */
  lemma GetReturnsInitialValue<C>()
    ensures Get(New<int, C>(3)) == 3
  {
  }

  /** Setting 2 on a cell without subscribers stores 2 and calls nobody. */
  lemma SetUpdatesValue<C>()
    ensures Get(Set(New<int, C>(3), 2).cell) == 2
    ensures Set(New<int, C>(3), 2).trace == []
  {
  }

  /** A single subscriber is called once, with 2. */
  lemma SetCallsSubscriber<C>(only: C)
    ensures Set(Subscribe(New<int, C>(3), only), 2).trace == [Delivery(only, 2)]
  {
  }

  /** Two subscribers are called with 2, the first-registered first. */
  lemma SetCallsSubscribersInOrder<C>(first: C, second: C)
    ensures Set(Subscribe(Subscribe(New<int, C>(3), first), second), 2).trace
            == [Delivery(first, 2), Delivery(second, 2)]
  {
  }
}
