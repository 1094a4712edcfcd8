/**
 A cell driven through a sequence of `get`, `set` and `subscribe` calls.
 Running a history collects every callback invocation and every value read,
 so properties that span several calls (reads see the latest write, reads
 change nothing, only registered subscribers are ever called) can be stated.
 */
module History {
  import opened ObvCell

  /** One call on the cell's public interface. */
  datatype Op<T, C> = GetOp | SetOp(newValue: T) | SubscribeOp(f: C)

  /** The cell after a history, the callback invocations, and the values read. */
  datatype Run<T, C> = Run(cell: Obv<T, C>, deliveries: seq<Delivery<T, C>>, observed: seq<T>)

  /** Performs one call. */
  function Apply<T, C>(o: Obv<T, C>, op: Op<T, C>): Run<T, C>
  {
    match op
    case GetOp => Run(o, [], [Get(o)])
    case SetOp(v) => var s := Set(o, v); Run(s.cell, s.trace, [])
    case SubscribeOp(f) => Run(Subscribe(o, f), [], [])
  }

  /** Performs the calls of `ops` in order, starting from `o`. */
  function Execute<T, C>(o: Obv<T, C>, ops: seq<Op<T, C>>): Run<T, C>
    decreases |ops|
  {
    if |ops| == 0 then Run(o, [], [])
    else
      var first := Apply(o, ops[0]);
      var rest := Execute(first.cell, ops[1..]);
      Run(rest.cell, first.deliveries + rest.deliveries, first.observed + rest.observed)
  }

  /** The history with every read removed. */
  function Mutations<T, C>(ops: seq<Op<T, C>>): (r: seq<Op<T, C>>)
    ensures |r| <= |ops|
    ensures forall i :: 0 <= i < |r| ==> !r[i].GetOp?
  {
    if |ops| == 0 then []
    else if ops[0].GetOp? then Mutations(ops[1..])
    else [ops[0]] + Mutations(ops[1..])
  }

  /** The callbacks a history registers, in the order it registers them. */
  function Subscriptions<T, C>(ops: seq<Op<T, C>>): seq<C>
  {
    if |ops| == 0 then []
    else if ops[0].SubscribeOp? then [ops[0].f] + Subscriptions(ops[1..])
    else Subscriptions(ops[1..])
  }

  /** Some `set` in the history stores `v`. */
  ghost predicate Stores<T, C>(ops: seq<Op<T, C>>, v: T)
  {
    exists i :: 0 <= i < |ops| && ops[i] == SetOp(v)
  }

  /** Running two histories back to back is running their concatenation. */
  lemma {:induction false} ExecuteAppend<T, C>(o: Obv<T, C>, a: seq<Op<T, C>>, b: seq<Op<T, C>>)
    ensures Execute(o, a + b).cell == Execute(Execute(o, a).cell, b).cell
    ensures Execute(o, a + b).deliveries == Execute(o, a).deliveries + Execute(Execute(o, a).cell, b).deliveries
    ensures Execute(o, a + b).observed == Execute(o, a).observed + Execute(Execute(o, a).cell, b).observed
    decreases |a|
  {
    if |a| != 0 {
      assert (a + b)[0] == a[0];
      assert (a + b)[1..] == a[1..] + b;
      ExecuteAppend(Apply(o, a[0]).cell, a[1..], b);
    } else {
      assert a + b == b;
    }
  }

  /**
   A `get` at any point of a history yields the value the cell holds there,
   and changes neither the cell nor the calls made.
   */
  lemma GetHasNoEffect<T, C>(o: Obv<T, C>, ops: seq<Op<T, C>>)
    ensures Execute(o, ops + [GetOp]).cell == Execute(o, ops).cell
    ensures Execute(o, ops + [GetOp]).deliveries == Execute(o, ops).deliveries
    ensures Execute(o, ops + [GetOp]).observed == Execute(o, ops).observed + [Get(Execute(o, ops).cell)]
  {
    ExecuteAppend(o, ops, [GetOp]);
    var after := Execute(o, ops).cell;
    var read: seq<Op<T, C>> := [GetOp];
    assert read[1..] == [];
    assert Execute(after, read) == Run(after, [], [Get(after)]);
  }

  /** Dropping every read from a history changes neither the final cell nor the calls made. */
  lemma {:induction false} ReadsAreInvisible<T, C>(o: Obv<T, C>, ops: seq<Op<T, C>>)
    ensures Execute(o, Mutations(ops)).cell == Execute(o, ops).cell
    ensures Execute(o, Mutations(ops)).deliveries == Execute(o, ops).deliveries
    decreases |ops|
  {
    if |ops| != 0 {
      ReadsAreInvisible(Apply(o, ops[0]).cell, ops[1..]);
      if !ops[0].GetOp? {
        var m := [ops[0]] + Mutations(ops[1..]);
        assert m[1..] == Mutations(ops[1..]);
      }
    }
  }

  /** The subscriber list only grows, by exactly the callbacks the history registers. */
  lemma {:induction false} SubscribersOnlyGrow<T, C>(o: Obv<T, C>, ops: seq<Op<T, C>>)
    ensures Execute(o, ops).cell.subscribers == o.subscribers + Subscriptions(ops)
    decreases |ops|
  {
    if |ops| != 0 {
      var next := Apply(o, ops[0]).cell;
      SubscribersOnlyGrow(next, ops[1..]);
      if ops[0].SubscribeOp? {
        assert o.subscribers + Subscriptions(ops)
            == (o.subscribers + [ops[0].f]) + Subscriptions(ops[1..]);
      }
    }
  }

  /** Without a `set`, the value stays put and every read returns it. */
  lemma {:induction false} ValueStableWithoutSet<T, C>(o: Obv<T, C>, ops: seq<Op<T, C>>)
    requires forall i :: 0 <= i < |ops| ==> !ops[i].SetOp?
    ensures Get(Execute(o, ops).cell) == Get(o)
    ensures forall k :: 0 <= k < |Execute(o, ops).observed| ==> Execute(o, ops).observed[k] == Get(o)
    ensures Execute(o, ops).deliveries == []
    decreases |ops|
  {
    if |ops| != 0 {
      var next := Apply(o, ops[0]).cell;
      ValueStableWithoutSet(next, ops[1..]);
    }
  }

  /**
   After `set(v)`, every read returns `v` until the next `set`, and the
   `set` itself called each subscriber of that moment with `v`.
   */
  lemma ReadAfterWrite<T, C>(o: Obv<T, C>, v: T, ops: seq<Op<T, C>>)
    requires forall i :: 0 <= i < |ops| ==> !ops[i].SetOp?
    ensures Get(Execute(o, [SetOp(v)] + ops).cell) == v
    ensures forall k :: 0 <= k < |Execute(o, [SetOp(v)] + ops).observed| ==> Execute(o, [SetOp(v)] + ops).observed[k] == v
    ensures Execute(o, [SetOp(v)] + ops).deliveries == Set(o, v).trace
  {
    var h := [SetOp(v)] + ops;
    assert h[0] == SetOp(v);
    assert h[1..] == ops;
    ValueStableWithoutSet(Set(o, v).cell, ops);
  }

  /**
   A `set` appended to any history calls exactly the subscribers registered at
   that point, in order, with the new value, after every earlier call; a
   callback subscribed later is not among them.
   */
  lemma SetCallsCurrentSubscribers<T, C>(o: Obv<T, C>, ops: seq<Op<T, C>>, v: T)
    ensures Execute(o, ops + [SetOp(v)]).deliveries
            == Execute(o, ops).deliveries + Set(Execute(o, ops).cell, v).trace
    ensures Execute(o, ops + [SetOp(v)]).cell == Set(Execute(o, ops).cell, v).cell
  {
    ExecuteAppend(o, ops, [SetOp(v)]);
    var before := Execute(o, ops).cell;
    var write: seq<Op<T, C>> := [SetOp(v)];
    assert write[1..] == [];
    assert Execute(before, write) == Run(Set(before, v).cell, Set(before, v).trace, []);
  }

  /** `c` was registered when some `set` of the history ran. */
  ghost predicate RegisteredAtSomeSet<T, C>(o: Obv<T, C>, ops: seq<Op<T, C>>, c: C)
  {
    exists j :: 0 <= j < |ops| && ops[j].SetOp? && c in Execute(o, ops[..j]).cell.subscribers
  }

  /**
   Every callback invocation in a history goes to a callback that was
   registered when some `set` of the history ran. Which `set` made which
   calls is fixed by `SetCallsCurrentSubscribers`.
   */
  lemma {:induction false} OnlySubscribersAreCalled<T, C>(o: Obv<T, C>, ops: seq<Op<T, C>>)
    ensures forall k :: 0 <= k < |Execute(o, ops).deliveries| ==>
              RegisteredAtSomeSet(o, ops, Execute(o, ops).deliveries[k].subscriber)
    decreases |ops|
  {
    if |ops| != 0 {
      var first := Apply(o, ops[0]);
      var rest := Execute(first.cell, ops[1..]);
      OnlySubscribersAreCalled(first.cell, ops[1..]);
      var all := first.deliveries + rest.deliveries;
      assert Execute(o, ops).deliveries == all;
      forall k | 0 <= k < |all|
        ensures RegisteredAtSomeSet(o, ops, all[k].subscriber)
      {
        if k < |first.deliveries| {
          assert all[k] == first.deliveries[k];
          assert ops[0].SetOp?;
          assert ops[..0] == [];
          assert all[k].subscriber in Execute(o, ops[..0]).cell.subscribers;
        } else {
          var c := all[k].subscriber;
          assert all[k] == rest.deliveries[k - |first.deliveries|];
          var j :| 0 <= j < |ops[1..]| && ops[1..][j].SetOp?
                   && c in Execute(first.cell, ops[1..][..j]).cell.subscribers;
          var pre := ops[..j + 1];
          assert pre[0] == ops[0];
          assert pre[1..] == ops[1..][..j];
          assert Execute(o, pre).cell == Execute(first.cell, ops[1..][..j]).cell;
        }
      }
    }
  }

  /** Every callback invocation carries a value some `set` of the history stored. */
  lemma {:induction false} CallsCarrySetValues<T, C>(o: Obv<T, C>, ops: seq<Op<T, C>>)
    ensures forall k :: 0 <= k < |Execute(o, ops).deliveries| ==>
              Stores(ops, Execute(o, ops).deliveries[k].value)
    decreases |ops|
  {
    if |ops| != 0 {
      var first := Apply(o, ops[0]);
      var rest := Execute(first.cell, ops[1..]);
      CallsCarrySetValues(first.cell, ops[1..]);
      var all := first.deliveries + rest.deliveries;
      assert Execute(o, ops).deliveries == all;
      forall k | 0 <= k < |all|
        ensures Stores(ops, all[k].value)
      {
        if k < |first.deliveries| {
          assert all[k] == first.deliveries[k];
          assert ops[0] == SetOp(all[k].value);
        } else {
          assert all[k] == rest.deliveries[k - |first.deliveries|];
          var i :| 0 <= i < |ops[1..]| && ops[1..][i] == SetOp(all[k].value);
          assert ops[i + 1] == SetOp(all[k].value);
        }
      }
    }
  }
}
