/**
  The placeholder curry engine of `FunRuby::Function` (lib/fun_ruby/function.rb):
  `curry`, `handling_placeholders`, `apply_arg`, `bisect_args`, `pipe` and
  `compose`.

  A partial application is a closure over a curried lambda and a slot list.
  A call folds its new arguments into the slot list with `apply_arg` and a
  moving `shift` cursor, splits the list at its first placeholder, feeds the
  concrete prefix to the curried lambda, and keeps only the placeholder
  suffix for the next call.
 */
module Curry {
  import opened Ruby
  import opened Slots

  /** `apply_arg`: the new argument goes into the first placeholder at or
      after `shift`, and the cursor moves just past it; with no such
      placeholder it is appended and the cursor moves to the new end. Only the
      written or appended slot changes. */
  function ApplyArg<V>(slots: seq<Slot<V>>, shift: nat, arg: Slot<V>): (r: (seq<Slot<V>>, nat))
    ensures |slots| <= |r.0| <= |slots| + 1
    ensures 1 <= r.1 <= |r.0|
    ensures |r.0| == |slots| ==>
      && shift < r.1
      && slots[r.1 - 1].Hole?
      && r.0 == slots[r.1 - 1 := arg]
      && (forall i :: shift <= i < r.1 - 1 ==> slots[i].Val?)
    ensures |r.0| == |slots| + 1 ==>
      && r.0 == slots + [arg]
      && r.1 == |r.0|
      && (forall i :: shift <= i < |slots| ==> slots[i].Val?)
  {
    match FirstHoleFrom(slots, shift)
    case Some(j) => (slots[j := arg], j + 1)
    case None => (slots + [arg], |slots| + 1)
  }

  /** The `reduce` of `handling_placeholders`: `apply_arg` over every new
      argument, threading the slot list and the cursor. */
  function ApplyArgs<V>(slots: seq<Slot<V>>, shift: nat, args: seq<Slot<V>>): (r: (seq<Slot<V>>, nat))
    ensures |slots| <= |r.0| <= |slots| + |args|
    ensures args != [] ==> 1 <= r.1 <= |r.0|
    decreases |args|
  {
    if args == [] then (slots, shift)
    else
      var step := ApplyArg(slots, shift, args[0]);
      ApplyArgs(step.0, step.1, args[1..])
  }

  /** The slot list after a call with `newArgs`; the cursor starts at 0.
      Every concrete value, old or new, is still there. */
  function Merge<V>(processed: seq<Slot<V>>, newArgs: seq<Slot<V>>): (r: seq<Slot<V>>)
    ensures ValueBag(r) == ValueBag(processed) + ValueBag(newArgs)
    ensures |processed| <= |r| <= |processed| + |newArgs|
  {
    ApplyArgsKeepsValues(processed, 0, newArgs);
    ApplyArgs(processed, 0, newArgs).0
  }

  /** Merging never loses or invents a concrete value: a value only ever
      replaces a placeholder or is appended. The list grows by at most one
      slot per argument. */
  lemma {:induction false} ApplyArgsKeepsValues<V>(slots: seq<Slot<V>>, shift: nat, args: seq<Slot<V>>)
    ensures ValueBag(ApplyArgs(slots, shift, args).0) == ValueBag(slots) + ValueBag(args)
    decreases |args|
  {
    if args == [] {
    } else {
      var step := ApplyArg(slots, shift, args[0]);
      if |step.0| == |slots| {
        ValueBagFillHole(slots, step.1 - 1, args[0]);
      } else {
        ValueBagAppend(slots, [args[0]]);
      }
      ApplyArgsKeepsValues(step.0, step.1, args[1..]);
      assert args == [args[0]] + args[1..];
      ValueBagAppend([args[0]], args[1..]);
    }
  }

  /** `bisect_args`: the concrete prefix before the first placeholder, and
      the rest from that placeholder on. */
  function Bisect<V>(args: seq<Slot<V>>): (r: (seq<Slot<V>>, seq<Slot<V>>))
    ensures r.0 + r.1 == args
    ensures NoHoles(r.0)
    ensures r.1 == [] || r.1[0].Hole?
  {
    match FirstHoleFrom(args, 0)
    case None => (args, [])
    case Some(i) => (args[..i], args[i..])
  }

  /** The split is the only one with these properties. */
  lemma BisectUnique<V>(args: seq<Slot<V>>, values: seq<Slot<V>>, rest: seq<Slot<V>>)
    requires values + rest == args && NoHoles(values) && (rest == [] || rest[0].Hole?)
    ensures Bisect(args) == (values, rest)
  {
    var r := Bisect(args);
    assert forall i :: 0 <= i < |values| ==> args[i].Val?;
    assert forall i :: 0 <= i < |r.0| ==> args[i].Val?;
    assert rest != [] ==> args[|values|].Hole?;
    assert r.1 != [] ==> args[|r.0|].Hole?;
    assert |r.0| == |values|;
    assert r.0 == args[..|r.0|] && values == args[..|values|];
  }

  /** `handling_placeholders(function, processed_args, *new_args)`: merge,
      split at the first placeholder, call the curried lambda with the
      concrete prefix; a result that is not callable is returned as it is,
      a callable one is wrapped together with the placeholder suffix. */
  function HandlingPlaceholders<V>(callee: Callee<V>, processed: seq<Slot<V>>, newArgs: seq<Slot<V>>): (r: Outcome<V>)
    requires callee.Open()
    ensures r.Raised? ==> r.error == ArgumentError
    ensures var split := Bisect(Merge(processed, newArgs));
      && (r.Raised? <==> |callee.bound| + |split.0| > callee.arity)
      && (r.Done? || r.Rewrapped? ==>
            |callee.bound| + |split.0| == callee.arity && r.value == callee.body(callee.bound + Payloads(split.0)))
      && (r.Pending? || r.Rewrapped? ==> r.slots == split.1)
    ensures r.Done? ==> !callee.isCallable(r.value)
    ensures r.Rewrapped? ==> callee.isCallable(r.value)
    ensures r.Pending? || r.Rewrapped? ==> r.slots == [] || r.slots[0].Hole?
    ensures r.Pending? ==>
      && r.callee.Open()
      && r.callee == callee.(bound := r.callee.bound)
      && |callee.bound| <= |r.callee.bound| < callee.arity
      && Merge(processed, newArgs) == AsSlots(r.callee.bound[|callee.bound|..]) + r.slots
  {
    var split := Bisect(Merge(processed, newArgs));
    var values := Payloads(split.0);
    match Invoke(callee, values)
    case TooMany => Raised(ArgumentError)
    case Waiting(c) =>
      assert AsSlots(c.bound[|callee.bound|..]) == split.0 by {
        assert c.bound[|callee.bound|..] == values;
      }
      Pending(c, split.1)
    case Saturated(v) => if callee.isCallable(v) then Rewrapped(v, split.1) else Done(v)
  }

  /** `curry(function)`: a fresh curried lambda with an empty slot list. A
      lambda of arity 0 runs at once; otherwise a closure is returned. */
  function Curry<V>(callee: Callee<V>): (r: Outcome<V>)
    requires callee.bound == []
    ensures callee.arity > 0 ==> r == Pending(callee, [])
    ensures callee.arity == 0 ==> r.Done? || r.Rewrapped?
  {
    HandlingPlaceholders(callee, [], [])
  }

  /** Successive calls on a partial application. The chain stops at the first
      outcome that is not a closure over a curried lambda. */
  function CallChain<V>(o: Outcome<V>, calls: seq<seq<Slot<V>>>): Outcome<V>
    decreases |calls|
  {
    if calls == [] then o
    else match o
      case Pending(c, s) =>
        if c.Open() then CallChain(HandlingPlaceholders(c, s, calls[0]), calls[1..]) else o
      case _ => o
  }

  /** A call without arguments gives back an equivalent closure. */
  lemma CallWithoutArgumentsKeepsClosure<V>(c: Callee<V>, slots: seq<Slot<V>>)
    requires |c.bound| < c.arity && (slots == [] || slots[0].Hole?)
    ensures HandlingPlaceholders(c, slots, []) == Pending(c, slots)
  {
    BisectUnique(slots, [], slots);
    assert c.bound + [] == c.bound;
  }

  /** With the cursor at the end every new argument, placeholder or not, is
      appended: a first call keeps its arguments as they are. */
  lemma {:induction false} ApplyArgsAtEnd<V>(slots: seq<Slot<V>>, args: seq<Slot<V>>)
    ensures ApplyArgs(slots, |slots|, args).0 == slots + args
    decreases |args|
  {
    if args != [] {
      var step := ApplyArg(slots, |slots|, args[0]);
      assert step == (slots + [args[0]], |slots| + 1);
      ApplyArgsAtEnd(slots + [args[0]], args[1..]);
      assert slots + [args[0]] + args[1..] == slots + args;
    }
  }

  /** One call with concrete values only, on a closure without placeholders. */
  lemma ConcreteCall<V>(c: Callee<V>, vs: seq<V>)
    requires c.Open()
    ensures |c.bound| + |vs| < c.arity ==> HandlingPlaceholders(c, [], AsSlots(vs)) == Pending(c.(bound := c.bound + vs), [])
    ensures |c.bound| + |vs| == c.arity && !c.isCallable(c.body(c.bound + vs)) ==>
      HandlingPlaceholders(c, [], AsSlots(vs)) == Done(c.body(c.bound + vs))
    ensures |c.bound| + |vs| > c.arity ==> HandlingPlaceholders(c, [], AsSlots(vs)) == Raised(ArgumentError)
  {
    ApplyArgsAtEnd([], AsSlots(vs));
    assert Merge([], AsSlots(vs)) == AsSlots(vs);
    BisectUnique(AsSlots(vs), AsSlots(vs), []);
    assert Payloads(AsSlots(vs)) == vs;
  }

  /** `curried.(1, 2, 3, F._)` on a 3-ary function: the values fill the
      arity, so the body runs; the trailing placeholder is kept only as the
      slot list of a rewrapped callable result. */
  lemma TrailingPlaceholderDropped<V>(g: Callee<V>, a: V, b: V, c: V)
    requires g.arity == 3 && g.bound == []
    ensures var v := g.body([a, b, c]);
      CallChain(Curry(g), [[Val(a), Val(b), Val(c), Hole]]) == (if g.isCallable(v) then Rewrapped(v, [Hole]) else Done(v))
  {
    var args: seq<Slot<V>> := [Val(a), Val(b), Val(c), Hole];
    var values: seq<Slot<V>> := [Val(a), Val(b), Val(c)];
    ApplyArgsAtEnd([], args);
    assert Merge([], args) == args;
    assert values + [Hole] == args;
    BisectUnique(args, values, [Hole]);
    assert Payloads(values) == [a, b, c];
    assert g.bound + [a, b, c] == [a, b, c];
    assert Curry(g) == Pending(g, []);
    assert CallChain(Curry(g), [args]) == HandlingPlaceholders(g, [], args) by {
      ChainLast(Pending(g, []), args);
    }
  }

  function Flatten<V>(calls: seq<seq<V>>): seq<V>
    decreases |calls|
  {
    if calls == [] then [] else calls[0] + Flatten(calls[1..])
  }

  function ConcreteCalls<V>(calls: seq<seq<V>>): (r: seq<seq<Slot<V>>>)
    ensures |r| == |calls|
    decreases |calls|
  {
    if calls == [] then [] else [AsSlots(calls[0])] + ConcreteCalls(calls[1..])
  }

  /** Without placeholders, splitting the arguments over several calls
      (`curried.(1).(2).(3)`) gives what one direct call gives
      (`curried.(1, 2, 3)`). */
  lemma {:induction false} ConcreteCallsAgreeWithDirectCall<V>(c: Callee<V>, calls: seq<seq<V>>)
    requires c.Open() && calls != []
    requires |c.bound| + |Flatten(calls)| == c.arity
    requires !c.isCallable(c.body(c.bound + Flatten(calls)))
    ensures CallChain(Pending(c, []), ConcreteCalls(calls)) == Done(c.body(c.bound + Flatten(calls)))
    decreases |calls|
  {
    var first := calls[0];
    assert Flatten(calls) == first + Flatten(calls[1..]);
    assert c.bound + Flatten(calls) == (c.bound + first) + Flatten(calls[1..]);
    ConcreteCall(c, first);
    assert ConcreteCalls(calls)[1..] == ConcreteCalls(calls[1..]);
    if |c.bound| + |first| == c.arity {
      assert Flatten(calls[1..]) == [];
      assert c.bound + first == c.bound + Flatten(calls);
      var next := HandlingPlaceholders(c, [], AsSlots(first));
      assert next == Done(c.body(c.bound + Flatten(calls)));
      if |calls| > 1 {
        assert CallChain(Pending(c, []), ConcreteCalls(calls)) == CallChain(next, ConcreteCalls(calls[1..]));
      }
    } else {
      var c' := c.(bound := c.bound + first);
      assert calls[1..] != [];
      ConcreteCallsAgreeWithDirectCall(c', calls[1..]);
    }
  }

  /** A placeholder passed as a new argument takes the next free placeholder
      instead of being appended: `(F._, F._, 3)` then `(F._, 2)` leaves
      `[_, 2, 3]`. */
  lemma PlaceholderReReservesHole<V>(b: V, c: V)
    ensures Merge([Hole, Hole, Val(c)], [Hole, Val(b)]) == [Hole, Val(b), Val(c)]
  {
    var s: seq<Slot<V>> := [Hole, Hole, Val(c)];
    var args: seq<Slot<V>> := [Hole, Val(b)];
    assert FirstHoleFrom(s, 0) == Some(0);
    var r1 := ApplyArg(s, 0, Hole);
    assert r1.0 == s && r1.1 == 1;
    assert FirstHoleFrom(s, 1) == Some(1);
    var r2 := ApplyArg(s, 1, Val(b));
    assert r2.0 == [Hole, Val(b), Val(c)] && r2.1 == 2;
    assert args[1..] == [Val(b)] && args[1..][1..] == [];
    assert ApplyArgs(s, 0, args) == ApplyArgs(r1.0, r1.1, [Val(b)]);
    assert ApplyArgs(r1.0, r1.1, [Val(b)]) == ApplyArgs(r2.0, r2.1, []);
  }

  /** The documented call patterns of a 3-ary `build_ary` all agree with the
      direct call. */
  lemma DocumentedOrderings<V>(g: Callee<V>, a: V, b: V, c: V)
    requires g.arity == 3 && g.bound == [] && !g.isCallable(g.body([a, b, c]))
    ensures CallChain(Curry(g), [[Val(a), Val(b), Val(c)]]) == Done(g.body([a, b, c]))
    ensures CallChain(Curry(g), [[Val(a)], [Val(b)], [Val(c)]]) == Done(g.body([a, b, c]))
    ensures CallChain(Curry(g), [[Hole, Val(b)], [Hole, Val(c)], [Val(a)]]) == Done(g.body([a, b, c]))
    ensures CallChain(Curry(g), [[Hole, Val(b), Hole], [Val(a)], [Val(c)]]) == Done(g.body([a, b, c]))
    ensures CallChain(Curry(g), [[Hole, Hole, Val(c)], [Hole, Val(b)], [Val(a)]]) == Done(g.body([a, b, c]))
    ensures CallChain(Curry(g), [[Hole, Val(b), Hole], [Val(a), Val(c)]]) == Done(g.body([a, b, c]))
  {
    OneCallOfThree(g, a, b, c);
    ThreeCallsOfOne(g, a, b, c);
    HolesFirstThenValue(g, a, b, c);
    HoleKeptForLastCall(g, a, b, c);
    HoleReReservedThenValue(g, a, b, c);
    TwoHolesOneCall(g, a, b, c);
  }

  /** `build_ary.(1, 2, 3)` */
  lemma OneCallOfThree<V>(g: Callee<V>, a: V, b: V, c: V)
    requires g.arity == 3 && g.bound == [] && !g.isCallable(g.body([a, b, c]))
    ensures CallChain(Curry(g), [[Val(a), Val(b), Val(c)]]) == Done(g.body([a, b, c]))
  {
    var calls := [[a, b, c]];
    assert calls[1..] == [];
    assert Flatten(calls) == [a, b, c] + Flatten<V>([]);
    assert g.bound + Flatten(calls) == [a, b, c];
    assert AsSlots([a, b, c]) == [Val(a), Val(b), Val(c)];
    assert ConcreteCalls(calls) == [[Val(a), Val(b), Val(c)]];
    ConcreteCallsAgreeWithDirectCall(g, calls);
  }

  /** `build_ary.(1).(2).(3)` */
  lemma ThreeCallsOfOne<V>(g: Callee<V>, a: V, b: V, c: V)
    requires g.arity == 3 && g.bound == [] && !g.isCallable(g.body([a, b, c]))
    ensures CallChain(Curry(g), [[Val(a)], [Val(b)], [Val(c)]]) == Done(g.body([a, b, c]))
  {
    var calls := [[a], [b], [c]];
    assert calls[1..] == [[b], [c]] && calls[1..][1..] == [[c]] && calls[1..][1..][1..] == [];
    assert Flatten([[c]]) == [c] + Flatten<V>([]) == [c];
    assert Flatten([[b], [c]]) == [b] + Flatten([[c]]) == [b, c];
    assert Flatten(calls) == [a] + Flatten([[b], [c]]) == [a, b, c];
    assert g.bound + Flatten(calls) == [a, b, c];
    assert AsSlots([a]) == [Val(a)] && AsSlots([b]) == [Val(b)] && AsSlots([c]) == [Val(c)];
    assert ConcreteCalls([[c]]) == [[Val(c)]] + ConcreteCalls<V>([]) == [[Val(c)]];
    assert ConcreteCalls([[b], [c]]) == [[Val(b)]] + ConcreteCalls([[c]]) == [[Val(b)], [Val(c)]];
    assert ConcreteCalls(calls) == [[Val(a)]] + ConcreteCalls([[b], [c]]) == [[Val(a)], [Val(b)], [Val(c)]];
    ConcreteCallsAgreeWithDirectCall(g, calls);
  }

  /** One call of a chain on a closure. */
  lemma ChainStep<V>(o: Outcome<V>, calls: seq<seq<Slot<V>>>)
    requires o.Pending? && o.callee.Open() && calls != []
    ensures CallChain(o, calls) == CallChain(HandlingPlaceholders(o.callee, o.slots, calls[0]), calls[1..])
  {
  }

  /** Runs a chain of two calls one call at a time. */
  lemma TwoStepChain<V>(o0: Outcome<V>, o1: Outcome<V>, o2: Outcome<V>, x: seq<Slot<V>>, y: seq<Slot<V>>)
    requires o0.Pending? && o0.callee.Open() && o1 == HandlingPlaceholders(o0.callee, o0.slots, x)
    requires o1.Pending? && o1.callee.Open() && o2 == HandlingPlaceholders(o1.callee, o1.slots, y)
    ensures CallChain(o0, [x, y]) == o2
  {
    assert CallChain(o0, [x, y]) == CallChain(o1, [y]) by {
      ChainStep(o0, [x, y]);
      assert [x, y][1..] == [y];
    }
    ChainLast(o1, y);
  }

  /** A chain of one call is that call. */
  lemma ChainLast<V>(o: Outcome<V>, x: seq<Slot<V>>)
    requires o.Pending? && o.callee.Open()
    ensures CallChain(o, [x]) == HandlingPlaceholders(o.callee, o.slots, x)
  {
    ChainStep(o, [x]);
    assert [x][1..] == [];
  }

  /** Runs a chain of three calls one call at a time. */
  lemma ThreeStepChain<V>(o0: Outcome<V>, o1: Outcome<V>, o2: Outcome<V>, o3: Outcome<V>, x: seq<Slot<V>>, y: seq<Slot<V>>, z: seq<Slot<V>>)
    requires o0.Pending? && o0.callee.Open() && o1 == HandlingPlaceholders(o0.callee, o0.slots, x)
    requires o1.Pending? && o1.callee.Open() && o2 == HandlingPlaceholders(o1.callee, o1.slots, y)
    requires o2.Pending? && o2.callee.Open() && o3 == HandlingPlaceholders(o2.callee, o2.slots, z)
    ensures CallChain(o0, [x, y, z]) == o3
  {
    ChainStep(o0, [x, y, z]);
    assert [x, y, z][1..] == [y, z];
    TwoStepChain(o1, o2, o3, y, z);
  }

  /** The last call `.(1)` fills the leading placeholder of `[_, 2, 3]`. */
  lemma ValueIntoLeadingHole<V>(g: Callee<V>, a: V, b: V, c: V)
    requires g.arity == 3 && g.bound == [] && !g.isCallable(g.body([a, b, c]))
    ensures HandlingPlaceholders(g, [Hole, Val(b), Val(c)], [Val(a)]) == Done(g.body([a, b, c]))
  {
    var full: seq<Slot<V>> := [Val(a), Val(b), Val(c)];
    assert Payloads(full) == [a, b, c];
    assert g.bound + [a, b, c] == [a, b, c];
    var s: seq<Slot<V>> := [Hole, Val(b), Val(c)];
    assert FirstHoleFrom(s, 0) == Some(0);
    OneArgFillsFirstHole(s, 0, Val(a));
    assert s[0 := Val(a)] == full;
    SaturatingCall(g, s, [Val(a)], full);
  }

  /** `build_ary.(F._, 2).(F._, 3).(1)` */
  lemma HolesFirstThenValue<V>(g: Callee<V>, a: V, b: V, c: V)
    requires g.arity == 3 && g.bound == [] && !g.isCallable(g.body([a, b, c]))
    ensures CallChain(Curry(g), [[Hole, Val(b)], [Hole, Val(c)], [Val(a)]]) == Done(g.body([a, b, c]))
  {
    FirstCall(g, [Hole, Val(b)]);
    SecondHoleGetsValue(b, c);
    SlotsOnlyCall(g, [Hole, Val(b)], [Hole, Val(c)], [Hole, Val(b), Val(c)]);
    ValueIntoLeadingHole(g, a, b, c);
    ThreeStepChain(Curry(g), Pending(g, [Hole, Val(b)]), Pending(g, [Hole, Val(b), Val(c)]), Done(g.body([a, b, c])),
      [Hole, Val(b)], [Hole, Val(c)], [Val(a)]);
  }

  /** `build_ary.(F._, 2, F._).(1).(3)` */
  lemma HoleKeptForLastCall<V>(g: Callee<V>, a: V, b: V, c: V)
    requires g.arity == 3 && g.bound == [] && !g.isCallable(g.body([a, b, c]))
    ensures CallChain(Curry(g), [[Hole, Val(b), Hole], [Val(a)], [Val(c)]]) == Done(g.body([a, b, c]))
  {
    var o0, o1 := Curry(g), Pending(g, [Hole, Val(b), Hole]);
    assert o0 == Pending(g, []);
    FirstCall(g, [Hole, Val(b), Hole]);
    var g2 := ValueThenHole(g, a, b);
    var o2 := Pending(g2, [Hole]);
    assert g2.bound + [c] == [a, b, c] && g2.body == g.body && g2.isCallable == g.isCallable;
    LastHoleFilled(g2, c);
    var o3 := Done(g.body([a, b, c]));
    assert o3 == HandlingPlaceholders(g2, [Hole], [Val(c)]);
    ThreeStepChain(o0, o1, o2, o3, [Hole, Val(b), Hole], [Val(a)], [Val(c)]);
  }

  /** A value for the one remaining placeholder completes the call. */
  lemma LastHoleFilled<V>(g: Callee<V>, c: V)
    requires g.Open() && |g.bound| + 1 == g.arity && !g.isCallable(g.body(g.bound + [c]))
    ensures HandlingPlaceholders(g, [Hole], [Val(c)]) == Done(g.body(g.bound + [c]))
  {
    assert FirstHoleFrom<V>([Hole], 0) == Some(0);
    OneArgFillsFirstHole<V>([Hole], 0, Val(c));
    assert [Hole][0 := Val(c)] == [Val(c)];
    assert Payloads([Val(c)]) == [c];
    SaturatingCall(g, [Hole], [Val(c)], [Val(c)]);
  }

  /** `build_ary.(F._, F._, 3).(F._, 2).(1)` */
  lemma HoleReReservedThenValue<V>(g: Callee<V>, a: V, b: V, c: V)
    requires g.arity == 3 && g.bound == [] && !g.isCallable(g.body([a, b, c]))
    ensures CallChain(Curry(g), [[Hole, Hole, Val(c)], [Hole, Val(b)], [Val(a)]]) == Done(g.body([a, b, c]))
  {
    FirstCall(g, [Hole, Hole, Val(c)]);
    PlaceholderReReservesHole(b, c);
    SlotsOnlyCall(g, [Hole, Hole, Val(c)], [Hole, Val(b)], [Hole, Val(b), Val(c)]);
    ValueIntoLeadingHole(g, a, b, c);
    ThreeStepChain(Curry(g), Pending(g, [Hole, Hole, Val(c)]), Pending(g, [Hole, Val(b), Val(c)]), Done(g.body([a, b, c])),
      [Hole, Hole, Val(c)], [Hole, Val(b)], [Val(a)]);
  }

  /** `build_ary.(F._, 2, F._).(1, 3)` */
  lemma TwoHolesOneCall<V>(g: Callee<V>, a: V, b: V, c: V)
    requires g.arity == 3 && g.bound == [] && !g.isCallable(g.body([a, b, c]))
    ensures CallChain(Curry(g), [[Hole, Val(b), Hole], [Val(a), Val(c)]]) == Done(g.body([a, b, c]))
  {
    var full: seq<Slot<V>> := [Val(a), Val(b), Val(c)];
    assert Payloads(full) == [a, b, c];
    assert g.bound + [a, b, c] == [a, b, c];
    FirstCall(g, [Hole, Val(b), Hole]);
    TwoValuesFillTwoHoles(a, b, c);
    SaturatingCall(g, [Hole, Val(b), Hole], [Val(a), Val(c)], full);
    TwoStepChain(Curry(g), Pending(g, [Hole, Val(b), Hole]), Done(g.body([a, b, c])),
      [Hole, Val(b), Hole], [Val(a), Val(c)]);
  }

  /** A first call keeps its arguments; one starting with a placeholder
      hands nothing to the curried lambda. */
  lemma FirstCall<V>(g: Callee<V>, args: seq<Slot<V>>)
    requires g.bound == [] && g.arity > 0 && |args| > 0 && args[0].Hole?
    ensures HandlingPlaceholders(g, [], args) == Pending(g, args)
  {
    ApplyArgsAtEnd([], args);
    assert [] + args == args;
    SlotsOnlyCall(g, [], args, args);
  }

  /** A single new argument goes into the first placeholder. */
  lemma OneArgFillsFirstHole<V>(s: seq<Slot<V>>, j: nat, x: Slot<V>)
    requires FirstHoleFrom(s, 0) == Some(j)
    ensures Merge(s, [x]) == s[j := x]
  {
    var r := ApplyArg(s, 0, x);
    assert r.0 == s[j := x];
    assert [x][1..] == [];
    assert ApplyArgs(s, 0, [x]) == ApplyArgs(r.0, r.1, []);
  }

  /** `(F._, 2)` then `(F._, 3)`: the new placeholder takes the old one and
      the value goes after 2. */
  lemma SecondHoleGetsValue<V>(b: V, c: V)
    ensures Merge([Hole, Val(b)], [Hole, Val(c)]) == [Hole, Val(b), Val(c)]
  {
    var s: seq<Slot<V>> := [Hole, Val(b)];
    var args: seq<Slot<V>> := [Hole, Val(c)];
    assert FirstHoleFrom(s, 0) == Some(0);
    var r1 := ApplyArg(s, 0, Hole);
    assert r1.0 == s && r1.1 == 1;
    assert FirstHoleFrom(s, 1) == None;
    var r2 := ApplyArg(s, 1, Val(c));
    assert r2.0 == [Hole, Val(b), Val(c)];
    assert args[1..] == [Val(c)] && args[1..][1..] == [];
    assert ApplyArgs(s, 0, args) == ApplyArgs(r1.0, r1.1, [Val(c)]);
    assert ApplyArgs(r1.0, r1.1, [Val(c)]) == ApplyArgs(r2.0, r2.1, []);
  }

  /** `(F._, 2, F._)` then `(1, 3)`: both placeholders are filled in order. */
  lemma TwoValuesFillTwoHoles<V>(a: V, b: V, c: V)
    ensures Merge([Hole, Val(b), Hole], [Val(a), Val(c)]) == [Val(a), Val(b), Val(c)]
  {
    var s: seq<Slot<V>> := [Hole, Val(b), Hole];
    var args: seq<Slot<V>> := [Val(a), Val(c)];
    assert FirstHoleFrom(s, 0) == Some(0);
    var r1 := ApplyArg(s, 0, Val(a));
    assert r1.0 == [Val(a), Val(b), Hole] && r1.1 == 1;
    assert FirstHoleFrom(r1.0, 1) == Some(2);
    var r2 := ApplyArg(r1.0, 1, Val(c));
    assert r2.0 == [Val(a), Val(b), Val(c)];
    assert args[1..] == [Val(c)] && args[1..][1..] == [];
    assert ApplyArgs(s, 0, args) == ApplyArgs(r1.0, r1.1, [Val(c)]);
    assert ApplyArgs(r1.0, r1.1, [Val(c)]) == ApplyArgs(r2.0, r2.1, []);
  }

  /** `(F._, 2, F._)` then `(1)`: 1 and 2 reach the curried lambda and the
      trailing placeholder is kept. */
  lemma ValueThenHole<V>(g: Callee<V>, a: V, b: V) returns (g2: Callee<V>)
    requires g.arity == 3 && g.bound == []
    ensures g2 == g.(bound := [a, b]) && g2.Open()
    ensures HandlingPlaceholders(g, [Hole, Val(b), Hole], [Val(a)]) == Pending(g2, [Hole])
  {
    var s: seq<Slot<V>> := [Hole, Val(b), Hole];
    assert FirstHoleFrom(s, 0) == Some(0);
    OneArgFillsFirstHole(s, 0, Val(a));
    assert s[0 := Val(a)] == [Val(a), Val(b), Hole];
    BisectUnique([Val(a), Val(b), Hole], [Val(a), Val(b)], [Hole]);
    assert Payloads([Val(a), Val(b)]) == [a, b];
    g2 := g.(bound := [a, b]);
    assert g.bound + [a, b] == [a, b];
  }

  /** A call whose merged list is all values and completes the arity runs
      the function. */
  lemma SaturatingCall<V>(g: Callee<V>, processed: seq<Slot<V>>, args: seq<Slot<V>>, merged: seq<Slot<V>>)
    requires g.Open() && Merge(processed, args) == merged && NoHoles(merged)
    requires |g.bound| + |merged| == g.arity && !g.isCallable(g.body(g.bound + Payloads(merged)))
    ensures HandlingPlaceholders(g, processed, args) == Done(g.body(g.bound + Payloads(merged)))
  {
    BisectUnique(merged, merged, []);
  }

  /** A call whose merged list starts with a placeholder hands nothing to the
      curried lambda and keeps the whole list. */
  lemma SlotsOnlyCall<V>(g: Callee<V>, processed: seq<Slot<V>>, args: seq<Slot<V>>, merged: seq<Slot<V>>)
    requires g.bound == [] && g.arity > 0
    requires Merge(processed, args) == merged && |merged| > 0 && merged[0].Hole?
    ensures HandlingPlaceholders(g, processed, args) == Pending(g, merged)
  {
    BisectUnique(merged, [], merged);
    assert Payloads<V>([]) == [];
    assert g.bound + [] == g.bound;
  }

  /** Reference definition: feed `x` through `gs` from first to last. */
  function Thread<V>(gs: seq<seq<V> -> V>, x: V): V
    decreases |gs|
  {
    if gs == [] then x else Thread(gs[1..], gs[0]([x]))
  }

  lemma {:induction false} ThreadSnoc<V>(gs: seq<seq<V> -> V>, g: seq<V> -> V, x: V)
    ensures Thread(gs + [g], x) == g([Thread(gs, x)])
    decreases |gs|
  {
    if gs == [] {
      assert [g][1..] == [];
    } else {
      assert (gs + [g])[1..] == gs[1..] + [g];
      ThreadSnoc(gs[1..], g, gs[0]([x]));
    }
  }

  /** `_pipe(*fs).(*args)`: the `reduce` builds a lambda that passes all call
      arguments to the first function and each later function the previous
      result. The model gives the value of calling that lambda. */
  function Pipe<V>(fs: seq<seq<V> -> V>, args: seq<V>): (r: V)
    requires |fs| >= 1
    ensures r == Thread(fs[1..], fs[0](args))
    decreases |fs|
  {
    if |fs| == 1 then
      assert fs[1..] == [];
      fs[0](args)
    else
      var init, last := fs[..|fs| - 1], fs[|fs| - 1];
      assert fs[1..] == init[1..] + [last];
      ThreadSnoc(init[1..], last, fs[0](args));
      last([Pipe(init, args)])
  }

  /** `_compose(required, *functions)` is `_pipe(*functions, required)`. */
  function Compose<V>(fs: seq<seq<V> -> V>, args: seq<V>): (r: V)
    requires |fs| >= 1
    ensures |fs| == 1 ==> r == fs[0](args)
    ensures |fs| >= 2 ==> r == fs[0]([Pipe(fs[1..], args)])
  {
    var piped := fs[1..] + [fs[0]];
    assert |fs| >= 2 ==> piped[..|piped| - 1] == fs[1..];
    Pipe(piped, args)
  }

  /** For two functions `compose` is right to left: `compose(f, g).(x) ==
      f.(g.(x))`. */
  lemma ComposeTwoIsRightToLeft<V>(f: seq<V> -> V, g: seq<V> -> V, args: seq<V>)
    ensures Compose([f, g], args) == f([g(args)])
  {
    var fs := [f, g][1..] + [[f, g][0]];
    assert fs == [g, f];
    assert fs[..1] == [g];
    assert Pipe(fs, args) == f([Pipe([g], args)]);
  }

  /** `compose(f, g, h).(x)` is `f.(h.(g.(x)))`: the functions after the first
      run left to right. With `f` the identity, `g` adding 2 and `h`
      multiplying by 3, `compose(f, g, h).(1)` is 9 where right-to-left
      composition gives 5. */
  lemma ComposeThreeIsNotRightToLeft()
    ensures var f := (xs: seq<int>) => if xs == [] then 0 else xs[0];
            var g := (xs: seq<int>) => (if xs == [] then 0 else xs[0]) + 2;
            var h := (xs: seq<int>) => (if xs == [] then 0 else xs[0]) * 3;
            Compose([f, g, h], [1]) == 9 && f([g([h([1])])]) == 5
  {
    var f := (xs: seq<int>) => if xs == [] then 0 else xs[0];
    var g := (xs: seq<int>) => (if xs == [] then 0 else xs[0]) + 2;
    var h := (xs: seq<int>) => (if xs == [] then 0 else xs[0]) * 3;
    var fs := [f, g, h][1..] + [[f, g, h][0]];
    assert fs == [g, h, f];
    assert fs[1..] == [h, f] && [h, f][1..] == [f] && [f][1..] == [];
    assert g([1]) == 3 && h([3]) == 9 && f([9]) == 9;
    assert Thread(fs[1..], 3) == Thread([f], 9) == Thread([], 9);
  }

  /** Right-to-left composition as the documentation describes it:
      `compose(f1, ..., fn).(x) == f1.(...fn.(x))`. */
  function ComposeRightToLeft<V>(fs: seq<seq<V> -> V>, args: seq<V>): V
    requires |fs| >= 1
  {
    Pipe(Reversed(fs), args)
  }

  /** The first function runs last, on the result of composing the others. */
  lemma ComposeRightToLeftAppliesFirstLast<V>(fs: seq<seq<V> -> V>, args: seq<V>)
    requires |fs| >= 2
    ensures ComposeRightToLeft(fs, args) == fs[0]([ComposeRightToLeft(fs[1..], args)])
  {
    var r := Reversed(fs);
    assert r == Reversed(fs[1..]) + [fs[0]];
    assert r[..|r| - 1] == Reversed(fs[1..]);
  }

  /** On one or two functions the source's `compose` is right-to-left. */
  lemma ComposeAgreesUpToTwo<V>(fs: seq<seq<V> -> V>, args: seq<V>)
    requires 1 <= |fs| <= 2
    ensures Compose(fs, args) == ComposeRightToLeft(fs, args)
  {
    if |fs| == 1 {
      assert fs[1..] + [fs[0]] == fs == Reversed(fs);
    } else {
      assert fs == [fs[0], fs[1]];
      ComposeTwoIsRightToLeft(fs[0], fs[1], args);
      ComposeRightToLeftAppliesFirstLast(fs, args);
      assert Reversed(fs[1..]) == fs[1..] == [fs[1]];
    }
  }
}
