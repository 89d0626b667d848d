/**
  The older placeholder engine of `FunRuby::Core` (lib/fun_ruby/core.rb):
  `_curried` and `_handler`.

  Its merge differs from the current engine's: a placeholder argument is
  always appended, a concrete argument fills the leftmost placeholder of the
  whole saved list, and the function is only called once no placeholder is
  left. Partial application without placeholders works because the curried
  lambda returns a `Proc` for too few arguments, which is wrapped again.
 */
module Core {
  import opened Ruby
  import opened Slots
  import Curry

  /** One step of the merge in `_handler` for the argument `arg`. */
  function MergeStep<V>(saved: seq<Slot<V>>, arg: Slot<V>): (r: seq<Slot<V>>)
    ensures arg.Hole? ==> r == saved + [arg]
    ensures arg.Val? && !HasHole(saved) ==> r == saved + [arg]
    ensures arg.Val? && HasHole(saved) ==>
      exists j :: 0 <= j < |saved| && saved[j].Hole? && (forall i :: 0 <= i < j ==> saved[i].Val?) && r == saved[j := arg]
  {
    if arg.Hole? then saved + [arg]
    else match FirstHoleFrom(saved, 0)
      case Some(j) => saved[j := arg]
      case None => saved + [arg]
  }

  /** The whole `each_with_object` over the new arguments, first to last. */
  function LegacyMerge<V>(saved: seq<Slot<V>>, newArgs: seq<Slot<V>>): (r: seq<Slot<V>>)
    ensures |saved| <= |r| <= |saved| + |newArgs|
    ensures NoHoles(newArgs) && !HasHole(saved) ==> |r| == |saved| + |newArgs|
    decreases |newArgs|
  {
    if newArgs == [] then saved
    else MergeStep(LegacyMerge(saved, newArgs[..|newArgs| - 1]), newArgs[|newArgs| - 1])
  }

  /** The merge loop of `_handler`, on a copy of the saved list. */
  method MergeArgs<V>(saved: seq<Slot<V>>, newArgs: seq<Slot<V>>) returns (merged: seq<Slot<V>>)
    ensures merged == LegacyMerge(saved, newArgs)
  {
    merged := saved;
    var k := 0;
    while k < |newArgs|
      invariant 0 <= k <= |newArgs|
      invariant merged == LegacyMerge(saved, newArgs[..k])
    {
      var arg := newArgs[k];
      assert newArgs[..k + 1][..k] == newArgs[..k];
      if arg.Hole? {
        merged := merged + [arg];
      } else {
        match FirstHoleFrom(merged, 0) {
          case Some(j) => merged := merged[j := arg];
          case None => merged := merged + [arg];
        }
      }
      k := k + 1;
    }
    assert newArgs[..k] == newArgs;
  }

  /** `_handler(function, saved_args, *new_args)`: the result of one call. */
  function Handle<V>(callee: Callee<V>, saved: seq<Slot<V>>, newArgs: seq<Slot<V>>): (r: Outcome<V>)
    requires callee.Open()
    ensures var m := LegacyMerge(saved, newArgs);
      && (HasHole(m) <==> r.Pending? && r.slots != [])
      && (HasHole(m) ==> r.callee == callee && r.slots == m)
      && (r.Raised? <==> !HasHole(m) && |callee.bound| + |m| > callee.arity)
      && (r.Raised? ==> r.error == ArgumentError)
      && (r.Done? || r.Rewrapped? ==>
            && |callee.bound| + |m| == callee.arity
            && r.value == callee.body(callee.bound + Payloads(m))
            && (r.Rewrapped? <==> callee.isCallable(r.value)))
      && (r.Rewrapped? ==> r.slots == [])
      && (r.Pending? && r.slots == [] ==>
            r.callee == callee.(bound := callee.bound + Payloads(m)) && |r.callee.bound| < callee.arity)
  {
    var merged := LegacyMerge(saved, newArgs);
    match FirstHoleFrom(merged, 0)
    case Some(_) => Pending(callee, merged)
    case None =>
      match Invoke(callee, Payloads(merged))
      case TooMany => Raised(ArgumentError)
      case Waiting(c) => Pending(c, [])
      case Saturated(v) => if callee.isCallable(v) then Rewrapped(v, []) else Done(v)
  }

  /** `_handler` as the source runs it: merge in a loop, then call the
      function unless a placeholder is left. */
  method Handler<V>(callee: Callee<V>, saved: seq<Slot<V>>, newArgs: seq<Slot<V>>) returns (r: Outcome<V>)
    requires callee.Open()
    ensures r == Handle(callee, saved, newArgs)
  {
    var merged := MergeArgs(saved, newArgs);
    if HasHole(merged) {
      return Pending(callee, merged);
    }
    var result := Invoke(callee, Payloads(merged));
    if result.TooMany? {
      r := Raised(ArgumentError);
    } else if result.Waiting? {
      r := Pending(result.callee, []);
    } else if callee.isCallable(result.value) {
      r := Rewrapped(result.value, []);
    } else {
      r := Done(result.value);
    }
  }

  /** `args.compact`: the initial arguments without the `nil` ones. */
  function Compact<V>(initial: seq<Slot<V>>, isNil: V -> bool): (r: seq<Slot<V>>)
    ensures |r| <= |initial|
    ensures forall i :: 0 <= i < |r| ==> r[i].Hole? || !isNil(r[i].v)
    ensures (forall i :: 0 <= i < |initial| ==> initial[i].Hole? || !isNil(initial[i].v)) ==> r == initial
    ensures |initial| == 1 ==> (r == [] <==> initial[0].Val? && isNil(initial[0].v))
    decreases |initial|
  {
    if initial == [] then []
    else
      var rest := Compact(initial[1..], isNil);
      if initial[0].Val? && isNil(initial[0].v) then rest else [initial[0]] + rest
  }

  /** `compact` keeps the order: compacting two lists one after the other
      is compacting their concatenation. */
  lemma {:induction false} CompactAppend<V>(a: seq<Slot<V>>, b: seq<Slot<V>>, isNil: V -> bool)
    ensures Compact(a + b, isNil) == Compact(a, isNil) + Compact(b, isNil)
    decreases |a|
  {
    if a == [] {
      assert a + b == b;
    } else {
      assert (a + b)[0] == a[0] && (a + b)[1..] == a[1..] + b;
      CompactAppend(a[1..], b, isNil);
    }
  }

  /** `_curried(name, *args)`: a closure over the curried function and the
      initial arguments without `nil`, so `nil` means "not supplied". */
  function Curried<V>(callee: Callee<V>, initial: seq<Slot<V>>, isNil: V -> bool): (r: Outcome<V>)
    ensures r.Pending? && r.callee == callee && r.slots == Compact(initial, isNil)
    ensures forall i :: 0 <= i < |r.slots| ==> r.slots[i].Hole? || !isNil(r.slots[i].v)
  {
    Pending(callee, Compact(initial, isNil))
  }

  /** Successive calls on a legacy closure; the chain stops at the first
      outcome that is not a closure over a curried lambda. */
  function LegacyChain<V>(o: Outcome<V>, calls: seq<seq<Slot<V>>>): Outcome<V>
    decreases |calls|
  {
    if calls == [] then o
    else match o
      case Pending(c, s) =>
        if c.Open() then LegacyChain(Handle(c, s, calls[0]), calls[1..]) else o
      case _ => o
  }

  /** Merging never loses or invents a concrete value. */
  lemma {:induction false} LegacyMergeKeepsValues<V>(saved: seq<Slot<V>>, newArgs: seq<Slot<V>>)
    ensures ValueBag(LegacyMerge(saved, newArgs)) == ValueBag(saved) + ValueBag(newArgs)
    decreases |newArgs|
  {
    if newArgs != [] {
      var init, last := newArgs[..|newArgs| - 1], newArgs[|newArgs| - 1];
      var m := LegacyMerge(saved, init);
      assert ValueBag(m) == ValueBag(saved) + ValueBag(init) by {
        LegacyMergeKeepsValues(saved, init);
      }
      assert ValueBag(LegacyMerge(saved, newArgs)) == ValueBag(m) + ValueBag([last]) by {
        assert LegacyMerge(saved, newArgs) == MergeStep(m, last);
        MergeStepKeepsValues(m, last);
      }
      assert ValueBag(newArgs) == ValueBag(init) + ValueBag([last]) by {
        assert newArgs == init + [last];
        ValueBagAppend(init, [last]);
      }
    }
  }

  /** One merge step adds the argument's value, if any, to the bag. */
  lemma MergeStepKeepsValues<V>(m: seq<Slot<V>>, last: Slot<V>)
    ensures ValueBag(MergeStep(m, last)) == ValueBag(m) + ValueBag([last])
  {
    match FirstHoleFrom(m, 0) {
      case Some(j) =>
        if last.Val? {
          assert MergeStep(m, last) == m[j := last];
          ValueBagFillHole(m, j, last);
        } else {
          assert MergeStep(m, last) == m + [last];
          ValueBagAppend(m, [last]);
        }
      case None =>
        assert MergeStep(m, last) == m + [last];
        ValueBagAppend(m, [last]);
    }
  }

  /** A placeholder argument adds a placeholder; a value takes one away when
      there is one. */
  function HoleCount<V>(s: seq<Slot<V>>): nat
    decreases |s|
  {
    if s == [] then 0 else (if s[|s| - 1].Hole? then 1 else 0) + HoleCount(s[..|s| - 1])
  }

  lemma {:induction false} HoleCountAppend<V>(s: seq<Slot<V>>, x: Slot<V>)
    ensures HoleCount(s + [x]) == HoleCount(s) + (if x.Hole? then 1 else 0)
  {
    assert (s + [x])[..|s|] == s;
  }

  lemma {:induction false} HoleCountPositive<V>(s: seq<Slot<V>>, j: nat)
    requires j < |s| && s[j].Hole?
    ensures HoleCount(s) > 0
    decreases |s|
  {
    if j < |s| - 1 {
      HoleCountPositive(s[..|s| - 1], j);
    }
  }

  lemma {:induction false} HoleCountFill<V>(s: seq<Slot<V>>, j: nat, v: V)
    requires j < |s| && s[j].Hole?
    ensures HoleCount(s[j := Val(v)]) + 1 == HoleCount(s)
    decreases |s|
  {
    var t := s[j := Val(v)];
    if j == |s| - 1 {
      assert t[..|t| - 1] == s[..|s| - 1];
    } else {
      assert t[..|t| - 1] == s[..|s| - 1][j := Val(v)];
      HoleCountFill(s[..|s| - 1], j, v);
    }
  }

  lemma HoleCountOfStep<V>(saved: seq<Slot<V>>, arg: Slot<V>)
    ensures arg.Hole? ==> HoleCount(MergeStep(saved, arg)) == HoleCount(saved) + 1
    ensures arg.Val? && HoleCount(saved) > 0 ==> HoleCount(MergeStep(saved, arg)) + 1 == HoleCount(saved)
    ensures arg.Val? && HoleCount(saved) == 0 ==> HoleCount(MergeStep(saved, arg)) == 0
  {
    match FirstHoleFrom(saved, 0) {
      case Some(j) =>
        HoleCountPositive(saved, j);
        if arg.Val? {
          HoleCountFill(saved, j, arg.v);
        } else {
          HoleCountAppend(saved, arg);
        }
      case None =>
        HoleCountAppend(saved, arg);
        if HoleCount(saved) > 0 {
          HoleCountHasHole(saved);
        }
    }
  }

  lemma {:induction false} HoleCountHasHole<V>(s: seq<Slot<V>>)
    requires HoleCount(s) > 0
    ensures exists j :: 0 <= j < |s| && s[j].Hole?
    decreases |s|
  {
    if !s[|s| - 1].Hole? {
      HoleCountHasHole(s[..|s| - 1]);
      var j :| 0 <= j < |s| - 1 && s[..|s| - 1][j].Hole?;
      assert s[j].Hole?;
    }
  }

  /** Calls with concrete values only on a closure without slots: the two
      engines give the same outcome. */
  lemma EnginesAgreeOnConcreteCall<V>(c: Callee<V>, vs: seq<V>)
    requires c.Open()
    ensures Handle(c, [], AsSlots(vs)) == Curry.HandlingPlaceholders(c, [], AsSlots(vs))
  {
    var s := AsSlots(vs);
    assert LegacyMerge([], s) == s by {
      LegacyConcreteMerge([], vs);
      assert [] + s == s;
    }
    assert Curry.Merge([], s) == s by {
      Curry.ApplyArgsAtEnd([], s);
      assert [] + s == s;
    }
    assert Curry.Bisect(s) == (s, []) by {
      Curry.BisectUnique(s, s, []);
    }
    assert FirstHoleFrom(s, 0) == None;
  }

  /** Concrete values after a list without placeholders are appended. */
  lemma {:induction false} LegacyConcreteMerge<V>(saved: seq<Slot<V>>, vs: seq<V>)
    requires NoHoles(saved)
    ensures LegacyMerge(saved, AsSlots(vs)) == saved + AsSlots(vs)
    decreases |vs|
  {
    if vs != [] {
      var init := vs[..|vs| - 1];
      assert AsSlots(vs)[..|vs| - 1] == AsSlots(init);
      LegacyConcreteMerge(saved, init);
      assert NoHoles(saved + AsSlots(init));
      assert FirstHoleFrom(saved + AsSlots(init), 0) == None;
      assert saved + AsSlots(init) + [Val(vs[|vs| - 1])] == saved + AsSlots(vs);
    }
  }

  /** `(F._, F._, 3)` then `(F._, 2)`: the new placeholder is appended and 2
      takes the first placeholder, giving `[2, _, 3, _]` where the current
      engine gives `[_, 2, 3]`. */
  lemma PlaceholderAppendedNotReReserved<V>(b: V, c: V)
    ensures LegacyMerge([Hole, Hole, Val(c)], [Hole, Val(b)]) == [Val(b), Hole, Val(c), Hole]
    ensures Curry.Merge([Hole, Hole, Val(c)], [Hole, Val(b)]) == [Hole, Val(b), Val(c)]
  {
    var s: seq<Slot<V>> := [Hole, Hole, Val(c)];
    var args: seq<Slot<V>> := [Hole, Val(b)];
    var one: seq<Slot<V>> := [Hole];
    assert args[..1] == one && one[..0] == [];
    assert LegacyMerge(s, [Hole]) == MergeStep(LegacyMerge(s, []), Hole) == s + [Hole];
    assert FirstHoleFrom(s + [Hole], 0) == Some(0);
    assert (s + [Hole])[0 := Val(b)] == [Val(b), Hole, Val(c), Hole];
    Curry.PlaceholderReReservesHole(b, c);
  }

  /** In one call a placeholder followed by a value cancels out: the
      placeholder is appended and the value then fills it. */
  lemma HoleThenValueCancels<V>(v: V)
    ensures LegacyMerge([], [Hole, Val(v)]) == [Val(v)]
  {
    var x: seq<Slot<V>> := [Hole, Val(v)];
    var one: seq<Slot<V>> := [Hole];
    assert x[..1] == one && one[..0] == [];
    assert LegacyMerge([], one) == MergeStep([], Hole) == one;
    assert FirstHoleFrom(one, 0) == Some(0);
    assert LegacyMerge([], x) == MergeStep(one, Val(v)) == [Val(v)];
  }

  /** A call whose merge leaves one value and no placeholder, on a closure
      without slots, binds that value. */
  lemma LegacyBindsOne<V>(g: Callee<V>, x: seq<Slot<V>>, v: V)
    requires |g.bound| + 1 <= g.arity && LegacyMerge([], x) == [Val(v)]
    ensures |g.bound| + 1 < g.arity ==> Handle(g, [], x) == Pending(g.(bound := g.bound + [v]), [])
    ensures |g.bound| + 1 == g.arity && !g.isCallable(g.body(g.bound + [v])) ==> Handle(g, [], x) == Done(g.body(g.bound + [v]))
  {
    assert !HasHole([Val(v)]);
    assert Payloads([Val(v)]) == [v];
  }

  /** On the legacy engine the documented `curried.(F._, 2).(F._, 3).(1)`
      passes the arguments as `(2, 3, 1)`: in each of the first two calls the
      placeholder is appended and the value after it fills it at once. */
  lemma LegacyReordersDocumentedCall<V>(g: Callee<V>, a: V, b: V, c: V)
    requires g.arity == 3 && g.bound == [] && !g.isCallable(g.body([b, c, a]))
    ensures LegacyChain(Pending(g, []), [[Hole, Val(b)], [Hole, Val(c)], [Val(a)]]) == Done(g.body([b, c, a]))
  {
    var x: seq<Slot<V>> := [Hole, Val(b)];
    var y: seq<Slot<V>> := [Hole, Val(c)];
    var z: seq<Slot<V>> := [Val(a)];
    var g1 := g.(bound := [b]);
    var g2 := g.(bound := [b, c]);
    assert Handle(g, [], x) == Pending(g1, []) by {
      HoleThenValueCancels(b);
      LegacyBindsOne(g, x, b);
      assert g.bound + [b] == [b];
    }
    assert Handle(g1, [], y) == Pending(g2, []) by {
      HoleThenValueCancels(c);
      LegacyBindsOne(g1, y, c);
      assert g1.(bound := g1.bound + [c]) == g2;
    }
    assert Handle(g2, [], z) == Done(g.body([b, c, a])) by {
      assert z[..0] == [] && LegacyMerge<V>([], z) == MergeStep([], Val(a)) == z;
      LegacyBindsOne(g2, z, a);
      assert g2.bound + [a] == [b, c, a];
    }
    LegacyThreeSteps(Pending(g, []), Pending(g1, []), Pending(g2, []), Done(g.body([b, c, a])), x, y, z);
  }

  /** Runs a legacy chain of three calls one call at a time. */
  lemma LegacyThreeSteps<V>(o0: Outcome<V>, o1: Outcome<V>, o2: Outcome<V>, o3: Outcome<V>, x: seq<Slot<V>>, y: seq<Slot<V>>, z: seq<Slot<V>>)
    requires o0.Pending? && o0.callee.Open() && o1 == Handle(o0.callee, o0.slots, x)
    requires o1.Pending? && o1.callee.Open() && o2 == Handle(o1.callee, o1.slots, y)
    requires o2.Pending? && o2.callee.Open() && o3 == Handle(o2.callee, o2.slots, z)
    ensures LegacyChain(o0, [x, y, z]) == o3
  {
    assert LegacyChain(o0, [x, y, z]) == LegacyChain(o1, [y, z]) by {
      LegacyChainStep(o0, [x, y, z]);
      assert [x, y, z][1..] == [y, z];
    }
    assert LegacyChain(o1, [y, z]) == LegacyChain(o2, [z]) by {
      LegacyChainStep(o1, [y, z]);
      assert [y, z][1..] == [z];
    }
    LegacyChainStep(o2, [z]);
    assert [z][1..] == [];
  }

  /** One call of a legacy chain on a closure. */
  lemma LegacyChainStep<V>(o: Outcome<V>, calls: seq<seq<Slot<V>>>)
    requires o.Pending? && o.callee.Open() && calls != []
    ensures LegacyChain(o, calls) == LegacyChain(Handle(o.callee, o.slots, calls[0]), calls[1..])
  {
  }
}
