/**
  Argument slots shared by both placeholder engines, and the abstraction of
  Ruby's `Proc#curry` that those engines drive.

  A slot is either the `PLACEHOLDER` singleton (`Hole`) or a concrete value.
  The placeholder is compared by identity in the source, so no concrete value
  is ever taken for it.
 */
module Slots {
  import opened Ruby

  datatype Slot<V> = Hole | Val(v: V)

  predicate NoHoles<V>(s: seq<Slot<V>>) {
    forall i :: 0 <= i < |s| ==> s[i].Val?
  }

  predicate HasHole<V>(s: seq<Slot<V>>) {
    exists i :: 0 <= i < |s| && s[i].Hole?
  }

  /** Position of the first placeholder at or after `from`: Ruby's
      `args[from..-1].to_a.index(PLACEHOLDER)` shifted back by `from`. */
  function FirstHoleFrom<V>(s: seq<Slot<V>>, from: nat): (r: Option<nat>)
    ensures r.Some? ==> from <= r.value < |s| && s[r.value].Hole?
    ensures r.Some? ==> forall i :: from <= i < r.value ==> s[i].Val?
    ensures r.None? ==> forall i :: from <= i < |s| ==> s[i].Val?
    decreases |s| - from
  {
    if from >= |s| then None
    else if s[from].Hole? then Some(from)
    else FirstHoleFrom(s, from + 1)
  }

  /** The concrete values of a slot list without placeholders. */
  function Payloads<V>(s: seq<Slot<V>>): (r: seq<V>)
    requires NoHoles(s)
    ensures |r| == |s|
    ensures forall i :: 0 <= i < |s| ==> s[i] == Val(r[i])
  {
    if s == [] then [] else [s[0].v] + Payloads(s[1..])
  }

  /** Wraps concrete values as slots; unwrapping gives the values back. */
  function AsSlots<V>(vs: seq<V>): (r: seq<Slot<V>>)
    ensures |r| == |vs| && forall i :: 0 <= i < |vs| ==> r[i] == Val(vs[i])
    ensures NoHoles(r) && Payloads(r) == vs
  {
    seq(|vs|, i requires 0 <= i < |vs| => Val(vs[i]))
  }

  /** The other half of the round trip: a slot list without placeholders is
      the wrapping of its own values. */
  lemma AsSlotsOfPayloads<V>(s: seq<Slot<V>>)
    requires NoHoles(s)
    ensures AsSlots(Payloads(s)) == s
  {
    var r := AsSlots(Payloads(s));
    assert |r| == |s|;
    forall i | 0 <= i < |s| ensures r[i] == s[i] {
      assert r == AsSlots(Payloads(s));
    }
  }

  /** The multiset of concrete values held by a slot list. */
  function ValueBag<V>(s: seq<Slot<V>>): multiset<V>
  {
    if s == [] then multiset{}
    else (if s[0].Val? then multiset{s[0].v} else multiset{}) + ValueBag(s[1..])
  }

  lemma {:induction false} ValueBagAppend<V>(s: seq<Slot<V>>, t: seq<Slot<V>>)
    ensures ValueBag(s + t) == ValueBag(s) + ValueBag(t)
    decreases |s|
  {
    if s != [] {
      assert (s + t)[1..] == s[1..] + t;
      ValueBagAppend(s[1..], t);
    } else {
      assert s + t == t;
    }
  }

  /** Overwriting a placeholder with `a` adds exactly `a`'s value, if any. */
  lemma ValueBagFillHole<V>(s: seq<Slot<V>>, j: nat, a: Slot<V>)
    requires j < |s| && s[j].Hole?
    ensures ValueBag(s[j := a]) == ValueBag(s) + ValueBag([a])
  {
    assert s == s[..j] + [s[j]] + s[j + 1..];
    assert s[j := a] == s[..j] + [a] + s[j + 1..];
    ValueBagAppend(s[..j] + [s[j]], s[j + 1..]);
    ValueBagAppend(s[..j], [s[j]]);
    ValueBagAppend(s[..j] + [a], s[j + 1..]);
    ValueBagAppend(s[..j], [a]);
  }

  /**
    A lambda after `Proc#curry`: it takes `arity` arguments, has received
    `bound` so far, and returns `body` of all of them once it has them all.
    `isCallable` says which results respond to `call` (a lambda, a Method).
   */
  datatype Callee<!V> = Callee(arity: nat, body: seq<V> -> V, isCallable: V -> bool, bound: seq<V>)
  {
    /** A curried lambda is never past its arity. */
    predicate Open() {
      |bound| <= arity
    }
  }

  /** What calling a curried lambda gives. */
  datatype Invoked<!V> = Saturated(value: V) | Waiting(callee: Callee<V>) | TooMany

  /** Calling a curried lambda with `values`: too many arguments raise
      ArgumentError, exactly enough run the body, fewer give another curried
      lambda holding the extra arguments. */
  function Invoke<V>(c: Callee<V>, values: seq<V>): (r: Invoked<V>)
    requires c.Open()
    ensures r.TooMany? <==> |c.bound| + |values| > c.arity
    ensures r.Saturated? <==> |c.bound| + |values| == c.arity
    ensures r.Saturated? ==> r.value == c.body(c.bound + values)
    ensures r.Waiting? ==> r.callee == c.(bound := c.bound + values) && |r.callee.bound| < c.arity
  {
    if |c.bound| + |values| > c.arity then TooMany
    else if |c.bound| + |values| == c.arity then Saturated(c.body(c.bound + values))
    else Waiting(c.(bound := c.bound + values))
  }

  /** A curried lambda may be fed in two calls: calling the lambda that the
      first call leaves behaves as one call with all the arguments. */
  lemma InvokeInTwoCalls<V>(c: Callee<V>, xs: seq<V>, ys: seq<V>)
    requires c.Open() && Invoke(c, xs).Waiting?
    ensures Invoke(Invoke(c, xs).callee, ys) == Invoke(c, xs + ys)
  {
    assert c.bound + xs + ys == c.bound + (xs + ys);
  }

  /**
    What a call through either placeholder engine gives back:
    - `Done(v)`: the function ran and returned a value that is not callable;
    - `Pending(c, slots)`: a closure that keeps the curried lambda `c` and
      the slot list `slots` for the next call;
    - `Rewrapped(v, slots)`: the function ran and returned a callable `v`,
      which is wrapped again together with `slots`;
    - `Raised(e)`: an exception escaped.
   */
  datatype Outcome<!V> =
    | Done(value: V)
    | Pending(callee: Callee<V>, slots: seq<Slot<V>>)
    | Rewrapped(value: V, slots: seq<Slot<V>>)
    | Raised(error: Error)
}
