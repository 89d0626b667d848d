/**
  `FunRuby::Curried::Function` (lib/fun_ruby/curried/function.rb): a curried
  function that keeps its parameters by name.

  `arguments` is the ordered parameter table, name to value, where a missing
  value (`nil`) means "not assigned yet"; `curried` is what `Proc#curry` has
  made of the function so far; `rules` maps a parameter name to a check on
  its value. A rule that rejects a value raises `RuleFailure`. The object is
  never modified: `call` builds a new one.
 */
module CurriedFunction {
  import opened Ruby
  import opened Slots

  /** What the curried proc of a function is after some calls: still a
      curried lambda, or the value the function returned. */
  datatype Term<!V> = Lambda(c: Callee<V>) | Plain(v: V)

  /** One parameter entry of the ordered `arguments` table. */
  type Entry<V> = (string, Option<V>)

  datatype Function<!V> = Function(curried: Term<V>, arguments: seq<Entry<V>>, rules: map<string, V -> bool>)
  {
    /** The invariant `initialize` sets up and `call` keeps: one entry per
        parameter, and the curried lambda still waits for exactly the
        unassigned parameters. */
    predicate Valid() {
      && DistinctNames(arguments)
      && curried.Lambda?
      && |Unassigned(arguments)| + |curried.c.bound| == curried.c.arity
    }
  }

  /** What `call` gives: the curried proc's result as it is, a new function,
      or a raised error. */
  datatype Called<!V> = Returned(term: Term<V>) | Next(next: Function<V>) | Failed(error: Error)

  predicate DistinctNames<V>(arguments: seq<Entry<V>>) {
    forall i, j :: 0 <= i < j < |arguments| ==> arguments[i].0 != arguments[j].0
  }

  predicate Distinct(names: seq<string>) {
    forall i, j :: 0 <= i < j < |names| ==> names[i] != names[j]
  }

  /** `arguments[name]`: the value of the entry named `name`, `nil` when it is
      unassigned or absent. */
  function Get<V>(arguments: seq<Entry<V>>, name: string): Option<V>
    decreases |arguments|
  {
    if arguments == [] then None
    else if arguments[0].0 == name then arguments[0].1
    else Get(arguments[1..], name)
  }

  /** `unassigned_arguments.keys`: the names whose value is `nil`, in
      declaration order. */
  function Unassigned<V>(arguments: seq<Entry<V>>): (r: seq<string>)
    ensures |r| <= |arguments|
    ensures forall n :: n in r <==> exists i :: 0 <= i < |arguments| && arguments[i] == (n, None)
    decreases |arguments|
  {
    if arguments == [] then []
    else
      var rest := Unassigned(arguments[1..]);
      assert forall i :: 1 <= i < |arguments| ==> arguments[i] == arguments[1..][i - 1];
      if arguments[0].1.None? then [arguments[0].0] + rest else rest
  }

  /** `unassigned_arguments` keeps the table's order: the unassigned names of
      two tables one after the other are those of the first, then those of
      the second. */
  lemma {:induction false} UnassignedAppend<V>(a: seq<Entry<V>>, b: seq<Entry<V>>)
    ensures Unassigned(a + b) == Unassigned(a) + Unassigned(b)
    decreases |a|
  {
    if a == [] {
      assert a + b == b;
    } else {
      assert (a + b)[0] == a[0] && (a + b)[1..] == a[1..] + b;
      UnassignedAppend(a[1..], b);
    }
  }

  /** `initialize(function: f)`: every declared parameter maps to `nil`, and
      `curried` is `f.curry`. Ruby does not allow two parameters with one
      name. */
  function New<V>(names: seq<string>, body: seq<V> -> V, isCallable: V -> bool, rules: map<string, V -> bool>): (r: Function<V>)
    requires Distinct(names)
    ensures r.Valid()
    ensures |r.arguments| == |names| && forall i :: 0 <= i < |names| ==> r.arguments[i] == (names[i], None)
    ensures Unassigned(r.arguments) == names
    ensures r.curried == Lambda(Callee(|names|, body, isCallable, [])) && r.rules == rules
  {
    var arguments := seq(|names|, i requires 0 <= i < |names| => (names[i], None));
    AllUnassigned(names, arguments);
    Function(Lambda(Callee(|names|, body, isCallable, [])), arguments, rules)
  }

  lemma {:induction false} AllUnassigned<V>(names: seq<string>, arguments: seq<Entry<V>>)
    requires |arguments| == |names| && forall i :: 0 <= i < |names| ==> arguments[i] == (names[i], None)
    ensures Unassigned(arguments) == names
    decreases |names|
  {
    if names != [] {
      AllUnassigned(names[1..], arguments[1..]);
    }
  }

  /** `unassigned_arguments.keys.zip(args).to_h.compact`: each argument
      paired with the unassigned parameter at its position, without the
      `nil` ones. */
  function Bindings<V>(names: seq<string>, args: seq<Option<V>>): (r: seq<(string, V)>)
    requires |args| <= |names|
    ensures |r| <= |args|
    ensures (forall k :: 0 <= k < |args| ==> args[k].Some?) ==>
      |r| == |args| && forall k :: 0 <= k < |args| ==> r[k] == (names[k], args[k].value)
    ensures forall b :: b in r ==> b.0 in names[..|args|]
    decreases |args|
  {
    if args == [] then []
    else
      var rest := Bindings(names[1..], args[1..]);
      assert names[1..][..|args| - 1] == names[1..|args|];
      if args[0].Some? then [(names[0], args[0].value)] + rest else rest
  }

  /** The number of arguments that are not `nil`. */
  function SomeCount<V>(args: seq<Option<V>>): nat
    decreases |args|
  {
    if args == [] then 0 else (if args[0].Some? then 1 else 0) + SomeCount(args[1..])
  }

  /** `to_h` lookup: the value of the last pair named `name`. */
  function Lookup<V>(binds: seq<(string, V)>, name: string): Option<V>
    decreases |binds|
  {
    if binds == [] then None
    else match Lookup(binds[1..], name)
      case Some(v) => Some(v)
      case None => if binds[0].0 == name then Some(binds[0].1) else None
  }

  /** `arguments.merge(new_arguments)`: every key of `new_arguments` is an
      unassigned key of `arguments`, so the order of the table is kept and
      those entries take the new values. */
  function MergeArguments<V>(arguments: seq<Entry<V>>, binds: seq<(string, V)>): (r: seq<Entry<V>>)
    ensures |r| == |arguments|
    ensures forall i :: 0 <= i < |arguments| ==> r[i].0 == arguments[i].0
  {
    seq(|arguments|, i requires 0 <= i < |arguments| =>
      match Lookup(binds, arguments[i].0)
      case Some(v) => (arguments[i].0, Some(v))
      case None => arguments[i])
  }

  /** Every pair's value passes its parameter's rule, where there is one. */
  predicate Accepted<V>(binds: seq<(string, V)>, rules: map<string, V -> bool>) {
    forall i :: 0 <= i < |binds| ==> Accepts(rules, binds[i])
  }

  predicate Accepts<V>(rules: map<string, V -> bool>, b: (string, V)) {
    b.0 in rules ==> rules[b.0](b.1)
  }

  /** The `inject` of `call`: for each pair in order, the rule of its
      parameter runs first and then the curried proc is called with the
      value. */
  function Feed<V>(t: Term<V>, binds: seq<(string, V)>, rules: map<string, V -> bool>): (r: Result<Term<V>>)
    requires t.Lambda? ==> t.c.Open()
    ensures r.Ok? ==> Accepted(binds, rules)
    ensures r.Err? && r.error.RuleFailure? ==>
      exists i :: 0 <= i < |binds| && binds[i].0 == r.error.param && !Accepts(rules, binds[i])
    decreases |binds|
  {
    if binds == [] then Ok(t)
    else if !Accepts(rules, binds[0]) then Err(RuleFailure(binds[0].0))
    else match t
      case Plain(_) => Err(NoMethodError)
      case Lambda(c) =>
        match Invoke(c, [binds[0].1])
        case TooMany => Err(ArgumentError)
        case Saturated(x) => Feed(Plain(x), binds[1..], rules)
        case Waiting(c2) => Feed(Lambda(c2), binds[1..], rules)
  }

  /** `call(*args)`; `None` stands for a `nil` argument. */
  function Call<V>(f: Function<V>, args: seq<Option<V>>): (r: Called<V>)
    requires f.curried.Lambda? ==> f.curried.c.Open()
    ensures |Unassigned(f.arguments)| < |args| ==> r == Failed(ArgumentError)
    ensures r.Returned? ==> |args| == |Unassigned(f.arguments)|
    ensures r.Next? ==> |args| < |Unassigned(f.arguments)| && r.next.rules == f.rules
  {
    var un := Unassigned(f.arguments);
    if |un| < |args| then Failed(ArgumentError)
    else
      var binds := Bindings(un, args);
      match Feed(f.curried, binds, f.rules)
      case Err(e) => Failed(e)
      case Ok(t) =>
        if |un| == |args| then Returned(t)
        else Next(Function(t, MergeArguments(f.arguments, binds), f.rules))
  }

  /** The values of a list of pairs. */
  function Values<V>(binds: seq<(string, V)>): (r: seq<V>)
    ensures |r| == |binds| && forall i :: 0 <= i < |binds| ==> r[i] == binds[i].1
  {
    seq(|binds|, i requires 0 <= i < |binds| => binds[i].1)
  }

  /** What feeding accepted values to a curried lambda that can take them
      all leaves: the lambda itself for no values, the function's result
      once the last parameter is filled, else the lambda holding them. */
  function Fed<V>(c: Callee<V>, binds: seq<(string, V)>): Term<V>
  {
    if binds == [] then Lambda(c)
    else if |c.bound| + |binds| == c.arity then Plain(c.body(c.bound + Values(binds)))
    else Lambda(c.(bound := c.bound + Values(binds)))
  }

  /** With room for every value, feeding fails exactly on the first value a
      rule rejects, and otherwise gives `Fed`. */
  lemma FeedLambda<V>(c: Callee<V>, binds: seq<(string, V)>, rules: map<string, V -> bool>)
    requires c.Open() && |c.bound| + |binds| <= c.arity
    ensures Accepted(binds, rules) ==> Feed(Lambda(c), binds, rules) == Ok(Fed(c, binds))
    ensures !Accepted(binds, rules) ==>
      exists j :: (&& 0 <= j < |binds| && !Accepts(rules, binds[j])
                   && (forall i :: 0 <= i < j ==> Accepts(rules, binds[i]))
                   && Feed(Lambda(c), binds, rules) == Err(RuleFailure(binds[j].0)))
  {
    if Accepted(binds, rules) {
      FeedAccepted(c, binds, rules);
    } else {
      FeedRejected(c, binds, rules);
    }
  }

  lemma {:induction false} FeedAccepted<V>(c: Callee<V>, binds: seq<(string, V)>, rules: map<string, V -> bool>)
    requires c.Open() && |c.bound| + |binds| <= c.arity && Accepted(binds, rules)
    ensures Feed(Lambda(c), binds, rules) == Ok(Fed(c, binds))
    decreases |binds|
  {
    if binds != [] {
      AcceptedTail(binds, rules);
      if |binds| == 1 {
        assert Values(binds) == [binds[0].1];
      } else {
        var c2 := FeedStep(c, binds, rules);
        FeedAccepted(c2, binds[1..], rules);
        assert c2.bound + Values(binds[1..]) == c.bound + Values(binds);
      }
    }
  }

  lemma {:induction false} FeedRejected<V>(c: Callee<V>, binds: seq<(string, V)>, rules: map<string, V -> bool>)
    requires c.Open() && |c.bound| + |binds| <= c.arity && !Accepted(binds, rules)
    ensures exists j :: (&& 0 <= j < |binds| && !Accepts(rules, binds[j])
                         && (forall i :: 0 <= i < j ==> Accepts(rules, binds[i]))
                         && Feed(Lambda(c), binds, rules) == Err(RuleFailure(binds[j].0)))
    decreases |binds|
  {
    AcceptedTail(binds, rules);
    if Accepts(rules, binds[0]) {
      var rest := binds[1..];
      var c2 := FeedStep(c, binds, rules);
      FeedRejected(c2, rest, rules);
      var j :| 0 <= j < |rest| && !Accepts(rules, rest[j]) && (forall i :: 0 <= i < j ==> Accepts(rules, rest[i]))
        && Feed(Lambda(c2), rest, rules) == Err(RuleFailure(rest[j].0));
      FirstFailureShift(binds, rules, j);
    } else {
      assert Feed(Lambda(c), binds, rules) == Err(RuleFailure(binds[0].0));
    }
  }

  /** An accepted first value, with more to come, goes into the curried
      lambda and feeding goes on with the rest. */
  lemma FeedStep<V>(c: Callee<V>, binds: seq<(string, V)>, rules: map<string, V -> bool>) returns (c2: Callee<V>)
    requires c.Open() && |binds| >= 2 && |c.bound| + |binds| <= c.arity && Accepts(rules, binds[0])
    ensures c2 == c.(bound := c.bound + [binds[0].1]) && c2.Open() && |c2.bound| + |binds[1..]| <= c2.arity
    ensures Feed(Lambda(c), binds, rules) == Feed(Lambda(c2), binds[1..], rules)
  {
    c2 := c.(bound := c.bound + [binds[0].1]);
  }

  /** A list of pairs passes its rules when its first pair and the rest do. */
  lemma AcceptedTail<V>(binds: seq<(string, V)>, rules: map<string, V -> bool>)
    requires binds != []
    ensures Accepted(binds, rules) <==> Accepts(rules, binds[0]) && Accepted(binds[1..], rules)
  {
    if Accepted(binds[1..], rules) {
      forall i | 0 < i < |binds| ensures Accepts(rules, binds[i]) {
        assert binds[i] == binds[1..][i - 1];
      }
    }
  }

  /** The first rejected pair of the rest, behind an accepted first pair, is
      the first rejected pair of the whole list. */
  lemma FirstFailureShift<V>(binds: seq<(string, V)>, rules: map<string, V -> bool>, j: nat)
    requires binds != [] && Accepts(rules, binds[0]) && j < |binds| - 1
    requires !Accepts(rules, binds[1..][j]) && forall i :: 0 <= i < j ==> Accepts(rules, binds[1..][i])
    ensures binds[j + 1] == binds[1..][j] && !Accepts(rules, binds[j + 1])
    ensures forall i :: 0 <= i < j + 1 ==> Accepts(rules, binds[i])
  {
    forall i | 0 < i < j + 1 ensures Accepts(rules, binds[i]) {
      assert binds[i] == binds[1..][i - 1];
    }
  }

  /** The `Lookup` of a name no pair carries is `nil`. */
  lemma {:induction false} LookupAbsent<V>(binds: seq<(string, V)>, name: string)
    requires forall b :: b in binds ==> b.0 != name
    ensures Lookup(binds, name) == None
    decreases |binds|
  {
    if binds != [] {
      assert binds[0] in binds;
      assert forall b :: b in binds[1..] ==> b in binds;
      LookupAbsent(binds[1..], name);
    }
  }

  /** The `k`-th unassigned parameter gets the `k`-th argument, `nil` ones
      and missing ones included. */
  lemma {:induction false} LookupBindings<V>(names: seq<string>, args: seq<Option<V>>, k: nat)
    requires Distinct(names) && |args| <= |names| && k < |names|
    ensures Lookup(Bindings(names, args), names[k]) == (if k < |args| then args[k] else None)
    decreases |args|
  {
    if args != [] {
      var rest := Bindings(names[1..], args[1..]);
      if k == 0 {
        LookupBindingsFirst(names, args);
      } else {
        assert Distinct(names[1..]) by {
          forall i, j | 0 <= i < j < |names[1..]| ensures names[1..][i] != names[1..][j] {
            assert names[1..][i] == names[i + 1] && names[1..][j] == names[j + 1];
          }
        }
        LookupBindings(names[1..], args[1..], k - 1);
        assert names[1..][k - 1] == names[k] && names[k] != names[0];
        if args[0].Some? {
          LookupPrepend((names[0], args[0].value), rest, names[k]);
        }
      }
    }
  }

  /** The first unassigned parameter gets the first argument. */
  lemma LookupBindingsFirst<V>(names: seq<string>, args: seq<Option<V>>)
    requires Distinct(names) && 0 < |args| <= |names|
    ensures Lookup(Bindings(names, args), names[0]) == args[0]
  {
    var rest := Bindings(names[1..], args[1..]);
    forall b | b in rest ensures b.0 != names[0] {
      assert b.0 in names[1..][..|args| - 1];
    }
    LookupAbsent(rest, names[0]);
    if args[0].Some? {
      LookupPrepend((names[0], args[0].value), rest, names[0]);
    }
  }

  /** `to_h` of one more pair in front: a later pair of the same name wins. */
  lemma LookupPrepend<V>(p: (string, V), rest: seq<(string, V)>, name: string)
    ensures Lookup([p] + rest, name) ==
      (if Lookup(rest, name).Some? then Lookup(rest, name) else if p.0 == name then Some(p.1) else None)
  {
    assert ([p] + rest)[1..] == rest;
  }

  /** One pair per argument that is not `nil`. */
  lemma {:induction false} BindingsCount<V>(names: seq<string>, args: seq<Option<V>>)
    requires |args| <= |names|
    ensures |Bindings(names, args)| == SomeCount(args)
    decreases |args|
  {
    if args != [] {
      BindingsCount(names[1..], args[1..]);
    }
  }

  /** The names among `names` that `binds` leaves without a value. */
  function StillOpen<V>(names: seq<string>, binds: seq<(string, V)>): seq<string>
    decreases |names|
  {
    if names == [] then []
    else (if Lookup(binds, names[0]).None? then [names[0]] else []) + StillOpen(names[1..], binds)
  }

  /** After the merge, the unassigned parameters are those the new pairs do
      not name, in declaration order. */
  lemma {:induction false} UnassignedAfterMerge<V>(arguments: seq<Entry<V>>, binds: seq<(string, V)>)
    ensures Unassigned(MergeArguments(arguments, binds)) == StillOpen(Unassigned(arguments), binds)
    decreases |arguments|
  {
    if arguments != [] {
      var merged := MergeArguments(arguments, binds);
      assert merged[1..] == MergeArguments(arguments[1..], binds);
      UnassignedAfterMerge(arguments[1..], binds);
      if arguments[0].1.None? {
        assert Unassigned(arguments)[1..] == Unassigned(arguments[1..]);
      }
    }
  }

  lemma {:induction false} StillOpenCongruent<V>(names: seq<string>, b1: seq<(string, V)>, b2: seq<(string, V)>)
    requires forall n :: n in names ==> Lookup(b1, n) == Lookup(b2, n)
    ensures StillOpen(names, b1) == StillOpen(names, b2)
    decreases |names|
  {
    if names != [] {
      assert names[0] in names;
      assert forall n :: n in names[1..] ==> n in names;
      StillOpenCongruent(names[1..], b1, b2);
    }
  }

  lemma {:induction false} StillOpenNone<V>(names: seq<string>)
    ensures StillOpen<V>(names, []) == names
    decreases |names|
  {
    if names != [] {
      StillOpenNone<V>(names[1..]);
    }
  }

  /** Every argument that is not `nil` assigns one parameter. */
  lemma {:induction false} StillOpenCount<V>(names: seq<string>, args: seq<Option<V>>)
    requires Distinct(names) && |args| <= |names|
    ensures |StillOpen(names, Bindings(names, args))| == |names| - SomeCount(args)
    decreases |args|
  {
    if args == [] {
      StillOpenNone<V>(names);
    } else {
      var binds := Bindings(names, args);
      var rest := Bindings(names[1..], args[1..]);
      LookupBindings(names, args, 0);
      forall n | n in names[1..] ensures Lookup(binds, n) == Lookup(rest, n) {
        var k :| 0 <= k < |names[1..]| && names[1..][k] == n;
        LookupBindings(names, args, k + 1);
        LookupBindings(names[1..], args[1..], k);
      }
      StillOpenCongruent(names[1..], binds, rest);
      StillOpenCount(names[1..], args[1..]);
    }
  }

  /** In a table with distinct names, `Get` finds the entry itself. */
  lemma {:induction false} GetAt<V>(arguments: seq<Entry<V>>, p: nat)
    requires DistinctNames(arguments) && p < |arguments|
    ensures Get(arguments, arguments[p].0) == arguments[p].1
    decreases p
  {
    if p > 0 {
      assert arguments[0].0 != arguments[p].0;
      GetAt(arguments[1..], p - 1);
    }
  }

  /** A call with room for its arguments fails exactly when a rule rejects
      one of them, with the first such parameter's failure. */
  lemma CallRules<V>(f: Function<V>, args: seq<Option<V>>)
    requires f.Valid() && |args| <= |Unassigned(f.arguments)|
    ensures var binds := Bindings(Unassigned(f.arguments), args);
      && (Call(f, args).Failed? <==> !Accepted(binds, f.rules))
      && (Call(f, args).Failed? ==>
            exists j :: (&& 0 <= j < |binds| && !Accepts(f.rules, binds[j])
                         && (forall i :: 0 <= i < j ==> Accepts(f.rules, binds[i]))
                         && Call(f, args) == Failed(RuleFailure(binds[j].0))))
  {
    var un := Unassigned(f.arguments);
    BindingsCount(un, args);
    SomeCountBound(args);
    FeedLambda(f.curried.c, Bindings(un, args), f.rules);
  }

  lemma {:induction false} SomeCountBound<V>(args: seq<Option<V>>)
    ensures SomeCount(args) <= |args|
    decreases |args|
  {
    if args != [] {
      SomeCountBound(args[1..]);
    }
  }

  /** When the argument count equals the unassigned count, the curried
      proc's result is returned as it is. */
  lemma CallReturns<V>(f: Function<V>, args: seq<Option<V>>)
    requires f.Valid() && |args| == |Unassigned(f.arguments)|
    requires Accepted(Bindings(Unassigned(f.arguments), args), f.rules)
    ensures Call(f, args) == Returned(Fed(f.curried.c, Bindings(Unassigned(f.arguments), args)))
  {
    var un := Unassigned(f.arguments);
    BindingsCount(un, args);
    SomeCountBound(args);
    FeedLambda(f.curried.c, Bindings(un, args), f.rules);
  }

  /** A function all of whose parameters get a value in one call runs on
      those values in declaration order. */
  lemma FullApplication<V>(f: Function<V>, vs: seq<V>)
    requires f.Valid() && |vs| == |Unassigned(f.arguments)| > 0
    requires Accepted(Bindings(Unassigned(f.arguments), seq(|vs|, i requires 0 <= i < |vs| => Some(vs[i]))), f.rules)
    ensures Call(f, seq(|vs|, i requires 0 <= i < |vs| => Some(vs[i]))) == Returned(Plain(f.curried.c.body(f.curried.c.bound + vs)))
  {
    var args := seq(|vs|, i requires 0 <= i < |vs| => Some(vs[i]));
    var binds := Bindings(Unassigned(f.arguments), args);
    CallReturns(f, args);
    assert Values(binds) == vs;
  }

  /** A call with fewer arguments than unassigned parameters gives a new
      valid function with the same rules: the `k`-th unassigned parameter
      takes the `k`-th argument, a `nil` argument leaves its parameter
      unassigned, and the parameters already assigned keep their values. */
  lemma CallBindsInOrder<V>(f: Function<V>, args: seq<Option<V>>)
    requires f.Valid() && |args| < |Unassigned(f.arguments)|
    requires Accepted(Bindings(Unassigned(f.arguments), args), f.rules)
    ensures Call(f, args).Next?
    ensures var g := Call(f, args).next;
      && g.Valid() && g.rules == f.rules
      && |Unassigned(g.arguments)| == |Unassigned(f.arguments)| - SomeCount(args)
      && (forall k :: 0 <= k < |args| ==> Get(g.arguments, Unassigned(f.arguments)[k]) == args[k])
      && (forall k :: |args| <= k < |Unassigned(f.arguments)| ==> Get(g.arguments, Unassigned(f.arguments)[k]) == None)
      && (forall i :: 0 <= i < |f.arguments| && f.arguments[i].1.Some? ==> g.arguments[i] == f.arguments[i])
  {
    var a := f.arguments;
    var un := Unassigned(a);
    var binds := Bindings(un, args);
    var c := f.curried.c;
    BindingsCount(un, args);
    SomeCountBound(args);
    FeedLambda(c, binds, f.rules);
    var merged := MergeArguments(a, binds);
    assert Call(f, args) == Next(Function(Fed(c, binds), merged, f.rules));
    MergeCount(a, args);
    MergeAssigns(a, args);
    MergeKeepsAssigned(a, args);
  }

  /** The merge assigns exactly the parameters whose argument is not `nil`. */
  lemma MergeCount<V>(a: seq<Entry<V>>, args: seq<Option<V>>)
    requires DistinctNames(a) && |args| <= |Unassigned(a)|
    ensures DistinctNames(MergeArguments(a, Bindings(Unassigned(a), args)))
    ensures |Unassigned(MergeArguments(a, Bindings(Unassigned(a), args)))| == |Unassigned(a)| - SomeCount(args)
  {
    var un := Unassigned(a);
    UnassignedDistinct(a);
    UnassignedAfterMerge(a, Bindings(un, args));
    StillOpenCount(un, args);
  }

  /** The `k`-th unassigned parameter reads the `k`-th argument after the
      merge, and the ones past the arguments stay unassigned. */
  lemma MergeAssigns<V>(a: seq<Entry<V>>, args: seq<Option<V>>)
    requires DistinctNames(a) && |args| <= |Unassigned(a)|
    ensures forall k :: 0 <= k < |Unassigned(a)| ==>
      Get(MergeArguments(a, Bindings(Unassigned(a), args)), Unassigned(a)[k]) == (if k < |args| then args[k] else None)
  {
    var un := Unassigned(a);
    var merged := MergeArguments(a, Bindings(un, args));
    UnassignedDistinct(a);
    assert DistinctNames(merged);
    forall k | 0 <= k < |un| ensures Get(merged, un[k]) == (if k < |args| then args[k] else None) {
      var p :| 0 <= p < |a| && a[p] == (un[k], None);
      GetAt(merged, p);
      LookupBindings(un, args, k);
    }
  }

  /** Parameters that already had a value keep it. */
  lemma MergeKeepsAssigned<V>(a: seq<Entry<V>>, args: seq<Option<V>>)
    requires DistinctNames(a) && |args| <= |Unassigned(a)|
    ensures forall i :: 0 <= i < |a| && a[i].1.Some? ==> MergeArguments(a, Bindings(Unassigned(a), args))[i] == a[i]
  {
    var un := Unassigned(a);
    var binds := Bindings(un, args);
    forall i | 0 <= i < |a| && a[i].1.Some? ensures MergeArguments(a, binds)[i] == a[i] {
      forall b | b in binds ensures b.0 != a[i].0 {
        assert b.0 in un;
        var p :| 0 <= p < |a| && a[p] == (b.0, None);
        assert a[p].1 != a[i].1;
        assert p != i;
      }
      LookupAbsent(binds, a[i].0);
    }
  }

  /** The unassigned names of a table with distinct names are distinct. */
  lemma {:induction false} UnassignedDistinct<V>(arguments: seq<Entry<V>>)
    requires DistinctNames(arguments)
    ensures Distinct(Unassigned(arguments))
    decreases |arguments|
  {
    if arguments != [] {
      UnassignedDistinct(arguments[1..]);
      if arguments[0].1.None? {
        var rest := Unassigned(arguments[1..]);
        forall n | n in rest ensures n != arguments[0].0 {
          var i :| 0 <= i < |arguments[1..]| && arguments[1..][i] == (n, None);
          assert arguments[i + 1].0 == n;
        }
      }
    }
  }

  /** As written, a `nil` argument shifts the positions of the arguments
      after it: `call(nil, x)` on parameters `a, b, c` records `x` for `b`,
      but the curried proc takes `x` as its first positional argument, so a
      following `call(y, z)` runs the function on `(x, y, z)` instead of
      `(y, x, z)`. */
  lemma NilArgumentShiftsPosition<V>(a: string, b: string, c: string, body: seq<V> -> V, isCallable: V -> bool, x: V, y: V, z: V)
    requires a != b && b != c && a != c
    ensures var f := New([a, b, c], body, isCallable, map[]);
      var r := Call(f, [None, Some(x)]);
      && r.Next? && r.next.Valid()
      && Get(r.next.arguments, a) == None && Get(r.next.arguments, b) == Some(x)
      && Call(r.next, [Some(y), Some(z)]) == Returned(Plain(body([x, y, z])))
  {
    var merged := SecondOfThreeAssigned<V>(a, b, c, x);
    var g := Function(Lambda(Callee(3, body, isCallable, [x])), merged, map[]);
    var f := NewOfThree<V>(a, b, c, body, isCallable);
    NilFirstCall(a, b, c, body, isCallable, x);
    NilSecondCall(a, c, body, isCallable, x, y, z, g);
  }

  /** The second call of `NilArgumentShiftsPosition`: the curried lambda
      already holds `x` in first position. */
  lemma NilSecondCall<V>(a: string, c: string, body: seq<V> -> V, isCallable: V -> bool, x: V, y: V, z: V, g: Function<V>)
    requires g.Valid() && g.rules == map[] && Unassigned(g.arguments) == [a, c]
    requires g.curried == Lambda(Callee(3, body, isCallable, [x]))
    ensures Call(g, [Some(y), Some(z)]) == Returned(Plain(body([x, y, z])))
  {
    var args: seq<Option<V>> := [Some(y), Some(z)];
    TwoBindings(a, c, y, z);
    NoRulesAccept([(a, y), (c, z)]);
    CallReturns(g, args);
    assert Values([(a, y), (c, z)]) == [y, z];
    assert [x] + [y, z] == [x, y, z];
  }

  /** The first call of `NilArgumentShiftsPosition`: `b` gets `x`, and so
      does the first position of the curried lambda. */
  lemma NilFirstCall<V>(a: string, b: string, c: string, body: seq<V> -> V, isCallable: V -> bool, x: V)
    requires a != b && b != c && a != c
    ensures Call(Function(Lambda(Callee(3, body, isCallable, [])), [(a, None), (b, None), (c, None)], map[]), [None, Some(x)])
      == Next(Function(Lambda(Callee(3, body, isCallable, [x])), [(a, None), (b, Some(x)), (c, None)], map[]))
  {
    var t: seq<Entry<V>> := [(a, None), (b, None), (c, None)];
    var f := Function(Lambda(Callee(3, body, isCallable, [])), t, map[]);
    UnassignedOfThree<V>(a, b, c);
    var binds := SecondOfThreeBinds([a, b, c], x);
    var merged := SecondOfThreeAssigned<V>(a, b, c, x);
    CallOneValue(f, [None, Some(x)], b, x);
    assert [] + [x] == [x];
  }

  lemma UnassignedOfThree<V>(a: string, b: string, c: string)
    ensures Unassigned<V>([(a, None), (b, None), (c, None)]) == [a, b, c]
  {
    var t: seq<Entry<V>> := [(a, None), (b, None), (c, None)];
    AllUnassigned([a, b, c], t);
  }

  /** A call that binds one accepted value, with room to spare, holds it in
      the curried lambda and merges it into the table. */
  lemma CallOneValue<V>(f: Function<V>, args: seq<Option<V>>, n: string, x: V)
    requires f.curried.Lambda? && |f.curried.c.bound| + 1 < f.curried.c.arity
    requires |args| < |Unassigned(f.arguments)| && Bindings(Unassigned(f.arguments), args) == [(n, x)]
    requires Accepts(f.rules, (n, x))
    ensures Call(f, args) == Next(Function(Lambda(f.curried.c.(bound := f.curried.c.bound + [x])),
                                           MergeArguments(f.arguments, [(n, x)]), f.rules))
  {
    assert Values([(n, x)]) == [x];
    CallFeedsSome(f, args);
  }

  /** `New` on three distinct names. */
  lemma NewOfThree<V>(a: string, b: string, c: string, body: seq<V> -> V, isCallable: V -> bool) returns (f: Function<V>)
    requires a != b && b != c && a != c
    ensures Distinct([a, b, c]) && f == New([a, b, c], body, isCallable, map[])
    ensures f == Function(Lambda(Callee(3, body, isCallable, [])), [(a, None), (b, None), (c, None)], map[])
    ensures Unassigned(f.arguments) == [a, b, c]
  {
    f := New([a, b, c], body, isCallable, map[]);
    assert |f.arguments| == 3;
    assert f.arguments[0] == (a, None) && f.arguments[1] == (b, None) && f.arguments[2] == (c, None);
  }

  /** A call with room to spare whose values all pass their rules holds
      the values in the curried lambda and merges them into the table. */
  lemma CallFeedsSome<V>(f: Function<V>, args: seq<Option<V>>)
    requires f.curried.Lambda? && f.curried.c.Open() && |args| < |Unassigned(f.arguments)|
    requires var binds := Bindings(Unassigned(f.arguments), args);
      binds != [] && Accepted(binds, f.rules) && |f.curried.c.bound| + |binds| < f.curried.c.arity
    ensures var binds := Bindings(Unassigned(f.arguments), args);
      Call(f, args) == Next(Function(Lambda(f.curried.c.(bound := f.curried.c.bound + Values(binds))),
                                     MergeArguments(f.arguments, binds), f.rules))
  {
    FeedLambda(f.curried.c, Bindings(Unassigned(f.arguments), args), f.rules);
  }

  lemma SecondOfThreeBinds<V>(names: seq<string>, x: V) returns (binds: seq<(string, V)>)
    requires |names| == 3
    ensures binds == Bindings(names, [None, Some(x)]) == [(names[1], x)]
    ensures Values(binds) == [x]
  {
    var args: seq<Option<V>> := [None, Some(x)];
    assert args[1..] == [Some(x)] && args[1..][1..] == [];
    binds := Bindings(names, args);
  }

  /** The table of `NilFirstCall` after its merge. */
  lemma SecondOfThreeAssigned<V>(a: string, b: string, c: string, x: V) returns (merged: seq<Entry<V>>)
    requires a != b && b != c && a != c
    ensures merged == MergeArguments([(a, None), (b, None), (c, None)], [(b, x)])
    ensures merged == [(a, None), (b, Some(x)), (c, None)]
    ensures DistinctNames(merged) && Unassigned(merged) == [a, c]
    ensures Get(merged, a) == None && Get(merged, b) == Some(x)
  {
    var binds := [(b, x)];
    assert binds[1..] == [];
    assert Lookup(binds, a) == None;
    assert Lookup(binds, b) == Some(x);
    assert Lookup(binds, c) == None;
    merged := MergeArguments([(a, None), (b, None), (c, None)], binds);
    assert merged == [(a, None), (b, Some(x)), (c, None)];
    assert merged[1..] == [(b, Some(x)), (c, None)];
    assert merged[1..][1..] == [(c, None)];
    assert merged[1..][1..][1..] == [];
    assert Unassigned(merged[1..][1..]) == [c];
    assert Unassigned(merged[1..]) == [c];
  }

  /** A function that binds its parameters by name: it keeps the function
      itself instead of a positional curried proc, and runs it on the values
      in declaration order once every parameter has one. */
  datatype ByName<!V> = ByName(body: seq<V> -> V, arguments: seq<Entry<V>>, rules: map<string, V -> bool>)

  datatype ByNameCalled<!V> = Ran(value: V) | Waits(next: ByName<V>) | Refused(error: Error)

  /** The name of the first pair a rule rejects. */
  function FirstRejected<V>(binds: seq<(string, V)>, rules: map<string, V -> bool>): (r: Option<string>)
    ensures r.None? <==> Accepted(binds, rules)
    ensures r.Some? ==> exists j :: (&& 0 <= j < |binds| && !Accepts(rules, binds[j]) && r.value == binds[j].0
                                     && forall i :: 0 <= i < j ==> Accepts(rules, binds[i]))
    decreases |binds|
  {
    if binds == [] then None
    else if !Accepts(rules, binds[0]) then Some(binds[0].0)
    else
      var r := FirstRejected(binds[1..], rules);
      AcceptedTail(binds, rules);
      assert r.Some? ==> exists j :: (&& 0 <= j < |binds| && !Accepts(rules, binds[j]) && r.value == binds[j].0
                                      && forall i :: 0 <= i < j ==> Accepts(rules, binds[i])) by {
        if r.Some? {
          var j :| 0 <= j < |binds[1..]| && !Accepts(rules, binds[1..][j]) && r.value == binds[1..][j].0
            && forall i :: 0 <= i < j ==> Accepts(rules, binds[1..][i]);
          FirstFailureShift(binds, rules, j);
        }
      }
      r
  }

  /** The values of a table in which every parameter is assigned. */
  function AssignedValues<V>(arguments: seq<Entry<V>>): seq<V>
    requires forall i :: 0 <= i < |arguments| ==> arguments[i].1.Some?
  {
    seq(|arguments|, i requires 0 <= i < |arguments| && arguments[i].1.Some? => arguments[i].1.value)
  }

  /** `call` with the arguments bound by name: the same errors, the same
      merge of the table, and the function runs once nothing is left
      unassigned. */
  function CallByName<V>(f: ByName<V>, args: seq<Option<V>>): (r: ByNameCalled<V>)
    ensures |Unassigned(f.arguments)| < |args| ==> r == Refused(ArgumentError)
    ensures r.Refused? && |args| <= |Unassigned(f.arguments)| ==> !Accepted(Bindings(Unassigned(f.arguments), args), f.rules)
    ensures r.Waits? ==> r.next.body == f.body && r.next.rules == f.rules
  {
    var un := Unassigned(f.arguments);
    if |un| < |args| then Refused(ArgumentError)
    else
      var binds := Bindings(un, args);
      match FirstRejected(binds, f.rules)
      case Some(n) => Refused(RuleFailure(n))
      case None =>
        var merged := MergeArguments(f.arguments, binds);
        if Unassigned(merged) == [] then
          assert forall i :: 0 <= i < |merged| ==> merged[i].1.Some? by {
            forall i | 0 <= i < |merged| ensures merged[i].1.Some? {
              assert merged[i].0 !in Unassigned(merged);
              assert merged[i] != (merged[i].0, None);
            }
          }
          Ran(f.body(AssignedValues(merged)))
        else Waits(f.(arguments := merged))
  }

  /** Bound by name, every parameter reaches the function with the value
      given for it, whatever the order and grouping of the calls. */
  lemma ByNameRunsOnNamedValues<V>(f: ByName<V>, args: seq<Option<V>>, vs: seq<V>)
    requires DistinctNames(f.arguments) && |args| == |Unassigned(f.arguments)| && |vs| == |f.arguments|
    requires forall k :: 0 <= k < |args| ==> args[k].Some?
    requires Accepted(Bindings(Unassigned(f.arguments), args), f.rules)
    requires forall i :: 0 <= i < |f.arguments| && f.arguments[i].1.Some? ==> f.arguments[i].1 == Some(vs[i])
    requires forall i, k :: 0 <= i < |f.arguments| && 0 <= k < |args| && f.arguments[i] == (Unassigned(f.arguments)[k], None) ==>
      args[k] == Some(vs[i])
    ensures CallByName(f, args) == Ran(f.body(vs))
  {
    var merged := MergeArguments(f.arguments, Bindings(Unassigned(f.arguments), args));
    MergedValues(f.arguments, args, vs);
    assert Unassigned(merged) == [];
    assert AssignedValues(merged) == vs;
  }

  /** A call that gives every unassigned parameter a value leaves each
      parameter with the value meant for it. */
  lemma MergedValues<V>(a: seq<Entry<V>>, args: seq<Option<V>>, vs: seq<V>)
    requires DistinctNames(a) && |args| == |Unassigned(a)| && |vs| == |a|
    requires forall k :: 0 <= k < |args| ==> args[k].Some?
    requires forall i :: 0 <= i < |a| && a[i].1.Some? ==> a[i].1 == Some(vs[i])
    requires forall i, k :: 0 <= i < |a| && 0 <= k < |args| && a[i] == (Unassigned(a)[k], None) ==> args[k] == Some(vs[i])
    ensures var merged := MergeArguments(a, Bindings(Unassigned(a), args));
      && |Unassigned(merged)| == 0
      && forall i :: 0 <= i < |a| ==> merged[i].1 == Some(vs[i])
  {
    var un := Unassigned(a);
    var merged := MergeArguments(a, Bindings(un, args));
    assert |Unassigned(merged)| == 0 by {
      MergeCount(a, args);
      BindingsCount(un, args);
    }
    MergeAssigns(a, args);
    MergeKeepsAssigned(a, args);
    forall i | 0 <= i < |a| ensures merged[i].1 == Some(vs[i]) {
      if a[i].1.None? {
        assert a[i].0 in un;
        var k :| 0 <= k < |un| && un[k] == a[i].0;
        GetAt(merged, i);
      }
    }
  }

  /** The call sequence of `NilArgumentShiftsPosition`, bound by name, runs
      the function on `(y, x, z)`. */
  lemma ByNameKeepsNilPosition<V>(a: string, b: string, c: string, body: seq<V> -> V, x: V, y: V, z: V)
    requires a != b && b != c && a != c
    ensures var f := ByName(body, [(a, None), (b, None), (c, None)], map[]);
      var r := CallByName(f, [None, Some(x)]);
      && r.Waits?
      && CallByName(r.next, [Some(y), Some(z)]) == Ran(body([y, x, z]))
  {
    var g := ByNameFirstCall(a, b, c, body, x);
    ByNameSecondCall(a, b, c, body, x, y, z);
  }

  /** The second call of `ByNameKeepsNilPosition`. */
  lemma ByNameSecondCall<V>(a: string, b: string, c: string, body: seq<V> -> V, x: V, y: V, z: V)
    requires a != b && b != c && a != c
    ensures CallByName(ByName(body, [(a, None), (b, Some(x)), (c, None)], map[]), [Some(y), Some(z)]) == Ran(body([y, x, z]))
  {
    var t: seq<Entry<V>> := [(a, None), (b, Some(x)), (c, None)];
    var args: seq<Option<V>> := [Some(y), Some(z)];
    var _ := SecondOfThreeAssigned<V>(a, b, c, x);
    NoRulesAccept(Bindings([a, c], args));
    PairedValues(a, b, c, x, y, z);
    ByNameRunsOnNamedValues(ByName(body, t, map[]), args, [y, x, z]);
  }

  /** In the table after `call(nil, x)`, the two unassigned parameters pair
      with `y` and `z` in declaration order, and `b` keeps `x`. */
  lemma PairedValues<V>(a: string, b: string, c: string, x: V, y: V, z: V)
    requires a != b && b != c && a != c
    ensures var t: seq<Entry<V>> := [(a, None), (b, Some(x)), (c, None)];
      var args: seq<Option<V>> := [Some(y), Some(z)];
      && (forall i, k :: 0 <= i < |t| && 0 <= k < |args| && t[i] == ([a, c][k], None) ==> args[k] == Some([y, x, z][i]))
      && (forall i :: 0 <= i < |t| && t[i].1.Some? ==> t[i].1 == Some([y, x, z][i]))
      && (forall k :: 0 <= k < |args| ==> args[k].Some?)
  {
  }

  /** Two values for two parameters. */
  lemma TwoBindings<V>(n0: string, n1: string, y: V, z: V)
    ensures Bindings([n0, n1], [Some(y), Some(z)]) == [(n0, y), (n1, z)]
  {
    var args: seq<Option<V>> := [Some(y), Some(z)];
    assert args[1..] == [Some(z)] && args[1..][1..] == [];
    assert [n0, n1][1..] == [n1];
  }

  /** Without rules every value is accepted. */
  lemma NoRulesAccept<V>(binds: seq<(string, V)>)
    ensures Accepted(binds, map[])
  {
  }

  /** The first call of `ByNameKeepsNilPosition`. */
  lemma ByNameFirstCall<V>(a: string, b: string, c: string, body: seq<V> -> V, x: V) returns (g: ByName<V>)
    requires a != b && b != c && a != c
    ensures CallByName(ByName(body, [(a, None), (b, None), (c, None)], map[]), [None, Some(x)]) == Waits(g)
    ensures g == ByName(body, [(a, None), (b, Some(x)), (c, None)], map[])
    ensures Unassigned(g.arguments) == [a, c] && DistinctNames(g.arguments)
  {
    var t: seq<Entry<V>> := [(a, None), (b, None), (c, None)];
    var f := ByName(body, t, map[]);
    UnassignedOfThree<V>(a, b, c);
    var binds := SecondOfThreeBinds([a, b, c], x);
    NoRulesAccept(binds);
    var merged := SecondOfThreeAssigned<V>(a, b, c, x);
    g := f.(arguments := merged);
  }
}
