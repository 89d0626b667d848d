/**
  `FunRuby::Container::Define` (lib/fun_ruby/container/define.rb): the
  builder that registers definitions in a container under dotted keys.

  A builder holds a container and a namespace path. The Ruby block passed
  to `call` or `namespace` is modelled as a script of statements: a nested
  `namespace(name) { ... }` or a `function(key) { ... }` registration.
  Both run in order, and an exception stops the script where it is raised.
 */
module ContainerDefine {
  import opened Ruby
  import opened ContainerStore
  import opened ContainerResolve

  /** One statement of a definition block. `Fn` stands for `function` and
      its alias `f`. */
  datatype Stmt = Namespace(name: Key, body: seq<Stmt>) | Fn(key: Key, block: Option<Definition>)

  /** `namespaces.map(&:to_s)`. */
  function ToStrings(keys: seq<Key>): seq<string>
  {
    seq(|keys|, i requires 0 <= i < |keys| => keys[i].ToS())
  }

  /** Namespaces given as symbols or as strings make the same path. */
  lemma NamespacesOfEitherKind(names: seq<string>)
    ensures ToStrings(seq(|names|, i requires 0 <= i < |names| => Sym(names[i]))) == names
    ensures ToStrings(seq(|names|, i requires 0 <= i < |names| => Str(names[i]))) == names
  {
    var syms := seq(|names|, i requires 0 <= i < |names| => Sym(names[i]));
    var strs := seq(|names|, i requires 0 <= i < |names| => Str(names[i]));
    assert forall i :: 0 <= i < |names| ==> syms[i].ToS() == names[i] && strs[i].ToS() == names[i];
  }

  /** `[*namespaces, key].join(NAMESPACE_SEPARATOR)`: the key itself at top
      level; under a path, the dotted path, a `.` and the key. */
  function FullKey(path: seq<string>, key: Key): (r: string)
    ensures path == [] ==> r == key.ToS()
    ensures path != [] ==> r == Join(path, NamespaceSeparator) + NamespaceSeparator + key.ToS()
  {
    if path == [] then
      assert path + [key.ToS()] == [key.ToS()];
      Join(path + [key.ToS()], NamespaceSeparator)
    else
      JoinSnoc(path, NamespaceSeparator, key.ToS());
      Join(path + [key.ToS()], NamespaceSeparator)
  }

  /** The registrations a script makes under `path`, in the order it makes
      them: the full key and the block of each `function`. */
  function Registrations(path: seq<string>, script: seq<Stmt>): seq<(string, Option<Definition>)>
    decreases script, 1
  {
    if script == [] then []
    else StmtRegistrations(path, script[0]) + Registrations(path, script[1..])
  }

  function StmtRegistrations(path: seq<string>, stmt: Stmt): seq<(string, Option<Definition>)>
    decreases stmt, 0
  {
    match stmt
    case Namespace(name, body) => Registrations(path + [name.ToS()], body)
    case Fn(key, block) => [(FullKey(path, key), block)]
  }

  /** The `define` calls of a list of registrations, in order, stopping at
      the first one that raises. */
  function DefineAll(storage: map<string, Entry>, regs: seq<(string, Option<Definition>)>): (r: (Status, map<string, Entry>))
    ensures storage.Keys <= r.1.Keys
    ensures forall k :: k in storage ==> r.1[k] == storage[k]
    decreases |regs|
  {
    if regs == [] then (Success, storage)
    else
      var d := Defined(storage, Str(regs[0].0), regs[0].1);
      if d.0.Failure? then d else DefineAll(d.1, regs[1..])
  }

  /** Running two lists of registrations one after the other. */
  lemma {:induction false} DefineAllAppend(storage: map<string, Entry>, r1: seq<(string, Option<Definition>)>, r2: seq<(string, Option<Definition>)>)
    ensures DefineAll(storage, r1 + r2) ==
      (if DefineAll(storage, r1).0.Failure? then DefineAll(storage, r1) else DefineAll(DefineAll(storage, r1).1, r2))
    decreases |r1|
  {
    if r1 != [] {
      assert (r1 + r2)[0] == r1[0] && (r1 + r2)[1..] == r1[1..] + r2;
      var d := Defined(storage, Str(r1[0].0), r1[0].1);
      if d.0.Success? {
        DefineAllAppend(d.1, r1[1..], r2);
      }
    } else {
      assert r1 + r2 == r2;
    }
  }

  lemma {:induction false} RegistrationsSnoc(path: seq<string>, script: seq<Stmt>, stmt: Stmt)
    ensures Registrations(path, script + [stmt]) == Registrations(path, script) + StmtRegistrations(path, stmt)
    decreases |script|
  {
    if script == [] {
      assert [stmt][1..] == [];
    } else {
      assert (script + [stmt])[1..] == script[1..] + [stmt];
      RegistrationsSnoc(path, script[1..], stmt);
    }
  }

  /**
    A script whose keys are new and distinct and whose every `function`
    has a block registers each key with its block, unevaluated, and
    touches nothing else.
   */
  lemma {:induction false} DefineAllFresh(storage: map<string, Entry>, regs: seq<(string, Option<Definition>)>)
    requires forall i :: 0 <= i < |regs| ==> regs[i].0 !in storage && regs[i].1.Some?
    requires forall i, j :: 0 <= i < j < |regs| ==> regs[i].0 != regs[j].0
    ensures DefineAll(storage, regs).0 == Success
    ensures DefineAll(storage, regs).1.Keys == storage.Keys + set i | 0 <= i < |regs| :: regs[i].0
    ensures forall i :: 0 <= i < |regs| ==> regs[i].0 in DefineAll(storage, regs).1 && DefineAll(storage, regs).1[regs[i].0] == Unevaluated(regs[i].1.value)
    decreases |regs|
  {
    if regs != [] {
      var k0 := regs[0].0;
      assert Str(k0).ToS() == k0;
      var s1 := storage[k0 := Unevaluated(regs[0].1.value)];
      assert Defined(storage, Str(k0), regs[0].1) == (Success, s1);
      var rest := regs[1..];
      assert DefineAll(storage, regs) == DefineAll(s1, rest);
      forall i | 0 <= i < |rest| ensures rest[i].0 !in s1 && rest[i].1.Some? {
        assert rest[i] == regs[i + 1];
      }
      forall i, j | 0 <= i < j < |rest| ensures rest[i].0 != rest[j].0 {
        assert rest[i] == regs[i + 1] && rest[j] == regs[j + 1];
      }
      DefineAllFresh(s1, rest);
      var r := DefineAll(s1, rest);
      KeysOfRegistrations(regs);
      forall i | 0 <= i < |regs| ensures regs[i].0 in r.1 && r.1[regs[i].0] == Unevaluated(regs[i].1.value) {
        if i > 0 {
          assert regs[i] == rest[i - 1];
        }
      }
    }
  }

  /** The keys of a list of registrations: the first one and those of the
      rest. */
  lemma KeysOfRegistrations(regs: seq<(string, Option<Definition>)>)
    requires regs != []
    ensures (set i | 0 <= i < |regs| :: regs[i].0) == {regs[0].0} + set i | 0 <= i < |regs[1..]| :: regs[1..][i].0
  {
    var all := set i | 0 <= i < |regs| :: regs[i].0;
    var rest := regs[1..];
    var later := set i | 0 <= i < |rest| :: rest[i].0;
    forall k | k in all ensures k in {regs[0].0} + later {
      var i :| 0 <= i < |regs| && regs[i].0 == k;
      if i > 0 {
        assert rest[i - 1].0 == k;
      }
    }
    forall k | k in later ensures k in all {
      var i :| 0 <= i < |rest| && rest[i].0 == k;
      assert regs[i + 1].0 == k;
    }
  }

  /** A key registered twice: the second `define` raises KeyError, the
      registrations before it stay, and none after it runs. */
  lemma DuplicateStopsTheScript(storage: map<string, Entry>, before: seq<(string, Option<Definition>)>,
                                dup: (string, Option<Definition>), after: seq<(string, Option<Definition>)>)
    requires DefineAll(storage, before).0 == Success && dup.0 in DefineAll(storage, before).1
    ensures DefineAll(storage, before + [dup] + after) == (Failure(KeyError), DefineAll(storage, before).1)
  {
    DefineAllAppend(storage, before, [dup] + after);
    assert before + [dup] + after == before + ([dup] + after);
    assert ([dup] + after)[0] == dup;
  }

  class Define {
    const container: Container
    const namespaces: seq<string>

    constructor (container: Container, namespaces: seq<string>)
      ensures this.container == container && this.namespaces == namespaces
    {
      this.container := container;
      this.namespaces := namespaces;
    }

    /** `Define.build(container:, namespaces:)`: TypeError unless
        `namespaces` is an Array (`Some`) and `container` is a Container
        (`Some`); the namespaces are turned into strings. */
    static method Build(container: Option<Container>, namespaces: Option<seq<Key>>) returns (r: Result<Define>)
      ensures namespaces.None? || container.None? ==> r == Err(TypeError)
      ensures namespaces.Some? && container.Some? ==>
        && r.Ok? && fresh(r.value)
        && r.value.container == container.value && r.value.namespaces == ToStrings(namespaces.value)
    {
      if namespaces.None? {
        return Err(TypeError);
      }
      if container.None? {
        return Err(TypeError);
      }
      var d := new Define(container.value, ToStrings(namespaces.value));
      r := Ok(d);
    }

    /** `function(key) { ... }`, registering the block under the full key
        (see `FunctionAsWritten` for the code as it stands). */
    method Function(key: Key, block: Option<Definition>) returns (s: Status)
      modifies container
      ensures (s, container.storage) == Defined(old(container.storage), Str(FullKey(namespaces, key)), block)
    {
      s := container.Define(Str(FullKey(namespaces, key)), block);
    }

    /** `namespace(name) { ... }`: a new builder on the same container
        whose path is this path plus `name` runs the body; this builder's
        path is left as it is. */
    method Namespace(name: Key, body: seq<Stmt>) returns (s: Status, child: Define)
      modifies container
      ensures child.container == container && child.namespaces == namespaces + [name.ToS()]
      ensures (s, container.storage) == DefineAll(old(container.storage), Registrations(namespaces + [name.ToS()], body))
      decreases body, 1
    {
      var keys := seq(|namespaces|, i requires 0 <= i < |namespaces| => Str(namespaces[i])) + [name];
      var built := Build(Some(container), Some(keys));
      assert ToStrings(keys) == namespaces + [name.ToS()];
      child := built.value;
      s := child.Call(body);
    }

    /** `call { ... }`: the statements run in order until one raises. */
    method Call(script: seq<Stmt>) returns (s: Status)
      modifies container
      ensures (s, container.storage) == DefineAll(old(container.storage), Registrations(namespaces, script))
      decreases script, 0
    {
      s := Success;
      for i := 0 to |script|
        invariant s == Success
        invariant (s, container.storage) == DefineAll(old(container.storage), Registrations(namespaces, script[..i]))
      {
        ghost var start := container.storage;
        RegistrationsSnoc(namespaces, script[..i], script[i]);
        assert script[..i + 1] == script[..i] + [script[i]];
        DefineAllAppend(old(container.storage), Registrations(namespaces, script[..i]), StmtRegistrations(namespaces, script[i]));
        match script[i] {
          case Namespace(name, body) =>
            var child;
            s, child := Namespace(name, body);
          case Fn(key, block) =>
            s := Function(key, block);
            assert [(FullKey(namespaces, key), block)][1..] == [];
        }
        assert (s, container.storage) == DefineAll(start, StmtRegistrations(namespaces, script[i]));
        assert (s, container.storage) == DefineAll(old(container.storage), Registrations(namespaces, script[..i + 1]));
        if s.Failure? {
          assert script[..i + 1] + script[i + 1..] == script;
          assert Registrations(namespaces, script) == Registrations(namespaces, script[..i + 1]) + Registrations(namespaces, script[i + 1..]) by {
            RegistrationsAppend(namespaces, script[..i + 1], script[i + 1..]);
          }
          DefineAllAppend(old(container.storage), Registrations(namespaces, script[..i + 1]), Registrations(namespaces, script[i + 1..]));
          return;
        }
      }
      assert script[..|script|] == script;
    }
  }

  lemma {:induction false} RegistrationsAppend(path: seq<string>, s1: seq<Stmt>, s2: seq<Stmt>)
    ensures Registrations(path, s1 + s2) == Registrations(path, s1) + Registrations(path, s2)
    decreases |s1|
  {
    if s1 == [] {
      assert s1 + s2 == s2;
    } else {
      assert (s1 + s2)[0] == s1[0] && (s1 + s2)[1..] == s1[1..] + s2;
      RegistrationsAppend(path, s1[1..], s2);
    }
  }

  /** Sibling namespace blocks are independent: each one registers under
      the parent path plus its own name, and the parent path is the same
      for the second as for the first. */
  lemma SiblingNamespaces(path: seq<string>, a: Key, first: seq<Stmt>, b: Key, second: seq<Stmt>)
    ensures Registrations(path, [Namespace(a, first), Namespace(b, second)])
         == Registrations(path + [a.ToS()], first) + Registrations(path + [b.ToS()], second)
  {
    var script := [Namespace(a, first), Namespace(b, second)];
    assert script[1..] == [Namespace(b, second)] && script[1..][1..] == [];
    assert Registrations(path, script[1..]) == Registrations(path + [b.ToS()], second) + [];
    assert Registrations(path, script) == Registrations(path + [a.ToS()], first) + Registrations(path, script[1..]);
  }

  /** `function` as the code stands: `yield` runs the block, or raises
      LocalJumpError when there is none, and then `container.define` gets
      the block's value as a second positional argument, which it does not
      take: ArgumentError. Nothing is registered. */
  function FunctionAsWritten(block: Option<Definition>): (s: Status)
    ensures s.Failure? && (s.error == LocalJumpError <==> block.None?)
  {
    if block.None? then Failure(LocalJumpError) else Failure(ArgumentError)
  }

  /** A script as the code stands: the first `function` reached raises and
      the storage is left as it was. */
  function DefineAllAsWritten(storage: map<string, Entry>, regs: seq<(string, Option<Definition>)>): (r: (Status, map<string, Entry>))
    ensures r.1 == storage
    ensures r.0 == Success <==> regs == []
  {
    if regs == [] then (Success, storage) else (FunctionAsWritten(regs[0].1), storage)
  }

  /** Two top-level functions, as the code stands: the first `f` raises
      ArgumentError and `fetch("fun1")` then raises KeyError. */
  lemma TopLevelExampleAsWritten(first: Definition, second: Definition)
    ensures var regs := Registrations([], [Fn(Str("fun1"), Some(first)), Fn(Str("fun2"), Some(second))]);
      var r := DefineAllAsWritten(map[], regs);
      && r == (Failure(ArgumentError), map[])
      && Fetched(r.1, Str("fun1")).0 == Err(KeyError)
  {
    var script := [Fn(Str("fun1"), Some(first)), Fn(Str("fun2"), Some(second))];
    assert StmtRegistrations([], script[0]) == [("fun1", Some(first))];
  }

  /** The same two functions with the block registered: both keys hold
      their blocks, and `fetch` runs each one. */
  lemma TopLevelExample(first: Definition, second: Definition)
    ensures var regs := Registrations([], [Fn(Str("fun1"), Some(first)), Fn(Str("fun2"), Some(second))]);
      var r := DefineAll(map[], regs);
      && r.0 == Success
      && Fetched(r.1, Str("fun1")).0 == Ok(first(0))
      && Fetched(r.1, Str("fun2")).0 == Ok(second(0))
  {
    var script := [Fn(Str("fun1"), Some(first)), Fn(Str("fun2"), Some(second))];
    assert script[1..] == [Fn(Str("fun2"), Some(second))] && script[1..][1..] == [];
    assert StmtRegistrations([], script[0]) == [("fun1", Some(first))];
    assert StmtRegistrations([], script[1]) == [("fun2", Some(second))];
    assert Registrations([], script[1..]) == [("fun2", Some(second))] + [];
    var regs := Registrations([], script);
    assert regs == [("fun1", Some(first)), ("fun2", Some(second))];
    assert "fun1" != "fun2";
    DefineAllFresh(map[], regs);
  }

  /**
    A block-less `f(key)` inside a definition, as the code stands: it is
    `function`, which yields to a block that is not there, so it raises
    LocalJumpError. Even with the block passed on (`&block`) it is a
    `define` without a block: KeyError when the full key is registered,
    TypeError otherwise, and the storage is unchanged. Neither is a lookup.
   */
  lemma ReferenceIsNotALookup(storage: map<string, Entry>, path: seq<string>, key: Key)
    ensures FunctionAsWritten(None) == Failure(LocalJumpError)
    ensures var d := Defined(storage, Str(FullKey(path, key)), None);
      && d.1 == storage
      && d.0 == (if FullKey(path, key) in storage then Failure(KeyError) else Failure(TypeError))
  {
    assert Str(FullKey(path, key)).ToS() == FullKey(path, key);
  }

  /** The aliases a reference inside `path` is resolved with, in the tests'
      reading: every prefix of the path as a bare namespace, shortest
      first, so that `build` probes the innermost namespace first. */
  function ScopeAliases(path: seq<string>): seq<Alias>
  {
    seq(|path|, i requires 0 <= i < |path| => Bare(Str(Join(path[..i + 1], NamespaceSeparator))))
  }

  /** A longer prefix joins to a longer string. */
  lemma {:induction false} PrefixJoinGrows(path: seq<string>, i: nat, j: nat)
    requires 1 <= i < j <= |path|
    ensures |Join(path[..i], NamespaceSeparator)| < |Join(path[..j], NamespaceSeparator)|
    decreases j - i
  {
    assert path[..j] == path[..j - 1] + [path[j - 1]];
    JoinSnoc(path[..j - 1], NamespaceSeparator, path[j - 1]);
    if i < j - 1 {
      PrefixJoinGrows(path, i, j - 1);
    }
  }

  /** Bare namespaces with distinct names are kept in declaration order. */
  lemma {:induction false} NormalizeDistinctBare(aliases: seq<Alias>)
    requires forall i :: 0 <= i < |aliases| ==> aliases[i].Bare?
    requires forall i, j :: 0 <= i < j < |aliases| ==> aliases[i].namespace.ToS() != aliases[j].namespace.ToS()
    ensures |Normalize(aliases)| == |aliases|
    ensures forall i :: 0 <= i < |aliases| ==> Normalize(aliases)[i] == (aliases[i].namespace.ToS(), None)
    decreases |aliases|
  {
    if aliases != [] {
      var init := aliases[..|aliases| - 1];
      var last := aliases[|aliases| - 1];
      NormalizeDistinctBare(init);
      var t := Normalize(init);
      assert !Declares(t, last.namespace.ToS()) by {
        forall i | 0 <= i < |t| ensures t[i].0 != last.namespace.ToS() {
          assert t[i].0 == aliases[i].namespace.ToS();
        }
      }
    }
  }

  /** The probing order of a reference inside `path`: entry `i` is the
      prefix without the last `i` segments. */
  function ScopeTable(path: seq<string>): Table
  {
    Reversed(Normalize(ScopeAliases(path)))
  }

  lemma ScopeTableEntries(path: seq<string>)
    ensures |ScopeTable(path)| == |path|
    ensures forall i :: 0 <= i < |path| ==> ScopeTable(path)[i] == (Join(path[..|path| - i], NamespaceSeparator), None)
  {
    NormalizeScope(path);
    PrefixesReversed(Normalize(ScopeAliases(path)), path);
  }

  /** Prefix entries, shortest first, reversed: longest first. */
  lemma PrefixesReversed(n: Table, path: seq<string>)
    requires |n| == |path|
    requires forall i :: 0 <= i < |path| ==> n[i] == (Join(path[..i + 1], NamespaceSeparator), None)
    ensures |Reversed(n)| == |path|
    ensures forall i :: 0 <= i < |path| ==> Reversed(n)[i] == (Join(path[..|path| - i], NamespaceSeparator), None)
  {
    var r := Reversed(n);
    forall i | 0 <= i < |path| ensures r[i] == (Join(path[..|path| - i], NamespaceSeparator), None) {
      var k := |path| - 1 - i;
      assert r[i] == n[k];
    }
  }

  /** Entry `i` of the normalised scope aliases is the prefix of `i + 1`
      segments. */
  lemma NormalizeScope(path: seq<string>)
    ensures |Normalize(ScopeAliases(path))| == |path|
    ensures forall i :: 0 <= i < |path| ==> Normalize(ScopeAliases(path))[i] == (Join(path[..i + 1], NamespaceSeparator), None)
  {
    var aliases := ScopeAliases(path);
    forall i, j | 0 <= i < j < |aliases| ensures aliases[i].namespace.ToS() != aliases[j].namespace.ToS() {
      PrefixJoinGrows(path, i + 1, j + 1);
    }
    NormalizeDistinctBare(aliases);
  }

  /** The candidate of entry `i` is the key under that prefix. */
  lemma ScopeCandidate(path: seq<string>, key: string, i: nat)
    requires i < |path|
    ensures |ScopeTable(path)| == |path|
    ensures Candidate(ScopeTable(path)[i], key) == Join(path[..|path| - i] + [key], NamespaceSeparator)
  {
    ScopeTableEntries(path);
    var prefix := path[..|path| - i];
    var entry := ScopeTable(path)[i];
    assert entry == (Join(prefix, NamespaceSeparator), None);
    JoinSnoc(prefix, NamespaceSeparator, key);
    var parts := [Join(prefix, NamespaceSeparator), key];
    assert parts[1..] == [key];
    assert Join(parts, NamespaceSeparator) == Join(prefix, NamespaceSeparator) + NamespaceSeparator + key;
    assert Candidate(entry, key) == Join(parts, NamespaceSeparator);
  }

  /** The first two candidates: the key in the reference's own namespace,
      then in the parent namespace. */
  lemma ScopeCandidatesOwnAndParent(path: seq<string>, key: string)
    requires |path| >= 1
    ensures |ScopeTable(path)| == |path|
    ensures Candidate(ScopeTable(path)[0], key) == Join(path + [key], NamespaceSeparator)
    ensures |path| >= 2 ==> Candidate(ScopeTable(path)[1], key) == Join(path[..|path| - 1] + [key], NamespaceSeparator)
  {
    ScopeCandidate(path, key, 0);
    assert path[..|path|] == path;
    if |path| >= 2 {
      ScopeCandidate(path, key, 1);
    }
  }

  /** A short reference finds the key of its own namespace first. */
  lemma ShortReferenceOwnNamespace(storage: map<string, Entry>, path: seq<string>, key: string)
    requires |path| >= 1 && Join(path + [key], NamespaceSeparator) in storage
    ensures ResolvedKey(storage, ScopeTable(path), key) == Join(path + [key], NamespaceSeparator)
  {
    ScopeCandidatesOwnAndParent(path, key);
    ResolvedKeyIsFirstRegistered(storage, ScopeTable(path), key, 0);
  }

  /** Failing that, it finds the key of the parent namespace. */
  lemma ShortReferenceParent(storage: map<string, Entry>, path: seq<string>, key: string)
    requires |path| >= 2
    requires Join(path + [key], NamespaceSeparator) !in storage
    requires Join(path[..|path| - 1] + [key], NamespaceSeparator) in storage
    ensures ResolvedKey(storage, ScopeTable(path), key) == Join(path[..|path| - 1] + [key], NamespaceSeparator)
  {
    ScopeCandidatesOwnAndParent(path, key);
    ResolvedKeyIsFirstRegistered(storage, ScopeTable(path), key, 1);
  }

  /** A full key that no prefix turns into a registered key is fetched as it
      is: a reference to a function of another namespace, registered later
      in the script, resolves once the script has run. */
  lemma FullReferenceFallsBack(storage: map<string, Entry>, path: seq<string>, key: string)
    requires forall m :: 1 <= m <= |path| ==> Join(path[..m] + [key], NamespaceSeparator) !in storage
    ensures ResolvedKey(storage, ScopeTable(path), key) == key
  {
    var t := ScopeTable(path);
    ScopeTableEntries(path);
    forall i | 0 <= i < |t| ensures Candidate(t[i], key) !in storage {
      ScopeCandidate(path, key, i);
    }
  }
}
