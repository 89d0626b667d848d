/**
  `FunRuby::Container::Resolve` (lib/fun_ruby/container/resolve.rb): looks
  a key up in a container under a list of namespace aliases.

  `build` turns the alias list into a table from namespace to shortcut
  (`nil` for a bare namespace) and reverses it. `call` tries one candidate
  key per table entry, in table order, and falls back to the key itself.
 */
module ContainerResolve {
  import opened Ruby
  import opened ContainerStore

  /** One element of `aliases:`: a bare namespace, or a Hash of
      namespace => shortcut pairs in the Hash's order. */
  datatype Alias = Bare(namespace: Key) | Shortcuts(pairs: seq<(Key, Key)>)

  /** The normalised alias Hash: namespace to shortcut, in insertion order. */
  type Table = seq<(string, Option<string>)>

  /** Hash keys are unique. */
  predicate DistinctNamespaces(t: Table) {
    forall i, j :: 0 <= i < j < |t| ==> t[i].0 != t[j].0
  }

  predicate Declares(t: Table, ns: string) {
    exists i :: 0 <= i < |t| && t[i].0 == ns
  }

  /** Where `ns` sits in the table, if it is there. */
  function IndexOf(t: Table, ns: string): (r: Option<nat>)
    ensures r.Some? ==> r.value < |t| && t[r.value].0 == ns
    ensures r.None? ==> forall i :: 0 <= i < |t| ==> t[i].0 != ns
    decreases |t|
  {
    if t == [] then None
    else if t[|t| - 1].0 == ns then Some(|t| - 1)
    else IndexOf(t[..|t| - 1], ns)
  }

  /** `hash[ns] = sc`: a namespace already present keeps its position and
      takes the new shortcut; a new one goes last. */
  function Put(t: Table, ns: string, sc: Option<string>): (r: Table)
    requires DistinctNamespaces(t)
    ensures DistinctNamespaces(r) && Declares(r, ns)
    ensures Declares(t, ns) ==> |r| == |t|
    ensures !Declares(t, ns) ==> r == t + [(ns, sc)]
    ensures forall i :: 0 <= i < |t| ==> r[i] == (if t[i].0 == ns then (ns, sc) else t[i])
  {
    match IndexOf(t, ns)
    case Some(i) =>
      assert t[i := (ns, sc)][i].0 == ns;
      t[i := (ns, sc)]
    case None =>
      assert (t + [(ns, sc)])[|t|].0 == ns;
      t + [(ns, sc)]
  }

  /** `key.map { |k, v| [k, v].map(&:to_s) }.to_h`: every pair with its
      strings; a later pair for the same namespace replaces the value. */
  function ToH(pairs: seq<(Key, Key)>): (r: Table)
    ensures DistinctNamespaces(r)
    decreases |pairs|
  {
    if pairs == [] then []
    else
      var last := pairs[|pairs| - 1];
      Put(ToH(pairs[..|pairs| - 1]), last.0.ToS(), Some(last.1.ToS()))
  }

  /** `namespace.merge!(h)`: the entries of `h`, in order, put one by one. */
  function MergeInto(t: Table, h: Table): (r: Table)
    requires DistinctNamespaces(t)
    ensures DistinctNamespaces(r)
    decreases |h|
  {
    if h == [] then t
    else Put(MergeInto(t, h[..|h| - 1]), h[|h| - 1].0, h[|h| - 1].1)
  }

  /** What one element of `aliases:` does to the table. */
  function Step(t: Table, a: Alias): (r: Table)
    requires DistinctNamespaces(t)
    ensures DistinctNamespaces(r)
  {
    match a
    case Bare(k) => Put(t, k.ToS(), None)
    case Shortcuts(pairs) => MergeInto(t, ToH(pairs))
  }

  /** The `each_with_object({})` of `build`. */
  function Normalize(aliases: seq<Alias>): (r: Table)
    ensures DistinctNamespaces(r)
    decreases |aliases|
  {
    if aliases == [] then []
    else Step(Normalize(aliases[..|aliases| - 1]), aliases[|aliases| - 1])
  }

  /** The key tried for one table entry: `namespace.key` for a bare
      namespace, else the key with every occurrence of the shortcut
      replaced by the namespace (`String#gsub`). */
  function Candidate(entry: (string, Option<string>), key: string): (r: string)
    ensures entry.1.None? ==> r == entry.0 + NamespaceSeparator + key
    ensures entry.1.Some? && |entry.1.value| > 0 && !Contains(key, entry.1.value) ==> r == key
  {
    match entry.1
    case None =>
      assert [entry.0, key][1..] == [key] && Join([key], NamespaceSeparator) == key;
      Join([entry.0, key], NamespaceSeparator)
    case Some(shortcut) =>
      if |shortcut| > 0 && !Contains(key, shortcut) then
        ReplaceAllAbsent(key, shortcut, entry.0);
        ReplaceAll(key, shortcut, entry.0)
      else
        ReplaceAll(key, shortcut, entry.0)
  }

  /** The index of the first entry, from `from` on, whose candidate is
      registered. */
  function FirstPresent(storage: map<string, Entry>, t: Table, key: string, from: nat): (r: Option<nat>)
    requires from <= |t|
    ensures r.Some? ==> from <= r.value < |t| && Candidate(t[r.value], key) in storage
    ensures r.Some? ==> forall j :: from <= j < r.value ==> Candidate(t[j], key) !in storage
    ensures r.None? ==> forall j :: from <= j < |t| ==> Candidate(t[j], key) !in storage
    decreases |t| - from
  {
    if from == |t| then None
    else if Candidate(t[from], key) in storage then Some(from)
    else FirstPresent(storage, t, key, from + 1)
  }

  /** The key `call` ends up fetching: the first registered candidate, else
      the key itself. */
  function ResolvedKey(storage: map<string, Entry>, t: Table, key: string): string
  {
    match FirstPresent(storage, t, key, 0)
    case Some(i) => Candidate(t[i], key)
    case None => key
  }

  /** `call(key)` on a storage. It raises exactly when no candidate and not
      the key itself is registered; it raises KeyError and leaves the
      storage as it was. */
  function Resolution(storage: map<string, Entry>, t: Table, key: Key): (r: (Result<Value>, map<string, Entry>))
    ensures r.0.Err? <==>
      (forall j :: 0 <= j < |t| ==> Candidate(t[j], key.ToS()) !in storage) && key.ToS() !in storage
    ensures r.0.Err? ==> r == (Err(KeyError), storage)
  {
    var first := FirstPresent(storage, t, key.ToS(), 0);
    assert first.Some? ==> ResolvedKey(storage, t, key.ToS()) in storage;
    Fetched(storage, Str(ResolvedKey(storage, t, key.ToS())))
  }

  /** `key.map { |k, v| [k, v].map(&:to_s) }.to_h`, pair by pair. */
  method ShortcutHash(pairs: seq<(Key, Key)>) returns (h: Table)
    ensures h == ToH(pairs)
  {
    h := [];
    for j := 0 to |pairs|
      invariant h == ToH(pairs[..j])
    {
      assert pairs[..j + 1][..j] == pairs[..j];
      h := Put(h, pairs[j].0.ToS(), Some(pairs[j].1.ToS()));
    }
    assert pairs[..|pairs|] == pairs;
  }

  /** `namespace.merge!(h)`, entry by entry. */
  method MergeHash(namespace: Table, h: Table) returns (r: Table)
    requires DistinctNamespaces(namespace)
    ensures r == MergeInto(namespace, h)
  {
    r := namespace;
    for j := 0 to |h|
      invariant r == MergeInto(namespace, h[..j])
    {
      assert h[..j + 1][..j] == h[..j];
      r := Put(r, h[j].0, h[j].1);
    }
    assert h[..|h|] == h;
  }

  class Resolve {
    const aliases: Table
    const container: Container

    constructor (aliases: Table, container: Container)
      ensures this.aliases == aliases && this.container == container
    {
      this.aliases := aliases;
      this.container := container;
    }

    /** `Resolve.build(aliases:, container:)`. The normalised table has
        unique namespaces, so `to_a.reverse.to_h` is its reversal. */
    static method Build(aliases: seq<Alias>, container: Container) returns (r: Resolve)
      ensures fresh(r) && r.container == container
      ensures r.aliases == Reversed(Normalize(aliases))
    {
      var namespace: Table := [];
      for i := 0 to |aliases|
        invariant namespace == Normalize(aliases[..i])
      {
        assert aliases[..i + 1][..i] == aliases[..i];
        ghost var next := Step(namespace, aliases[i]);
        assert Normalize(aliases[..i + 1]) == next;
        match aliases[i] {
          case Bare(k) =>
            namespace := Put(namespace, k.ToS(), None);
          case Shortcuts(pairs) =>
            var h := ShortcutHash(pairs);
            namespace := MergeHash(namespace, h);
        }
      }
      assert aliases[..|aliases|] == aliases;
      r := new Resolve(Reversed(namespace), container);
    }

    /** `call(key)`: the first candidate that does not raise KeyError is
        fetched and returned; after all of them the key itself is fetched,
        and KeyError escapes when it is not registered either. */
    method Call(key: Key) returns (r: Result<Value>)
      modifies container
      ensures (r, container.storage) == Resolution(old(container.storage), aliases, key)
    {
      var k := key.ToS();
      for i := 0 to |aliases|
        invariant container.storage == old(container.storage)
        invariant forall j :: 0 <= j < i ==> Candidate(aliases[j], k) !in container.storage
      {
        var fullKey := Candidate(aliases[i], k);
        r := container.Fetch(Str(fullKey));
        if r.Ok? {
          return;
        }
      }
      r := container.Fetch(Str(k));
    }
  }

  /** Declaring a namespace again keeps its first position and takes the
      later shortcut, or `nil` for a bare namespace. */
  lemma RedeclaredKeepsPosition(aliases: seq<Alias>, k: Key, shortcut: Option<Key>)
    requires Declares(Normalize(aliases), k.ToS())
    ensures var a := if shortcut.None? then Bare(k) else Shortcuts([(k, shortcut.value)]);
      var sc := if shortcut.None? then None else Some(shortcut.value.ToS());
      var t := Normalize(aliases);
      var r := Normalize(aliases + [a]);
      && |r| == |t|
      && forall i :: 0 <= i < |t| ==> r[i] == (if t[i].0 == k.ToS() then (k.ToS(), sc) else t[i])
  {
    var a := if shortcut.None? then Bare(k) else Shortcuts([(k, shortcut.value)]);
    assert (aliases + [a])[..|aliases|] == aliases;
    if shortcut.Some? {
      var pairs := [(k, shortcut.value)];
      assert pairs[..0] == [];
      assert ToH(pairs) == Put([], k.ToS(), Some(shortcut.value.ToS()));
      var h := ToH(pairs);
      assert h == [(k.ToS(), Some(shortcut.value.ToS()))];
      assert h[..0] == [];
      assert MergeInto(Normalize(aliases), h) == Put(Normalize(aliases), k.ToS(), Some(shortcut.value.ToS()));
    }
  }

  lemma ReversedPair<T>(x: T, y: T)
    ensures Reversed([x, y]) == [y, x]
  {
    var r := Reversed([x, y]);
    assert |r| == 2 && r[0] == y && r[1] == x;
  }

  /** Two bare namespaces, reversed: the later one comes first. */
  lemma TwoBareNamespaces(a: Key, b: Key)
    requires a.ToS() != b.ToS()
    ensures Reversed(Normalize([Bare(a), Bare(b)])) == [(b.ToS(), None), (a.ToS(), None)]
  {
    NormalizeTwoBare(a, b);
    ReversedPair<(string, Option<string>)>((a.ToS(), None), (b.ToS(), None));
  }

  lemma NormalizeTwoBare(a: Key, b: Key)
    requires a.ToS() != b.ToS()
    ensures Normalize([Bare(a), Bare(b)]) == [(a.ToS(), None), (b.ToS(), None)]
  {
    var one := [Bare(a)];
    var aliases := one + [Bare(b)];
    assert aliases == [Bare(a), Bare(b)];
    var t1: Table := [(a.ToS(), None)];
    assert Normalize(one) == t1 by {
      assert one[..0] == [];
      assert Normalize(one) == Step([], Bare(a)) == Put([], a.ToS(), None);
    }
    assert Normalize(aliases) == Step(t1, Bare(b)) by {
      assert aliases[..1] == one;
    }
    assert Step(t1, Bare(b)) == t1 + [(b.ToS(), None)] by {
      assert !Declares(t1, b.ToS());
      assert Step(t1, Bare(b)) == Put(t1, b.ToS(), None);
    }
  }

  /** With two bare namespaces, the one declared last is probed first: when
      both candidates are registered, the later namespace wins. */
  lemma LastDeclaredProbedFirst(storage: map<string, Entry>, a: Key, b: Key, key: string)
    requires a.ToS() != b.ToS()
    requires Join([a.ToS(), key], NamespaceSeparator) in storage && Join([b.ToS(), key], NamespaceSeparator) in storage
    ensures ResolvedKey(storage, Reversed(Normalize([Bare(a), Bare(b)])), key) == Join([b.ToS(), key], NamespaceSeparator)
  {
    TwoBareNamespaces(a, b);
    var t: Table := [(b.ToS(), None), (a.ToS(), None)];
    assert Candidate(t[0], key) in storage;
  }

  /** The first registered candidate is the one fetched; no later entry is
      tried. */
  /** The key `call` settles on is the first registered candidate. */
  lemma ResolvedKeyIsFirstRegistered(storage: map<string, Entry>, t: Table, key: string, i: nat)
    requires i < |t| && Candidate(t[i], key) in storage
    requires forall j :: 0 <= j < i ==> Candidate(t[j], key) !in storage
    ensures ResolvedKey(storage, t, key) == Candidate(t[i], key)
  {
    var first := FirstPresent(storage, t, key, 0);
    assert first == Some(i);
  }

  /** With no candidate registered, `call` fetches the key as it is given. */
  lemma ResolutionFallsBack(storage: map<string, Entry>, t: Table, key: Key)
    requires forall j :: 0 <= j < |t| ==> Candidate(t[j], key.ToS()) !in storage
    ensures Resolution(storage, t, key) == Fetched(storage, Str(key.ToS()))
  {
  }

  lemma FirstRegisteredWins(storage: map<string, Entry>, t: Table, key: Key, i: nat)
    requires i < |t| && Candidate(t[i], key.ToS()) in storage
    requires forall j :: 0 <= j < i ==> Candidate(t[j], key.ToS()) !in storage
    ensures Resolution(storage, t, key) == Fetched(storage, Str(Candidate(t[i], key.ToS())))
  {
    var first := FirstPresent(storage, t, key.ToS(), 0);
    assert first == Some(i);
  }

  /** A key registered with a block that returns `nil` resolves to `nil`,
      not to KeyError. */
  lemma ResolvesNil(storage: map<string, Entry>, t: Table, key: Key)
    requires forall j :: 0 <= j < |t| ==> Candidate(t[j], key.ToS()) !in storage
    requires key.ToS() !in storage
    ensures var s1 := Defined(storage, key, Some((n: nat) => Nil)).1;
      Resolution(s1, t, key).0 == Ok(Nil)
  {
    var s1 := Defined(storage, key, Some((n: nat) => Nil)).1;
    var first := FirstPresent(s1, t, key.ToS(), 0);
    if first.Some? {
      assert Candidate(t[first.value], key.ToS()) !in storage;
    }
    assert ResolvedKey(s1, t, key.ToS()) == key.ToS();
  }

  /** The segments of `s` between the `sep` characters (`split` keeping
      empty segments). */
  function Split(s: string, sep: char): (r: seq<string>)
    ensures |r| >= 1
    ensures forall i :: 0 <= i < |r| ==> sep !in r[i]
    ensures Join(r, [sep]) == s
    decreases |s|
  {
    if s == [] then [""]
    else
      var rest := Split(s[1..], sep);
      if s[0] == sep then
        assert ([""] + rest)[1..] == rest;
        [""] + rest
      else
        var r := [[s[0]] + rest[0]] + rest[1..];
        assert r[1..] == rest[1..];
        assert Join(r, [sep]) == s by {
          if |rest| > 1 {
            assert Join(rest, [sep]) == rest[0] + [sep] + Join(rest[1..], [sep]);
          }
        }
        r
  }

  /** A string without the separator is one segment. */
  lemma {:induction false} SplitWithoutSeparator(a: string, sep: char)
    requires sep !in a
    ensures Split(a, sep) == [a]
    decreases |a|
  {
    if a != [] {
      SplitWithoutSeparator(a[1..], sep);
      assert [a[0]] + a[1..] == a;
    }
  }

  /** A first segment without the separator splits off on its own. */
  lemma {:induction false} SplitFirstSegment(a: string, sep: char, b: string)
    requires sep !in a
    ensures Split(a + [sep] + b, sep) == [a] + Split(b, sep)
    decreases |a|
  {
    var s := a + [sep] + b;
    if a == [] {
      assert s[0] == sep && s[1..] == b;
    } else {
      assert s[0] == a[0] && s[1..] == a[1..] + [sep] + b;
      SplitFirstSegment(a[1..], sep, b);
      assert [a[0]] + a[1..] == a;
    }
  }

  /** `split` undoes `join` on segments without the separator: with the
      `ensures` of `Split`, the two are inverse. */
  lemma {:induction false} SplitJoin(segs: seq<string>, sep: char)
    requires |segs| >= 1 && forall i :: 0 <= i < |segs| ==> sep !in segs[i]
    ensures Split(Join(segs, [sep]), sep) == segs
    decreases |segs|
  {
    if |segs| == 1 {
      SplitWithoutSeparator(segs[0], sep);
    } else {
      var rest := segs[1..];
      assert forall i :: 0 <= i < |rest| ==> sep !in rest[i] by {
        assert forall i :: 0 <= i < |rest| ==> rest[i] == segs[i + 1];
      }
      SplitJoin(rest, sep);
      SplitFirstSegment(segs[0], sep, Join(rest, [sep]));
      assert [segs[0]] + rest == segs;
    }
  }

  /** Each segment equal to `shortcut` becomes `namespace`. */
  function ReplaceSegments(segs: seq<string>, shortcut: string, namespace: string): (r: seq<string>)
    ensures |r| == |segs|
    ensures shortcut !in segs ==> r == segs
    ensures namespace != shortcut ==> shortcut !in r
    ensures forall s :: s in r ==> s in segs || s == namespace
  {
    seq(|segs|, i requires 0 <= i < |segs| => if segs[i] == shortcut then namespace else segs[i])
  }

  /** The candidate key with a shortcut replaced segment by segment, the
      way the alias examples expect. */
  function SegmentCandidate(entry: (string, Option<string>), key: string): string
  {
    match entry.1
    case None => Join([entry.0, key], NamespaceSeparator)
    case Some(shortcut) => Join(ReplaceSegments(Split(key, '.'), shortcut, entry.0), NamespaceSeparator)
  }

  /** Every segment is the shortcut itself or does not contain it. */
  predicate WholeSegmentsOnly(segs: seq<string>, shortcut: string) {
    forall i :: 0 <= i < |segs| ==> segs[i] == shortcut || !Contains(segs[i], shortcut)
  }

  /** `gsub` agrees with segment-wise replacement when the shortcut has no
      dot and each segment is either the shortcut or free of it. */
  lemma {:induction false} GsubAgreesOnWholeSegments(segs: seq<string>, shortcut: string, namespace: string)
    requires |segs| >= 1 && |shortcut| > 0 && '.' !in shortcut && WholeSegmentsOnly(segs, shortcut)
    ensures ReplaceAll(Join(segs, "."), shortcut, namespace) == Join(ReplaceSegments(segs, shortcut, namespace), ".")
    decreases |segs|
  {
    var first := if segs[0] == shortcut then namespace else segs[0];
    assert ReplaceAll(segs[0], shortcut, namespace) == first by {
      if segs[0] == shortcut {
        ReplaceAllWhole(shortcut, namespace);
      } else {
        ReplaceAllAbsent(segs[0], shortcut, namespace);
      }
    }
    if |segs| > 1 {
      var rest := segs[1..];
      assert WholeSegmentsOnly(rest, shortcut) by {
        forall i | 0 <= i < |rest| ensures rest[i] == shortcut || !Contains(rest[i], shortcut) {
          assert rest[i] == segs[i + 1];
        }
      }
      GsubAgreesOnWholeSegments(rest, shortcut, namespace);
      assert Join(segs, ".") == segs[0] + ['.'] + Join(rest, ".");
      ReplaceAllAroundSeparator(segs[0], '.', Join(rest, "."), shortcut, namespace);
      var replaced := ReplaceSegments(segs, shortcut, namespace);
      assert replaced[1..] == ReplaceSegments(rest, shortcut, namespace);
    }
  }

  /** So the as-written candidate is the segment-wise one on every key whose
      segments hold the shortcut only as whole segments. */
  lemma CandidateAgreesOnWholeSegments(entry: (string, Option<string>), key: string)
    requires entry.1.Some? ==> |entry.1.value| > 0 && '.' !in entry.1.value
    requires entry.1.Some? ==> WholeSegmentsOnly(Split(key, '.'), entry.1.value)
    ensures Candidate(entry, key) == SegmentCandidate(entry, key)
  {
    if entry.1.Some? {
      GsubAgreesOnWholeSegments(Split(key, '.'), entry.1.value, entry.0);
    }
  }

  /** An alias in the middle of a key, as in `root.alias.key`. */
  lemma ShortcutInTheMiddle(before: string, shortcut: string, after: string, namespace: string)
    requires |shortcut| > 0 && '.' !in shortcut && !Contains(before, shortcut) && !Contains(after, shortcut)
    ensures Candidate((namespace, Some(shortcut)), before + "." + shortcut + "." + after) == before + "." + namespace + "." + after
  {
    assert OccursAt(shortcut, shortcut, 0);
    assert before != shortcut && after != shortcut;
    var segs := [before, shortcut, after];
    assert segs[1..] == [shortcut, after] && segs[1..][1..] == [after];
    assert Join(segs[1..][1..], ".") == after;
    assert Join(segs[1..], ".") == shortcut + "." + after;
    assert Join(segs, ".") == before + "." + shortcut + "." + after;
    assert WholeSegmentsOnly(segs, shortcut);
    var replaced := ReplaceSegments(segs, shortcut, namespace);
    assert replaced == [before, namespace, after];
    assert replaced[1..] == [namespace, after] && replaced[1..][1..] == [after];
    assert Join(replaced[1..][1..], ".") == after;
    assert Join(replaced[1..], ".") == namespace + "." + after;
    assert Join(replaced, ".") == before + "." + namespace + "." + after;
    GsubAgreesOnWholeSegments(segs, shortcut, namespace);
  }

  /** `"m.map".gsub("m", "app.math")` also rewrites the `m` inside `map`. */
  lemma GsubRewritesInsideSegments()
    ensures ReplaceAll("m.map", "m", "app.math") == "app.math.app.mathap"
  {
    ReplaceAllAroundSeparator("m", '.', "map", "m", "app.math");
    ReplaceAllWhole("m", "app.math");
    assert "m.map" == "m" + ['.'] + "map";
    assert ReplaceAll("map", "m", "app.math") == "app.math" + ReplaceAll("ap", "m", "app.math");
    assert ReplaceAll("ap", "m", "app.math") == "a" + ReplaceAll("p", "m", "app.math");
    assert ReplaceAll("p", "m", "app.math") == "p" + ReplaceAll("", "m", "app.math");
  }

  /** As written, a shortcut at the start of a key is not resolved when the
      shortcut also occurs inside a later segment: with only `app.math.map`
      registered and `"app.math" => "m"`, `call("m.map")` raises KeyError. */
  lemma AliasAtBeginningNotResolved(block: Definition)
    ensures Reversed(Normalize([Shortcuts([(Str("app.math"), Str("m"))])])) == [("app.math", Some("m"))]
    ensures var storage := Defined(map[], Str("app.math.map"), Some(block)).1;
      Resolution(storage, [("app.math", Some("m"))], Str("m.map")) == (Err(KeyError), storage)
  {
    OneShortcut(Str("app.math"), Str("m"));
    SingleDefinition("app.math.map", block);
    ShortKeyNotResolved(Defined(map[], Str("app.math.map"), Some(block)).1);
  }

  /** One definition in an empty container: a storage with that one key. */
  lemma SingleDefinition(key: string, block: Definition)
    ensures Defined(map[], Str(key), Some(block)).1.Keys == {key}
  {
    assert Str(key).ToS() == key;
  }

  /** With only `app.math.map` registered, `call("m.map")` under the table
      `"app.math" => "m"` raises KeyError. */
  lemma ShortKeyNotResolved(storage: map<string, Entry>)
    requires storage.Keys == {"app.math.map"}
    ensures Resolution(storage, [("app.math", Some("m"))], Str("m.map")) == (Err(KeyError), storage)
  {
    ShortKeyNotProbed(storage);
    assert Str("m.map").ToS() == "m.map";
    assert "m.map" !in storage by {
      assert |"m.map"| != |"app.math.map"|;
    }
  }

  /** With only `app.math.map` registered, the table `"app.math" => "m"`
      leaves `m.map` as it is. */
  lemma ShortKeyNotProbed(storage: map<string, Entry>)
    requires storage.Keys == {"app.math.map"}
    ensures ResolvedKey(storage, [("app.math", Some("m"))], "m.map") == "m.map"
  {
    var t: Table := [("app.math", Some("m"))];
    GsubRewritesInsideSegments();
    assert Candidate(t[0], "m.map") == "app.math.app.mathap";
    assert Candidate(t[0], "m.map") !in storage by {
      assert |"app.math.app.mathap"| != |"app.math.map"|;
    }
    assert FirstPresent(storage, t, "m.map", 1) == None;
    assert FirstPresent(storage, t, "m.map", 0) == None;
  }

  /** A single Hash alias with one pair gives a one-entry table. */
  lemma OneShortcut(namespace: Key, shortcut: Key)
    ensures Reversed(Normalize([Shortcuts([(namespace, shortcut)])])) == [(namespace.ToS(), Some(shortcut.ToS()))]
  {
    var entry := (namespace.ToS(), Some(shortcut.ToS()));
    OnePairHash(namespace, shortcut);
    var aliases := [Shortcuts([(namespace, shortcut)])];
    assert aliases[..0] == [];
    assert Normalize(aliases) == MergeInto([], [entry]);
    MergeOneIntoEmpty(entry);
    assert Reversed([entry]) == [entry];
  }

  /** `{ns => sc}.map { ... }.to_h` has the one entry. */
  lemma OnePairHash(namespace: Key, shortcut: Key)
    ensures ToH([(namespace, shortcut)]) == [(namespace.ToS(), Some(shortcut.ToS()))]
  {
    var pairs := [(namespace, shortcut)];
    assert pairs[..0] == [];
    PutIntoEmpty(namespace.ToS(), Some(shortcut.ToS()));
  }

  lemma MergeOneIntoEmpty(entry: (string, Option<string>))
    ensures MergeInto([], [entry]) == [entry]
  {
    assert [entry][..0] == [];
    PutIntoEmpty(entry.0, entry.1);
  }

  lemma PutIntoEmpty(ns: string, sc: Option<string>)
    ensures Put([], ns, sc) == [(ns, sc)]
  {
    assert !Declares([], ns);
  }

  /** Replaced segment by segment, the same key becomes `app.math.map`. */
  lemma SegmentCandidateAtBeginning()
    ensures SegmentCandidate(("app.math", Some("m")), "m.map") == "app.math.map"
  {
    var segs := Split("m.map", '.');
    SplitOfShortKey();
    var replaced := ReplaceSegments(segs, "m", "app.math");
    assert |replaced| == 2 && replaced[0] == "app.math" by {
      assert segs[0] == "m";
    }
    assert replaced[1] == "map" by {
      assert segs[1] == "map" && |segs[1]| != |"m"|;
    }
    assert replaced == ["app.math", "map"];
    assert replaced[1..] == ["map"];
  }

  /** As written, `"core.m.map".gsub("m", "app.math")` rewrites the `m`
      segment and also the `m` inside `map`. */
  lemma GsubRewritesMiddleKey()
    ensures Candidate(("app.math", Some("m")), "core.m.map") == "core" + "." + "app.math.app.mathap"
  {
    GsubMiddleKey();
  }

  lemma GsubMiddleKey()
    ensures ReplaceAll("core.m.map", "m", "app.math") == "core" + "." + "app.math.app.mathap"
  {
    ReplaceAllAroundSeparator("core", '.', "m.map", "m", "app.math");
    assert "core.m.map" == "core" + ['.'] + "m.map";
    GsubKeepsSegment();
    GsubRewritesInsideSegments();
  }

  /** `"core".gsub("m", "app.math")` is `"core"`. */
  lemma GsubKeepsSegment()
    ensures ReplaceAll("core", "m", "app.math") == "core"
  {
    assert ReplaceAll("core", "m", "app.math") == "c" + ReplaceAll("ore", "m", "app.math");
    assert ReplaceAll("ore", "m", "app.math") == "o" + ReplaceAll("re", "m", "app.math");
    assert ReplaceAll("re", "m", "app.math") == "r" + ReplaceAll("e", "m", "app.math");
    assert ReplaceAll("e", "m", "app.math") == "e" + ReplaceAll("", "m", "app.math");
  }

  /** As written, an alias in the middle of a key is not resolved when the
      shortcut also occurs inside a later segment: with only
      `core.app.math.map` registered and `"app.math" => "m"`,
      `call("core.m.map")` raises KeyError. */
  lemma AliasInTheMiddleNotResolved(block: Definition)
    ensures var storage := Defined(map[], Str("core.app.math.map"), Some(block)).1;
      Resolution(storage, [("app.math", Some("m"))], Str("core.m.map")) == (Err(KeyError), storage)
  {
    SingleDefinition("core.app.math.map", block);
    MiddleKeyNotResolved(Defined(map[], Str("core.app.math.map"), Some(block)).1);
  }

  lemma MiddleKeyNotResolved(storage: map<string, Entry>)
    requires storage.Keys == {"core.app.math.map"}
    ensures Resolution(storage, [("app.math", Some("m"))], Str("core.m.map")) == (Err(KeyError), storage)
  {
    var t: Table := [("app.math", Some("m"))];
    GsubRewritesMiddleKey();
    assert Candidate(t[0], "core.m.map") !in storage by {
      assert |"core" + "." + "app.math.app.mathap"| != |"core.app.math.map"|;
    }
    assert Str("core.m.map").ToS() !in storage by {
      assert |"core.m.map"| != |"core.app.math.map"|;
    }
  }

  /** Replaced segment by segment, `core.m.map` becomes
      `core.app.math.map`. */
  lemma SegmentCandidateInTheMiddle()
    ensures SegmentCandidate(("app.math", Some("m")), "core.m.map") == "core.app.math.map"
  {
    SplitOfMiddleKey();
    ReplacedMiddleKey();
    JoinOfThree("core", "app.math", "map");
    MiddleKeyJoined();
  }

  lemma MiddleKeyJoined()
    ensures "core" + "." + "app.math" + "." + "map" == "core.app.math.map"
  {
  }

  /** Only the segment `m` of `core.m.map` is the shortcut. */
  lemma ReplacedMiddleKey()
    ensures ReplaceSegments(["core", "m", "map"], "m", "app.math") == ["core", "app.math", "map"]
  {
    var segs := ["core", "m", "map"];
    assert segs[0] != "m" && segs[2] != "m" by {
      assert |segs[0]| != |"m"| && |segs[2]| != |"m"|;
    }
  }

  /** The segments of `core.m.map`. */
  lemma SplitOfMiddleKey()
    ensures Split("core.m.map", '.') == ["core", "m", "map"]
  {
    var segs := ["core", "m", "map"];
    JoinOfThree("core", "m", "map");
    assert "core" + "." + "m" + "." + "map" == "core.m.map";
    assert '.' !in segs[0] && '.' !in segs[1] && '.' !in segs[2];
    SplitJoin(segs, '.');
  }

  lemma JoinOfThree(a: string, b: string, c: string)
    ensures Join([a, b, c], ".") == a + "." + b + "." + c
  {
    var segs := [a, b, c];
    assert segs[1..] == [b, c] && segs[1..][1..] == [c];
    assert Join([c], ".") == c;
    assert Join([b, c], ".") == b + "." + c;
  }

  /** The segments of `m.map`. */
  lemma SplitOfShortKey()
    ensures Split("m.map", '.') == ["m", "map"]
  {
    assert "p"[1..] == "" && Split("p", '.') == ["p"];
    assert "ap"[1..] == "p" && Split("ap", '.') == ["ap"];
    assert "map"[1..] == "ap" && Split("map", '.') == ["map"];
    assert ".map"[1..] == "map" && Split(".map", '.') == ["", "map"];
    assert "m.map"[1..] == ".map" && "m.map"[0] != '.';
    var rest := Split(".map", '.');
    assert rest[1..] == ["map"] && ['m'] + rest[0] == "m";
    assert Split("m.map", '.') == [['m'] + rest[0]] + rest[1..];
  }
}
