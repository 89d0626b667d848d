/**
  `FunRuby::Container` (lib/fun_ruby/container.rb): a registry of lazily
  evaluated definitions under string keys.

  A definition is a Ruby block. What it returns may differ from one run to
  the next, so it is modelled as the value of its `n`-th run (counting from
  0), and each entry counts how often its block has run. That counter is
  not in the Ruby object; it is what lets the model say when `fetch` runs a
  block and when it does not.
 */
module ContainerStore {
  import opened Ruby

  /** `NAMESPACE_SEPARATOR`. */
  const NamespaceSeparator: string := "."

  /** A block: the value it returns on its `n`-th run. */
  type Definition = nat -> Value

  /** The meta hash of one key: the block, the cached `value`, and the
      number of runs of the block so far. */
  datatype Entry = Entry(definition: Definition, value: Value, runs: nat)

  /** `init_meta(block)`: the block, not run, and no cached value. */
  function Unevaluated(definition: Definition): Entry
  {
    Entry(definition, Nil, 0)
  }

  /**
    `define(key, &block)` on a storage: the duplicate check comes first and
    raises KeyError, then a missing block raises TypeError; otherwise the
    key gets the block, unevaluated. Only that key changes.
   */
  function Defined(storage: map<string, Entry>, key: Key, block: Option<Definition>): (r: (Status, map<string, Entry>))
    ensures r.0 == Success <==> key.ToS() !in storage && block.Some?
    ensures key.ToS() in storage ==> r.0 == Failure(KeyError)
    ensures key.ToS() !in storage && block.None? ==> r.0 == Failure(TypeError)
    ensures r.0.Failure? ==> r.1 == storage
    ensures r.0 == Success ==> r.1.Keys == storage.Keys + {key.ToS()} && r.1[key.ToS()] == Unevaluated(block.value)
    ensures forall k :: k in storage && k != key.ToS() ==> k in r.1 && r.1[k] == storage[k]
  {
    var k := key.ToS();
    if k in storage then (Failure(KeyError), storage)
    else if block.None? then (Failure(TypeError), storage)
    else (Success, storage[k := Unevaluated(block.value)])
  }

  /**
    `fetch(key)` on a storage: an unknown key raises KeyError and changes
    nothing. A truthy cached value is returned as it is, without running the
    block. Otherwise (`||=` on `nil` or `false`) the block runs once more and
    its result, whatever it is, is cached and returned. Only that key
    changes, and its block stays.
   */
  function Fetched(storage: map<string, Entry>, key: Key): (r: (Result<Value>, map<string, Entry>))
    ensures r.0.Err? <==> key.ToS() !in storage
    ensures r.0.Err? ==> r == (Err(KeyError), storage)
    ensures r.1.Keys == storage.Keys
    ensures forall k :: k in storage && k != key.ToS() ==> r.1[k] == storage[k]
    ensures key.ToS() in storage ==>
      var e := storage[key.ToS()];
      && r.0 == Ok(r.1[key.ToS()].value)
      && r.1[key.ToS()].definition == e.definition
      && (Truthy(e.value) ==> r == (Ok(e.value), storage))
      && (!Truthy(e.value) ==> r.0 == Ok(e.definition(e.runs)) && r.1[key.ToS()].runs == e.runs + 1)
  {
    var k := key.ToS();
    if k !in storage then (Err(KeyError), storage)
    else
      var e := storage[k];
      if Truthy(e.value) then (Ok(e.value), storage)
      else
        var v := e.definition(e.runs);
        (Ok(v), storage[k := e.(value := v, runs := e.runs + 1)])
  }

  /** `n` fetches of one key in a row: the last result and the storage
      after them. */
  function Fetches(storage: map<string, Entry>, key: Key, n: nat): (r: (Result<Value>, map<string, Entry>))
    requires n >= 1
    ensures r.1.Keys == storage.Keys
    ensures forall k :: k in storage && k != key.ToS() ==> r.1[k] == storage[k]
    ensures r.0.Err? <==> key.ToS() !in storage
    ensures key.ToS() in storage ==> r.0 == Ok(r.1[key.ToS()].value) && r.1[key.ToS()].definition == storage[key.ToS()].definition
    decreases n
  {
    if n == 1 then Fetched(storage, key)
    else Fetched(Fetches(storage, key, n - 1).1, key)
  }

  class Container {
    var storage: map<string, Entry>

    /** `Container.new`: an empty registry. */
    constructor ()
      ensures storage == map[]
    {
      storage := map[];
    }

    /** `define(key, &block)`. */
    method Define(key: Key, block: Option<Definition>) returns (s: Status)
      modifies this
      ensures (s, storage) == Defined(old(storage), key, block)
    {
      var k := key.ToS();
      if k in storage {
        return Failure(KeyError);
      }
      if block.None? {
        return Failure(TypeError);
      }
      storage := storage[k := Unevaluated(block.value)];
      s := Success;
    }

    /** `fetch(key)`. */
    method Fetch(key: Key) returns (r: Result<Value>)
      modifies this
      ensures (r, storage) == Fetched(old(storage), key)
    {
      var k := key.ToS();
      if k !in storage {
        return Err(KeyError);
      }
      var meta := storage[k];
      if Truthy(meta.value) {
        return Ok(meta.value);
      }
      var v := meta.definition(meta.runs);
      storage := storage[k := meta.(value := v, runs := meta.runs + 1)];
      r := Ok(v);
    }
  }

  /** `:sum` and `"sum"` are one key for both operations. */
  lemma SymbolAndStringAgree(storage: map<string, Entry>, name: string, block: Option<Definition>)
    ensures Defined(storage, Sym(name), block) == Defined(storage, Str(name), block)
    ensures Fetched(storage, Sym(name)) == Fetched(storage, Str(name))
  {
    assert Sym(name).ToS() == Str(name).ToS();
  }

  /** A key defined twice keeps its first block: the second `define`
      raises KeyError and a later `fetch` runs the first block. */
  lemma DuplicateKeepsFirst(storage: map<string, Entry>, key: Key, first: Definition, second: Option<Definition>)
    requires key.ToS() !in storage
    ensures var s1 := Defined(storage, key, Some(first)).1;
      && Defined(s1, key, second) == (Failure(KeyError), s1)
      && Fetched(s1, key).0 == Ok(first(0))
  {
  }

  /** After the first run of a block whose result is truthy, every later
      `fetch` returns that result and the block does not run again. */
  lemma {:induction false} TruthyRunsOnce(storage: map<string, Entry>, key: Key, n: nat)
    requires key.ToS() in storage && storage[key.ToS()].runs == 0 && storage[key.ToS()].value == Nil
    requires Truthy(storage[key.ToS()].definition(0))
    requires n >= 1
    ensures var e := storage[key.ToS()];
      Fetches(storage, key, n) == (Ok(e.definition(0)), storage[key.ToS() := e.(value := e.definition(0), runs := 1)])
    decreases n
  {
    if n > 1 {
      TruthyRunsOnce(storage, key, n - 1);
    }
  }

  /** A block whose results are all falsy runs on every `fetch`. */
  lemma {:induction false} FalsyRunsEveryTime(storage: map<string, Entry>, key: Key, n: nat)
    requires key.ToS() in storage && !Truthy(storage[key.ToS()].value)
    requires forall i: nat :: !Truthy(storage[key.ToS()].definition(i))
    requires n >= 1
    ensures var r := Fetches(storage, key, n);
      var e := storage[key.ToS()];
      && r.1[key.ToS()].runs == e.runs + n
      && r.0 == Ok(e.definition(e.runs + n - 1))
      && !Truthy(r.1[key.ToS()].value)
      && r.1[key.ToS()].definition == e.definition
    decreases n
  {
    if n > 1 {
      FalsyRunsEveryTime(storage, key, n - 1);
    }
  }

  /**
    The exact number of runs: a freshly defined block whose first truthy
    result comes on run `m` has run `min(n, m + 1)` times after `n`
    fetches, and the last fetch returned the result of the last run.
   */
  lemma {:induction false} RunsUntilTruthy(storage: map<string, Entry>, key: Key, m: nat, n: nat)
    requires key.ToS() in storage && storage[key.ToS()].runs == 0 && storage[key.ToS()].value == Nil
    requires forall i: nat :: i < m ==> !Truthy(storage[key.ToS()].definition(i))
    requires Truthy(storage[key.ToS()].definition(m))
    requires n >= 1
    ensures var r := Fetches(storage, key, n);
      var runs := if n <= m + 1 then n else m + 1;
      var e := storage[key.ToS()];
      && r.1[key.ToS()].runs == runs
      && r.0 == Ok(e.definition(runs - 1))
      && r.1[key.ToS()].definition == e.definition
      && (n <= m ==> !Truthy(r.1[key.ToS()].value))
      && (n > m ==> r.1[key.ToS()].value == e.definition(m))
    decreases n
  {
    if n > 1 {
      RunsUntilTruthy(storage, key, m, n - 1);
    }
  }

  /** A fresh definition, fetched: its block runs once, on run 0. */
  lemma DefineThenFetch(storage: map<string, Entry>, key: Key, block: Definition)
    requires key.ToS() !in storage
    ensures var s1 := Defined(storage, key, Some(block)).1;
      var r := Fetched(s1, key);
      && r.0 == Ok(block(0)) && r.1[key.ToS()].runs == 1
      && (Truthy(block(0)) ==> Fetched(r.1, key) == (Ok(block(0)), r.1))
  {
  }

  /** A block that returns `nil` is registered and fetches as `nil`: a nil
      definition is not an unknown key. */
  lemma NilDefinitionFetchesNil(storage: map<string, Entry>, key: Key)
    requires key.ToS() !in storage
    ensures var s1 := Defined(storage, key, Some((i: nat) => Nil)).1;
      Fetched(s1, key).0 == Ok(Nil)
  {
  }
}
