/**
  `FunRuby::Container::DefinitionPath`
  (lib/fun_ruby/container/definition_path.rb): a definition path and
  whether it has been loaded. Both are fixed at construction.
 */
module DefinitionPaths {

  datatype DefinitionPath = DefinitionPath(path: string, loaded: bool)
  {
    /** `loaded?`: the flag given to the constructor. */
    function Loaded(): bool
    {
      loaded
    }
  }

  /** `eql?`: the same path, whatever the loaded state. */
  function Eql(a: DefinitionPath, b: DefinitionPath): bool
  {
    a.path == b.path
  }

  /** `==`: `eql?` and the same loaded state, that is, the same value. */
  function Equals(a: DefinitionPath, b: DefinitionPath): (r: bool)
    ensures r ==> Eql(a, b)
    ensures r <==> a == b
  {
    Eql(a, b) && a.Loaded() == b.Loaded()
  }

  /** `hash`: the hash of the path. `String#hash` is a parameter. */
  function Hash(a: DefinitionPath, stringHash: string -> int): (r: int)
    ensures forall b: DefinitionPath :: Eql(a, b) ==> r == stringHash(b.path)
  {
    stringHash(a.path)
  }

  /** Objects that are `eql?` hash alike, so `eql?` and `hash` make a
      consistent Hash key. */
  lemma HashAgreesWithEql(a: DefinitionPath, b: DefinitionPath, stringHash: string -> int)
    requires Eql(a, b)
    ensures Hash(a, stringHash) == Hash(b, stringHash)
  {
  }

  /** `eql?` is an equivalence. */
  lemma EqlIsEquivalence(a: DefinitionPath, b: DefinitionPath, c: DefinitionPath)
    ensures Eql(a, a)
    ensures Eql(a, b) ==> Eql(b, a)
    ensures Eql(a, b) && Eql(b, c) ==> Eql(a, c)
  {
  }

  /** Two paths that differ only in the loaded state are `eql?` but not
      `==`. */
  lemma LoadedStateSeparates(path: string)
    ensures Eql(DefinitionPath(path, true), DefinitionPath(path, false))
    ensures !Equals(DefinitionPath(path, true), DefinitionPath(path, false))
  {
  }
}
