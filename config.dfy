/**
  `FunRuby::Container::Config` (lib/fun_ruby/container/config.rb): the
  override flag of a container, fixed at construction. The flag is any
  Ruby value.
 */
module ContainerConfig {
  import opened Ruby

  datatype Config = Config(override: Value)

  /** `Config.new(override: false)`: the flag given, `false` when none is. */
  function New(override: Option<Value>): Config
  {
    Config(if override.None? then Bool(false) else override.value)
  }

  /** `can_override?`: the flag as it was given. */
  function CanOverride(c: Config): Value
  {
    c.override
  }

  /** `cant_override?`: `!can_override?`. */
  function CantOverride(c: Config): bool
  {
    !Truthy(CanOverride(c))
  }

  /** `can_override?` answers exactly the `override:` value given. */
  lemma OverrideRoundTrip(flag: Value)
    ensures CanOverride(New(Some(flag))) == flag
  {
  }

  /** A default configuration does not allow overriding. */
  lemma DefaultCannotOverride()
    ensures CanOverride(New(None)) == Bool(false) && CantOverride(New(None))
  {
  }

  /** Exactly one of the two questions is answered truthily. */
  lemma QuestionsAreComplementary(flag: Value)
    ensures Truthy(CanOverride(New(Some(flag)))) != CantOverride(New(Some(flag)))
  {
  }
}
