# fun-ruby core in Dafny

This project models the core of fun-ruby, a Ruby library for functional programming. It covers four parts:

- **The placeholder curry engine** of `FunRuby::Function`: `curry`, `handling_placeholders`, `apply_arg` and `bisect_args`, plus `pipe` and `compose` built on top of it.
- **The legacy engine** of `FunRuby::Core` (`_curried`, `_handler`). It merges placeholders differently.
- **`FunRuby::Curried::Function`**: a curried function that keeps its parameters by name and checks each value against an optional rule.
- **The dependency container**:
  - `Container`: `define` and a lazy, memoising `fetch`.
  - `Container::Resolve`: the alias table and the lookup through it.
  - `Container::Define`: the namespace DSL.
  - `Container::DefinitionPath` and `Container::Config`.

Files and modules:

| file | module | what |
|---|---|---|
| `ruby.dfy` | `Ruby` | Ruby values used across the model. `Option`, `Result` and the raised errors. Symbol/string keys with `to_s`. Truthiness (`nil` and `false` are falsy). `Array#join`, `Array#reverse`, `String#gsub` with a string pattern. |
| `slots.dfy` | `Slots` | An argument slot is a value or the placeholder `F._`. `Callee` is what `Proc#curry` gives: an arity, a body and the arguments bound so far. |
| `curry.dfy` | `Curry` | `function.rb`. |
| `core.dfy` | `Core` | `core.rb`. `_handler`'s merge loop is an imperative method proved against a fold. |
| `curried_function.dfy` | `CurriedFunction` | `curried/function.rb`. |
| `container.dfy` | `ContainerStore` | `container.rb`, a class over a `map` storage. |
| `resolve.dfy` | `ContainerResolve` | `container/resolve.rb`, a class whose `Call` loops over the table. |
| `define.dfy` | `ContainerDefine` | `container/define.rb`, a class. A DSL block is a script of `namespace`/`function` statements. |
| `definition_path.dfy` | `DefinitionPaths` | `container/definition_path.rb`. |
| `config.dfy` | `ContainerConfig` | `container/config.rb`. |

A container definition is a Ruby block, and each run may give a different value. The model therefore takes a block as a function from the run number to a value. Each storage entry counts how often its block has run. Ruby has no such counter; it exists so that the contracts can say when `fetch` runs a block and when it does not.

A callable value (`respond_to?(:call)`, `is_a?(Proc)`) is abstracted as a predicate `isCallable` on values.

Two facts about the container code shape the model:

- **A block runs until it gives a truthy value.** `fetch` caches with `||=` (`lib/fun_ruby/container.rb:35`). `||=` assigns again whenever the cached value is `nil` or `false`, so a block whose result is `nil` or `false` runs again on every `fetch`. See `ContainerStore.FalsyRunsEveryTime` and `ContainerStore.RunsUntilTruthy`.
- **`define` never reads `Config`.** `Container#define` (`lib/fun_ruby/container.rb:22-29`) raises KeyError for a known key whatever the configuration. `Config` is modelled on its own.

## Model

| member | source | states |
|---|---|---|
| Ruby.JoinSnoc | lib/fun_ruby/container/define.rb:33 | `[*parts, last].join(sep)` is `parts.join(sep) + sep + last` for a non-empty `parts` |
| Ruby.Reversed | lib/fun_ruby/container/resolve.rb:18 | `reverse` keeps the length and puts element `i` at position `n-1-i` |
| Ruby.ReplaceAll | lib/fun_ruby/container/resolve.rb:31 | `gsub` with a replacement equal to the pattern gives the string back |
| Ruby.ReplaceAllAbsent | lib/fun_ruby/container/resolve.rb:31 | `gsub` leaves a string that does not contain the pattern unchanged |
| Ruby.ReplaceAllWhole | lib/fun_ruby/container/resolve.rb:31 | `gsub` of a string by itself gives the replacement |
| Ruby.ReplaceAllKeepsFirst | lib/fun_ruby/container/resolve.rb:31 | `gsub` scans left to right: a first character that starts no match is kept and the scan goes on after it |
| Ruby.ReplaceAllMatchesFirst | lib/fun_ruby/container/resolve.rb:31 | a match at the front is replaced and the scan resumes after the whole match (matches do not overlap) |
| Ruby.ReplaceAllAroundSeparator | lib/fun_ruby/container/resolve.rb:31 | a pattern without the separator character rewrites each side of a separator on its own |
| Ruby.SeparatorMatchAtFront | lib/fun_ruby/container/resolve.rb:31 | the case of `ReplaceAllAroundSeparator` where the pattern matches at the front |
| Ruby.SeparatorCharAtFront | lib/fun_ruby/container/resolve.rb:31 | the case of `ReplaceAllAroundSeparator` where the front character is kept |
| Slots.FirstHoleFrom | lib/fun_ruby/function.rb:137 | `processed_args[shift..-1].index(F._)`: the first placeholder at or after `shift`, everything before it concrete; `None` exactly when there is no placeholder from `shift` on |
| Slots.Payloads | lib/fun_ruby/function.rb:128-129 | the values of a slot list without placeholders, position by position |
| Slots.AsSlots | lib/fun_ruby/function.rb:128-129 | wrapping concrete arguments as slots and unwrapping them again gives the same arguments |
| Slots.AsSlotsOfPayloads | lib/fun_ruby/function.rb:128-129 | the other half of the round trip: a slot list without placeholders is the wrapping of its own values |
| Slots.InvokeInTwoCalls | lib/fun_ruby/function.rb:129 | a `Proc#curry` lambda fed in two calls behaves as one call with all the arguments: the lambda the first call leaves raises, runs or waits exactly as the single call does |
| Curry.ApplyArg | lib/fun_ruby/function.rb:135-146 | one step of the `reduce`: the argument fills the first placeholder at or after `shift` and the shift moves past it; with no such placeholder it is appended and the shift becomes the new size; nothing else changes |
| Curry.ApplyArgs | lib/fun_ruby/function.rb:127 | the `reduce` adds at most one slot per argument and never removes one; after at least one argument the cursor lies inside the list |
| Curry.Merge | lib/fun_ruby/function.rb:127 | the merged list keeps every concrete value, old and new, as a multiset, and has at most one more slot per argument |
| Curry.ApplyArgsKeepsValues | lib/fun_ruby/function.rb:127 | the `reduce` loses no argument: the multiset of values after the merge is the old one plus the new arguments |
| Curry.ApplyArgsAtEnd | lib/fun_ruby/function.rb:142-145 | with the shift at the end every argument is appended in order |
| Curry.Bisect | lib/fun_ruby/function.rb:148-155 | `bisect_args` splits the list, `values + placeholders == args`; `values` holds no placeholder; the rest is empty or starts with one |
| Curry.BisectUnique | lib/fun_ruby/function.rb:148-155 | that split is the only one with those properties |
| Curry.HandlingPlaceholders | lib/fun_ruby/function.rb:126-133 | the outcome of one call, with the merge split at its first placeholder into values and rest. ArgumentError is raised exactly when the bound arguments and the values exceed the arity, and no other error is raised. A finished or rewrapped result is the body on the bound arguments followed by the values, which then fill the arity exactly. A non-callable result is returned and a callable one is rewrapped. A rewrapped or pending closure keeps exactly the rest as its slots. A pending lambda has the values bound after the old arguments |
| Curry.Curry | lib/fun_ruby/function.rb:105-107 | `curry(function)` of a positive arity gives a closure with no slots; arity 0 runs at once |
| Curry.CallWithoutArgumentsKeepsClosure | lib/fun_ruby/function.rb:126-132 | calling a pending closure with no arguments changes nothing |
| Curry.ConcreteCall | lib/fun_ruby/function.rb:126-133 | a call with only concrete arguments binds them all, runs the body when they complete the arity, and raises ArgumentError when they exceed it |
| Curry.TrailingPlaceholderDropped | lib/fun_ruby/function.rb:126-133 | `curried.(1, 2, 3, F._)` on a 3-ary function runs the body on `1, 2, 3`; the trailing placeholder survives only as the slot list of a callable result |
| Curry.ConcreteCallsAgreeWithDirectCall | lib/fun_ruby/function.rb:98-99 | any split of the arguments into calls without placeholders gives the same value as one call with all of them |
| Curry.PlaceholderReReservesHole | lib/fun_ruby/function.rb:137-141 | a placeholder passed into a placeholder keeps that position open: `[_, _, c]` merged with `(_, b)` is `[_, b, c]` |
| Curry.DocumentedOrderings | lib/fun_ruby/function.rb:93-104 | every documented way of calling `curry.(build_ary)` gives `build_ary(a, b, c)` |
| Curry.OneCallOfThree | lib/fun_ruby/function.rb:98 | `curried.(a, b, c)` gives the body on `a, b, c` |
| Curry.ThreeCallsOfOne | lib/fun_ruby/function.rb:99 | `curried.(a).(b).(c)` gives the body on `a, b, c` |
| Curry.HolesFirstThenValue | lib/fun_ruby/function.rb:100 | `curried.(_, b).(_, c).(a)` gives the body on `a, b, c` |
| Curry.HoleKeptForLastCall | lib/fun_ruby/function.rb:101 | `curried.(_, b, _).(a).(c)` gives the body on `a, b, c` |
| Curry.HoleReReservedThenValue | lib/fun_ruby/function.rb:102 | `curried.(_, _, c).(_, b).(a)` gives the body on `a, b, c` |
| Curry.TwoHolesOneCall | lib/fun_ruby/function.rb:103-104 | `curried.(_, b, _).(a, c)` gives the body on `a, b, c` |
| Curry.ChainStep | lib/fun_ruby/function.rb:132 | calling a pending closure hands its slots and the new arguments to `handling_placeholders` |
| Curry.FirstCall | lib/fun_ruby/function.rb:126-132 | a first call that starts with a placeholder binds nothing and keeps all its arguments as slots |
| Curry.OneArgFillsFirstHole | lib/fun_ruby/function.rb:137-141 | a single argument fills the first placeholder |
| Curry.SaturatingCall | lib/fun_ruby/function.rb:126-130 | a merge without placeholders that completes the arity returns the body's value |
| Curry.SlotsOnlyCall | lib/fun_ruby/function.rb:126-132 | a merge that starts with a placeholder leaves the lambda as it was and keeps the whole merge as slots |
| Curry.Pipe | lib/fun_ruby/function.rb:111-116 | `pipe(f1, ..., fn).(*args)` is `fn.(...f2.(f1.(*args)))`: the first function gets the call's arguments and each later one the previous result |
| Curry.Compose | lib/fun_ruby/function.rb:118-120 | `compose(f, *rest)` runs `f` last, on the result of piping the call's arguments through `rest`; a single function is just called |
| Curry.ComposeTwoIsRightToLeft | lib/fun_ruby/function.rb:118-120 | `compose(f, g).(x) == f.(g.(x))`, as documented at lines 26-38 |
| Curry.ComposeThreeIsNotRightToLeft | lib/fun_ruby/function.rb:118-120 | as written, three functions do not compose right to left (see Findings) |
| Curry.ComposeRightToLeftAppliesFirstLast | lib/fun_ruby/function.rb:11-47 | the documented composition applies the first function last, on the composition of the rest |
| Curry.ComposeAgreesUpToTwo | lib/fun_ruby/function.rb:118-120 | on one or two functions the code and the documented order agree |
| Core.MergeStep | lib/fun_ruby/core.rb:20-31 | one step of the merge. A placeholder is appended. A value fills the leftmost placeholder, and everything else stays. With no placeholder the value is appended |
| Core.MergeArgs | lib/fun_ruby/core.rb:19-32 | the `each_with_object` loop over a copy of the saved arguments gives the fold of `MergeStep` |
| Core.LegacyMerge | lib/fun_ruby/core.rb:19-32 | the merge adds at most one slot per argument and never removes one; concrete arguments on a list without placeholders add one slot each |
| Core.Handle | lib/fun_ruby/core.rb:18-42 | one `_handler` call. A merge with a placeholder gives a closure over the merged list. Too many arguments raise ArgumentError. Exactly the arity runs the body on the merged values and rewraps a callable result with no saved arguments. Fewer arguments bind them all |
| Core.Handler | lib/fun_ruby/core.rb:18-42 | the imperative `_handler` computes `Handle` |
| Core.Compact | lib/fun_ruby/core.rb:14 | `args.compact` leaves no `nil`; a list without `nil` is unchanged; a single argument disappears exactly when it is `nil` |
| Core.CompactAppend | lib/fun_ruby/core.rb:14 | `compact` keeps the order: compacting a concatenation concatenates the compacted parts (with `Compact`'s one-element case this fixes the whole result) |
| Core.Curried | lib/fun_ruby/core.rb:11-16 | `_curried` gives a closure over the curried function whose saved arguments are exactly `Compact` of the initial ones, so none is `nil` |
| Core.LegacyMergeKeepsValues | lib/fun_ruby/core.rb:19-32 | the legacy merge loses no argument: its multiset is the saved plus the new arguments |
| Core.MergeStepKeepsValues | lib/fun_ruby/core.rb:20-31 | one step of the merge adds exactly the new argument's value, if it has one, to the multiset of values |
| Core.HoleCountOfStep | lib/fun_ruby/core.rb:20-31 | a placeholder adds one open position; a value closes one if there is one |
| Core.EnginesAgreeOnConcreteCall | lib/fun_ruby/core.rb:18-42 | without placeholders the legacy and the current engine give the same outcome |
| Core.LegacyConcreteMerge | lib/fun_ruby/core.rb:31 | concrete arguments are appended in order |
| Core.PlaceholderAppendedNotReReserved | lib/fun_ruby/core.rb:20-23 | the legacy merge appends a placeholder instead of re-reserving one: `[_, _, c]` with `(_, b)` gives `[b, _, c, _]`, where the current engine gives `[_, b, c]` |
| Core.HoleThenValueCancels | lib/fun_ruby/core.rb:20-29 | `(_, v)` on no saved arguments merges to `[v]`: the value fills the placeholder just appended |
| Core.LegacyBindsOne | lib/fun_ruby/core.rb:34-41 | a merge down to one value binds it, or runs the body when it completes the arity |
| Core.LegacyReordersDocumentedCall | lib/fun_ruby/core.rb:18-42 | the legacy engine runs `(_, b).(_, c).(a)` as `body(b, c, a)` |
| CurriedFunction.Unassigned | lib/fun_ruby/curried/function.rb:37-39 | `unassigned_arguments`: a name is listed exactly when its value is `nil` |
| CurriedFunction.UnassignedAppend | lib/fun_ruby/curried/function.rb:37-39 | the unassigned names keep the table's order: those of two tables in a row are the first's followed by the second's |
| CurriedFunction.New | lib/fun_ruby/curried/function.rb:8-15 | a new function has every parameter unassigned, in declaration order. Its curried proc has nothing bound. The rules are kept, and the state invariant holds |
| CurriedFunction.AllUnassigned | lib/fun_ruby/curried/function.rb:11-13 | a table of `nil`s has all its names unassigned |
| CurriedFunction.Bindings | lib/fun_ruby/curried/function.rb:20 | `keys.zip(args).to_h.compact` pairs the k-th unassigned name with the k-th argument, dropping `nil`s; with no `nil` it is the full zip |
| CurriedFunction.LookupBindings | lib/fun_ruby/curried/function.rb:20 | in the bindings the k-th unassigned name maps to the k-th argument, `nil` past the end |
| CurriedFunction.BindingsCount | lib/fun_ruby/curried/function.rb:20 | there is one binding per non-`nil` argument |
| CurriedFunction.MergeArguments | lib/fun_ruby/curried/function.rb:30 | `arguments.merge(new_arguments)` keeps every name in its position |
| CurriedFunction.UnassignedAfterMerge | lib/fun_ruby/curried/function.rb:30 | after the merge the unassigned names are the old ones without the newly bound ones |
| CurriedFunction.StillOpenCount | lib/fun_ruby/curried/function.rb:30 | the merge closes exactly one name per non-`nil` argument |
| CurriedFunction.Feed | lib/fun_ruby/curried/function.rb:21-24 | an `inject` that completes had every value accepted by its rule; a rule failure names a parameter whose rule rejected its value |
| CurriedFunction.FeedLambda | lib/fun_ruby/curried/function.rb:21-24 | the `inject` feeds every value when all rules accept. Otherwise it raises the error of the first rule that rejects, after accepting all the earlier ones |
| CurriedFunction.FeedAccepted | lib/fun_ruby/curried/function.rb:21-24 | when every rule accepts, the `inject` leaves the proc holding all the values, or the function's result once the last parameter is filled |
| CurriedFunction.FeedRejected | lib/fun_ruby/curried/function.rb:21-24 | when some rule rejects, the `inject` raises the failure of the first rejected name, and every value before it was accepted |
| CurriedFunction.Call | lib/fun_ruby/curried/function.rb:17-34 | more arguments than unassigned names raise ArgumentError. The proc's result is returned only for exactly that many arguments. A new function comes back only for fewer, and it keeps the rules |
| CurriedFunction.CallRules | lib/fun_ruby/curried/function.rb:21-24 | `call` fails exactly when some binding is rejected, and then with the first rejected name |
| CurriedFunction.CallReturns | lib/fun_ruby/curried/function.rb:25 | with as many accepted arguments as unassigned names, `call` returns the curried proc fed those values |
| CurriedFunction.FullApplication | lib/fun_ruby/curried/function.rb:17-25 | a full call without `nil` returns the function's value on the bound values followed by the new ones |
| CurriedFunction.CallBindsInOrder | lib/fun_ruby/curried/function.rb:27-32 | a partial call gives a valid function with the same rules. Unassigned names shrink by the non-`nil` count. The k-th unassigned name gets the k-th argument. Later names stay `nil` and assigned names keep their values |
| CurriedFunction.MergeCount | lib/fun_ruby/curried/function.rb:30 | the merge keeps names distinct and closes one name per non-`nil` argument |
| CurriedFunction.MergeAssigns | lib/fun_ruby/curried/function.rb:30 | after the merge the k-th formerly unassigned name holds the k-th argument |
| CurriedFunction.MergeKeepsAssigned | lib/fun_ruby/curried/function.rb:30 | entries that already had a value are unchanged |
| CurriedFunction.UnassignedDistinct | lib/fun_ruby/curried/function.rb:37-39 | unassigned names are distinct |
| CurriedFunction.NilArgumentShiftsPosition | lib/fun_ruby/curried/function.rb:20-23 | as written, `call(nil, x)` records `x` for the second parameter but the proc runs on `(x, y, z)` after `call(y, z)` (see Findings) |
| CurriedFunction.NilFirstCall | lib/fun_ruby/curried/function.rb:20-32 | `call(nil, x)` on three fresh parameters binds only the second name and feeds `x` to the proc as its first argument |
| CurriedFunction.NilSecondCall | lib/fun_ruby/curried/function.rb:17-25 | as written, after `call(nil, x)` the call `call(y, z)` returns the function's value on `(x, y, z)` |
| CurriedFunction.FirstRejected | lib/fun_ruby/curried/function.rb:21-22 | `None` exactly when every binding is accepted; otherwise the name of the first rejected one |
| CurriedFunction.CallByName | lib/fun_ruby/curried/function.rb:17-32 | corrected `call`. Too many arguments raise ArgumentError. A refusal within the count comes from a rule. A new function keeps the body and the rules |
| CurriedFunction.ByNameRunsOnNamedValues | lib/fun_ruby/curried/function.rb:17-25 | the corrected `call` runs the function on the values in parameter order |
| CurriedFunction.MergedValues | lib/fun_ruby/curried/function.rb:20-30 | a call that gives every unassigned name a value leaves no name unassigned, and each name holds the value meant for it |
| CurriedFunction.ByNameKeepsNilPosition | lib/fun_ruby/curried/function.rb:20-23 | corrected: `call(nil, x)` then `call(y, z)` runs the function on `(y, x, z)` |
| CurriedFunction.ByNameSecondCall | lib/fun_ruby/curried/function.rb:17-32 | corrected: after `call(nil, x)`, the call `call(y, z)` runs the function on `(y, x, z)` |
| ContainerStore.Defined | lib/fun_ruby/container.rb:22-29 | `define` succeeds exactly for a new key with a block. A known key raises KeyError, checked before the block; a missing block raises TypeError. A failure changes nothing. Success adds only that key, unevaluated |
| ContainerStore.Fetched | lib/fun_ruby/container.rb:32-36 | `fetch` of an unknown key raises KeyError and changes nothing. A truthy cached value is returned without running the block. Otherwise the block runs once more and its result is cached and returned. No other key changes |
| ContainerStore.Fetches | lib/fun_ruby/container.rb:32-36 | repeated `fetch`es keep the key set and the other keys; they fail exactly for an unknown key and return the cached value |
| ContainerStore.Container.constructor | lib/fun_ruby/container.rb:16-19 | a new container has empty storage |
| ContainerStore.Container.Define | lib/fun_ruby/container.rb:22-29 | the method's status and new storage are `Defined` of the old storage |
| ContainerStore.Container.Fetch | lib/fun_ruby/container.rb:32-36 | the method's result and new storage are `Fetched` of the old storage |
| ContainerStore.SymbolAndStringAgree | lib/fun_ruby/container.rb:23-33 | `:sum` and `"sum"` are the same key for `define` and `fetch` |
| ContainerStore.DuplicateKeepsFirst | lib/fun_ruby/container.rb:25 | a second `define` of a key raises KeyError, changes nothing, and `fetch` runs the first block |
| ContainerStore.TruthyRunsOnce | lib/fun_ruby/container.rb:35 | a block whose first result is truthy runs once, however many `fetch`es follow |
| ContainerStore.FalsyRunsEveryTime | lib/fun_ruby/container.rb:35 | a block whose results are all `nil`/`false` runs on every `fetch` |
| ContainerStore.RunsUntilTruthy | lib/fun_ruby/container.rb:35 | a block first truthy on run `m` has run `min(n, m+1)` times after `n` fetches, and the last one returned the last run's result |
| ContainerStore.DefineThenFetch | lib/fun_ruby/container.rb:28-47 | a fresh definition (`init_meta`: nothing cached) fetches as its block's first result after one run, and a truthy one is then cached |
| ContainerStore.NilDefinitionFetchesNil | spec/fun_ruby/container/resolve_spec.rb:52-58 | a block returning `nil` is registered and fetches as `nil`, not as an unknown key |
| ContainerResolve.IndexOf | lib/fun_ruby/container/resolve.rb:15 | the position of a namespace in the table, or `None` when the table does not declare it |
| ContainerResolve.Put | lib/fun_ruby/container/resolve.rb:13-15 | `hash[ns] = v`: a known key keeps its position and takes the new value; a new key is appended; keys stay distinct |
| ContainerResolve.ToH | lib/fun_ruby/container/resolve.rb:13 | the shortcut hash of one alias has distinct keys |
| ContainerResolve.MergeInto | lib/fun_ruby/container/resolve.rb:13 | `merge!` keeps keys distinct |
| ContainerResolve.ShortcutHash | lib/fun_ruby/container/resolve.rb:13 | `key.map { ... }.to_h` built pair by pair, a later pair overwriting an earlier one, equals the shortcut hash of the alias |
| ContainerResolve.MergeHash | lib/fun_ruby/container/resolve.rb:13 | `merge!` entry by entry equals the merge of the shortcut hash into the table |
| ContainerResolve.Step | lib/fun_ruby/container/resolve.rb:11-17 | one alias added to the table keeps keys distinct |
| ContainerResolve.Normalize | lib/fun_ruby/container/resolve.rb:11-17 | the `each_with_object` table has distinct namespaces |
| ContainerResolve.RedeclaredKeepsPosition | lib/fun_ruby/container/resolve.rb:13-15 | a namespace declared again keeps its first position and takes the later shortcut (or `nil`) |
| ContainerResolve.NormalizeTwoBare | lib/fun_ruby/container/resolve.rb:11-17 | two bare namespaces give a table in declaration order |
| ContainerResolve.TwoBareNamespaces | lib/fun_ruby/container/resolve.rb:10-19 | `build` reverses that table: the last declared namespace comes first |
| ContainerResolve.OneShortcut | lib/fun_ruby/container/resolve.rb:13-18 | one `{ns => shortcut}` alias gives a one-entry table |
| ContainerResolve.Candidate | lib/fun_ruby/container/resolve.rb:31 | a bare namespace puts the namespace and a `.` before the key; a key that does not contain the shortcut is its own candidate |
| ContainerResolve.FirstPresent | lib/fun_ruby/container/resolve.rb:30-37 | the first table entry whose candidate key is registered; every earlier entry's candidate is unregistered; `None` when none is |
| ContainerResolve.Resolve.constructor | lib/fun_ruby/container/resolve.rb:22-25 | keeps the table and the container |
| ContainerResolve.Resolve.Build | lib/fun_ruby/container/resolve.rb:10-19 | `build` gives a fresh resolver on the container whose table is the reversed normalised alias table |
| ContainerResolve.Resolve.Call | lib/fun_ruby/container/resolve.rb:28-42 | `call` fetches the first registered candidate, else the key itself, raising KeyError otherwise; the storage changes as that one `fetch` changes it |
| ContainerResolve.LastDeclaredProbedFirst | lib/fun_ruby/container/resolve.rb:18-33 | with two bare namespaces both holding the key, the one declared last is used |
| ContainerResolve.Resolution | lib/fun_ruby/container/resolve.rb:28-42 | `call` raises exactly when no candidate and not the key itself is registered; it raises KeyError and changes nothing |
| ContainerResolve.FirstRegisteredWins | lib/fun_ruby/container/resolve.rb:30-35 | the first registered candidate is fetched and no later entry is tried |
| ContainerResolve.ResolutionFallsBack | lib/fun_ruby/container/resolve.rb:39-41 | with no candidate registered, `call` is a `fetch` of the key as given |
| ContainerResolve.ResolvesNil | spec/fun_ruby/container/resolve_spec.rb:52-58 | a key whose block returns `nil` resolves to `nil` |
| ContainerResolve.ShortcutInTheMiddle | spec/fun_ruby/container/resolve_spec.rb:42-50 | a shortcut that appears only as one middle segment, as in `root.alias.key`, is replaced by its namespace |
| ContainerResolve.GsubRewritesInsideSegments | lib/fun_ruby/container/resolve.rb:31 | `"m.map".gsub("m", "app.math")` is `"app.math.app.mathap"` |
| ContainerResolve.AliasAtBeginningNotResolved | spec/fun_ruby/container/resolve_spec.rb:60-67 | as written, `call("m.map")` with `"app.math" => "m"` raises KeyError (see Findings) |
| ContainerResolve.ShortKeyNotResolved | spec/fun_ruby/container/resolve_spec.rb:60-67 | with only `app.math.map` registered and the alias `"app.math" => "m"`, `call("m.map")` raises KeyError and leaves the storage as it was |
| ContainerResolve.Split | lib/fun_ruby/container/resolve.rb:31 | corrected candidate: the key's segments contain no separator and join back to the key |
| ContainerResolve.SplitJoin | lib/fun_ruby/container/resolve.rb:31 | the other direction: splitting the join of separator-free segments gives the segments back |
| ContainerResolve.ReplaceSegments | lib/fun_ruby/container/resolve.rb:31 | corrected candidate: one output segment per key segment; a key without the shortcut is unchanged, no shortcut segment survives a different namespace, and every output segment is a key segment or the namespace |
| ContainerResolve.GsubAgreesOnWholeSegments | lib/fun_ruby/container/resolve.rb:31 | when the shortcut occurs only as whole segments, `gsub` and segment replacement agree |
| ContainerResolve.CandidateAgreesOnWholeSegments | lib/fun_ruby/container/resolve.rb:31 | so the code's candidate is the corrected one on every such key, and on every bare namespace |
| ContainerResolve.SegmentCandidateAtBeginning | spec/fun_ruby/container/resolve_spec.rb:60-67 | corrected: `"m.map"` with `"app.math" => "m"` resolves to `"app.math.map"` |
| ContainerResolve.GsubRewritesMiddleKey | lib/fun_ruby/container/resolve.rb:31 | `"core.m.map".gsub("m", "app.math")` is `"core.app.math.app.mathap"` |
| ContainerResolve.AliasInTheMiddleNotResolved | spec/fun_ruby/container/resolve_spec.rb:69-76 | as written, `call("core.m.map")` with `"app.math" => "m"` raises KeyError (see Findings) |
| ContainerResolve.MiddleKeyNotResolved | spec/fun_ruby/container/resolve_spec.rb:69-76 | with only `core.app.math.map` registered and the alias `"app.math" => "m"`, `call("core.m.map")` raises KeyError and leaves the storage as it was |
| ContainerResolve.SegmentCandidateInTheMiddle | spec/fun_ruby/container/resolve_spec.rb:69-76 | corrected: `"core.m.map"` with `"app.math" => "m"` resolves to `"core.app.math.map"` |
| ContainerDefine.NamespacesOfEitherKind | lib/fun_ruby/container/define.rb:14 | `namespaces.map(&:to_s)`: namespaces given as symbols or as strings make the same path |
| ContainerDefine.DefineAll | lib/fun_ruby/container/define.rb:28-35 | corrected `function`: running a script's registrations in order only adds keys and never changes a registered one |
| ContainerDefine.DefineAllAppend | lib/fun_ruby/container/define.rb:28-30 | corrected `function`: two scripts in a row are one script: the second runs on the first's storage when the first succeeds |
| ContainerDefine.RegistrationsAppend | lib/fun_ruby/container/define.rb:28-30 | the registrations of two statement lists are concatenated |
| ContainerDefine.DefineAllFresh | lib/fun_ruby/container/define.rb:28-35 | corrected `function`: distinct new keys with blocks all register, each unevaluated, and nothing else is added |
| ContainerDefine.DuplicateStopsTheScript | lib/fun_ruby/container/define.rb:34 | corrected `function`: a key defined twice stops the script with KeyError; later statements do not run |
| ContainerDefine.FullKey | lib/fun_ruby/container/define.rb:33 | the full key is the key itself at top level, otherwise the joined namespaces, a `.` and the key |
| ContainerDefine.SiblingNamespaces | lib/fun_ruby/container/define.rb:22-26 | corrected `function`: two sibling `namespace` blocks register under their own paths, first then second |
| ContainerDefine.Define.constructor | lib/fun_ruby/container/define.rb:17-20 | keeps the container and the namespaces |
| ContainerDefine.Define.Build | lib/fun_ruby/container/define.rb:10-15 | a missing container or namespace list raises TypeError; otherwise a fresh definer with the namespaces as strings |
| ContainerDefine.Define.Function | lib/fun_ruby/container/define.rb:32-35 | corrected `function`: defines the block under the namespaces joined with the key |
| ContainerDefine.Define.Namespace | lib/fun_ruby/container/define.rb:22-26 | corrected `function`: the child's path is one namespace longer; the body's registrations run under it |
| ContainerDefine.Define.Call | lib/fun_ruby/container/define.rb:28-30 | corrected `function`: the script's registrations run under the definer's namespaces |
| ContainerDefine.FunctionAsWritten | lib/fun_ruby/container/define.rb:32-35 | as written, `function` always raises: LocalJumpError without a block, ArgumentError with one |
| ContainerDefine.DefineAllAsWritten | lib/fun_ruby/container/define.rb:28-35 | as written, a script registers nothing and succeeds only when empty |
| ContainerDefine.TopLevelExampleAsWritten | spec/fun_ruby/container/define_spec.rb:6-19 | as written, defining `fun1` and `fun2` raises ArgumentError, and fetching `fun1` then raises KeyError |
| ContainerDefine.TopLevelExample | spec/fun_ruby/container/define_spec.rb:6-19 | corrected: both keys register and fetch as their blocks' values |
| ContainerDefine.ReferenceIsNotALookup | lib/fun_ruby/container/define.rb:32-35 | as written, a block-less `f(key)` raises LocalJumpError; with the block passed on it is a `define` without a block, KeyError or TypeError, and changes nothing (see Findings) |
| ContainerDefine.ScopeTableEntries | spec/fun_ruby/container/define_spec.rb:104-138 | corrected reference lookup: a reference inside a path probes the path's prefixes, innermost first |
| ContainerDefine.ShortReferenceOwnNamespace | spec/fun_ruby/container/define_spec.rb:104-120 | corrected: a short reference finds a key in its own namespace |
| ContainerDefine.ShortReferenceParent | spec/fun_ruby/container/define_spec.rb:122-138 | corrected: a short reference not in its own namespace finds the parent's key |
| ContainerDefine.FullReferenceFallsBack | spec/fun_ruby/container/define_spec.rb:81-102 | corrected: a full key that no prefix completes resolves to itself |
| DefinitionPaths.Equals | lib/fun_ruby/container/definition_path.rb:21-23 | `==` holds exactly for equal path and load state, and implies `eql?` |
| DefinitionPaths.Hash | lib/fun_ruby/container/definition_path.rb:26-28 | `hash` is the path's hash, equal for every `eql?` object |
| DefinitionPaths.HashAgreesWithEql | lib/fun_ruby/container/definition_path.rb:16-28 | `eql?` objects have equal hashes, as a Hash key needs |
| DefinitionPaths.EqlIsEquivalence | lib/fun_ruby/container/definition_path.rb:16-18 | `eql?`, which compares the paths only, is reflexive, symmetric and transitive |
| DefinitionPaths.LoadedStateSeparates | lib/fun_ruby/container/definition_path.rb:16-33 | one path loaded and not loaded: `eql?` but not `==` |
| ContainerConfig.OverrideRoundTrip | lib/fun_ruby/container/config.rb:8-15 | `can_override?` answers exactly the `override:` value given to the constructor |
| ContainerConfig.DefaultCannotOverride | lib/fun_ruby/container/config.rb:8-20 | a default config cannot override |
| ContainerConfig.QuestionsAreComplementary | lib/fun_ruby/container/config.rb:13-20 | for any flag exactly one of the two questions is truthy |

## Left out

- The container's `Mutex`. It is created but never locked in `container.rb`, and the model has no concurrency.
- `Container.[]`, `Mixin`, `Dsl`, `import`, the global `FunRuby.container`, and the collection of definition paths. These are outside the modelled core. `DefinitionPath` is modelled as a value.
- `common/helpers.rb` and the library modules (`Array`, `Hash`, `String`, `Enum`, `File`). They are outside the modelled core.
- `respond_to?(:call)` and `is_a?(Proc)` are the predicate `isCallable` on values. Method objects, and how `Proc#curry` handles lambdas with optional or splat parameters, are not modelled. A callee has a fixed arity.
- Curry.HandlingPlaceholders: calling a rewrapped result (a callable return value) again is not followed. `Rewrapped` carries the value and the slots to resume with. Which arity that value has is not known to the model.
- Curry.Curry: `curry` wraps `_curry` in a second `handling_placeholders` layer. The model collapses the two layers into one closure. A placeholder passed to `curry` itself is not modelled.
- Curry.ApplyArg: `processed_args.dup` copies the array. The model is a function on values, so there is no aliasing to capture.
- Curry.Pipe: `pipe` and `compose` go through `curry(method(:_pipe))` first. The model gives the value of calling the returned lambda; the curried wrapper around `pipe` itself is not modelled.
- Core.Curried: a closure whose merge has no placeholder left calls the function at once. Calls on a `Rewrapped` result are not followed.
- CurriedFunction.Call: the `function` attribute is not kept. A rule's return value is ignored, as in the code, so a rule is modelled as "returns normally or raises". A value that is not `nil` is `Some`.
- CurriedFunction.New: parameter names come from `Method#parameters`. The model takes the list of names and ignores the parameter kinds.
- ContainerStore.Fetched: an exception raised by a block propagates in Ruby. In the model a block always returns a value. In particular a KeyError raised inside a definition is not swallowed by `Resolve#call`'s `rescue`.
- ContainerStore.Defined: keys are `Symbol` or `String`. `to_s` on other objects is not modelled.
- ContainerResolve.Normalize: Hash aliases whose keys or values are not symbols or strings are not modelled.
- Ruby.ReplaceAll: `gsub` takes a string pattern literally. Backslash sequences in the replacement (`\0`, `\1`) are not interpreted.
- ContainerResolve.Resolve.Build: the default `container: FunRuby.container` is not modelled; the caller passes the container.
- ContainerDefine.Define.Build: the `is_a?` type checks become `Option` parameters. A value of the wrong type is `None`.
- ContainerDefine.Define.Call: `instance_exec` of a block becomes a script of `namespace` and `function` statements. `f` is the same statement as `function`. Other Ruby code inside a block is not modelled.
- ContainerDefine.DefineAll, DefineAllAppend, DefineAllFresh, DuplicateStopsTheScript, SiblingNamespaces, Define.Namespace and Define.Call: these run the corrected `Define.Function` (the block passed on, see Findings). As written every `f` raises before the KeyError check (`FunctionAsWritten`, `DefineAllAsWritten`).
- ContainerDefine.ScopeTableEntries: states the reference lookup the test file expects, not code. `function` has no lookup (see Findings); the model gives a reference a resolver table with every prefix of its path, innermost first (`ScopeTable`).
- ContainerDefine.ShortReferenceOwnNamespace: the corrected lookup of the test file, not the code, which raises instead (`ReferenceIsNotALookup`).
- ContainerDefine.ShortReferenceParent: the corrected lookup of the test file, not the code, which raises instead (`ReferenceIsNotALookup`).
- ContainerDefine.FullReferenceFallsBack: the corrected lookup of the test file, not the code, which raises instead (`ReferenceIsNotALookup`).
- DefinitionPaths.Hash: `String#hash` is a parameter, since its value is not observable.
- `DefinitionPath#loaded?` returns whatever was given as `loaded:`. The model takes it as a boolean.
- ContainerConfig.New: `override:` is any Ruby value, and `can_override?` returns it as it is.
- The run counter on container entries belongs to the model, not to the Ruby object.

## Findings

| source | as written | input that shows it | evidently intended | confidence | as-written member | corrected member |
|---|---|---|---|---|---|---|
| lib/fun_ruby/container/resolve.rb:31 | the shortcut is replaced with `String#gsub` anywhere in the key, including inside longer segments | only `app.math.map` registered, aliases `["app.math" => "m"]`, `call("m.map")`: the candidate is `app.math.app.mathap`, so KeyError (spec/fun_ruby/container/resolve_spec.rb:60-67 expects the function) | replace only key segments equal to the shortcut, giving `app.math.map` | not executed | ContainerResolve.AliasAtBeginningNotResolved | ContainerResolve.SegmentCandidateAtBeginning |
| lib/fun_ruby/container/resolve.rb:31 | the same `gsub` in the middle of a key | only `core.app.math.map` registered, aliases `["app.math" => "m"]`, `call("core.m.map")`: the candidate is `core.app.math.app.mathap`, so KeyError (spec/fun_ruby/container/resolve_spec.rb:69-76 expects the function) | replace only key segments equal to the shortcut, giving `core.app.math.map` | not executed | ContainerResolve.AliasInTheMiddleNotResolved | ContainerResolve.SegmentCandidateInTheMiddle |
| lib/fun_ruby/container/define.rb:34 | `container.define(full_key, yield)` runs the block at once and passes its value as a second positional argument to `define(key, &block)`, which takes one | `define.() { f("fun1") { function1 } }` raises ArgumentError and registers nothing (spec/fun_ruby/container/define_spec.rb:6-19 expects `fun1`) | pass the block itself: `container.define(full_key, &block)` | not executed | ContainerDefine.TopLevelExampleAsWritten | ContainerDefine.TopLevelExample |
| lib/fun_ruby/function.rb:118-120 | `_compose(f, *rest)` is `_pipe(*rest, f)`, so with three or more functions `rest` runs left to right | `compose(id, plus_2, times_3).(1)` is `9`; right to left gives `5` | right-to-left composition, as documented at function.rb:11 | not executed | Curry.ComposeThreeIsNotRightToLeft | Curry.ComposeRightToLeftAppliesFirstLast |
| lib/fun_ruby/curried/function.rb:20-23 | `compact` drops a `nil` argument, but the following values are still fed to the positional curried proc in order | parameters `a, b, c`: `call(nil, x)` records `x` for `b`, then `call(y, z)` runs the function on `(x, y, z)` | the value recorded for `b` reaches parameter `b`: `(y, x, z)` | not executed | CurriedFunction.NilArgumentShiftsPosition | CurriedFunction.ByNameKeepsNilPosition |
| lib/fun_ruby/container/define.rb:32-35 | `function` only ever registers; a block-less `f(key)` inside a definition yields to no block and raises LocalJumpError, and with the block passed on it would be a `define` without a block (KeyError or TypeError) | `namespace :app { namespace :math { f("fun1") { f("fun2") }; f("fun2") { function } } }`: `f("fun2")` raises instead of returning `function` (spec/fun_ruby/container/define_spec.rb:104-120 expects `fetch("app.math.fun1")` to be `function`) | a block-less `f(key)` looks the key up in the current namespace, then in its parents, then as given | not executed | ContainerDefine.ReferenceIsNotALookup | ContainerDefine.ShortReferenceOwnNamespace |
