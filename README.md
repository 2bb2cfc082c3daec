# Nested-verb command router: a Dafny model

This project models the core of CommandLineParser.Extensions. That library adds nested verbs to the CommandLineParser library for .NET. A program declares each command as a class that derives from `Command` and carries a `[Verb]` attribute. A sub-command is a nested class of its parent command.

The model covers two parts:

- **Verb resolution** (`CommandLineExtensions.ParseCommands`). The resolver walks the command tree one token at a time. A leading `-` token stops it immediately. Otherwise it takes the first candidate, in array order, that is a `Command` type whose verb name equals the token. Names are compared ordinally, or ordinally ignoring case, depending on the parser's `CaseSensitive` setting. The resolver descends into that candidate's nested commands only when it has some and another token follows the verb; it then drops the verb token. In every other case it hands the *unchanged* tokens and the *whole current* candidate array to `parser.ParseArguments`.
- **The command lifecycle** (`Command`). This covers three things:
  - the root command set, filtered from the entry assembly's types;
  - the memoised `HelpText` getter, which builds help once and adds the nested verbs only for a Parsed result;
  - `ParseAndExecute`, which resolves and binds. For a Parsed value it checks that the value is a `Command`, stores the parse result on it and calls `Execute` once. Apart from exceptions raised by the binding engine or by `Execute`, there are two ways it can throw. Resolution raises ArgumentNull for a null parser or null arguments, and a Parsed value that is not a `Command` raises InvalidOperation. In every other case it returns the parse result, whatever its tag.

Reflection is replaced by an explicit descriptor tree (`TypeModel.TypeDesc`). The option-binding engine is a function parameter `engine`. Help rendering is a record of the inputs the help was built from. The abstract `Execute` appends the parse result it sees to a log.

Modules:
- `Wrappers` (wrappers.dfy) defines `Option` and `Result`, which stand in for null references and thrown exceptions.
- `TypeModel` (type_model.dfy) holds the type descriptors, the parser setting, the exceptions, the flag test, the verb-name comparison and the order-preserving `Filter` that stands for LINQ `Where`.
- `CommandLineExtensions` and `ResolutionScenarios` (command_line_extensions.dfy) hold the nested-command filter, the first-match search, the resolver with its properties, and worked resolutions over a small tree.
- `CommandLifecycle` (command.dfy) holds the parse result, help, the root set, the dispatcher outcome, and the `Command` class.

A matched verb that does not descend delegates the whole current `types` array, not just the matched type. The loop breaks at CommandLineExtensions.cs:75, and :80 passes `types`. `MatchWithoutDescentDelegatesWholeLevel` and the scenario `PushWithFlag` state this.

## Model

| member | source | states |
|---|---|---|
| `TypeModel.FirstOrDefault` | CommandLineParser.Extensions/CommandLineExtensions.cs:50 | the verb is present exactly when there is at least one argument, and then it is the first argument |
| `TypeModel.StartsWithDash` | CommandLineParser.Extensions/CommandLineExtensions.cs:53 | a token is a flag exactly when its first one-character prefix is `-`; the empty token is not a flag |
| `TypeModel.NameEquals` | CommandLineParser.Extensions/CommandLineExtensions.cs:56-67 | a null verb equals no name; under `Ordinal` a name equals the verb exactly when the two strings are identical |
| `TypeModel.IgnoreCaseIsCharwiseFolded` | CommandLineParser.Extensions/CommandLineExtensions.cs:56-58 | under `OrdinalIgnoreCase` a name equals a verb exactly when both have the same length and agree at every position after folding |
| `TypeModel.IgnoreCaseFoldsLetters` | CommandLineParser.Extensions/CommandLineExtensions.cs:56-58 | `OrdinalIgnoreCase` matches a lower-case letter with its upper-case form, which `Ordinal` does not |
| `TypeModel.FoldCase` | CommandLineParser.Extensions/CommandLineExtensions.cs:56-58 | case folding keeps the length and folds each character on its own (ASCII upper-casing) |
| `TypeModel.OrdinalImpliesIgnoreCase` | CommandLineParser.Extensions/CommandLineExtensions.cs:56-58 | a name equal under `Ordinal` is also equal under `OrdinalIgnoreCase` |
| `TypeModel.FoldCharOnlyCase` | CommandLineParser.Extensions/CommandLineExtensions.cs:56-58 | ignoring case identifies two characters exactly when they are equal or differ only in ASCII letter case |
| `TypeModel.IgnoreCaseKeepsLength` | CommandLineParser.Extensions/CommandLineExtensions.cs:67 | a verb token matches a name, under either comparison, only if it has the same length |
| `TypeModel.Filter` | CommandLineParser.Extensions/CommandLineExtensions.cs:25 | a `Where` result holds exactly the input elements that satisfy the predicate and is no longer than the input |
| `TypeModel.FilterAppend` | CommandLineParser.Extensions/CommandLineExtensions.cs:25 | filtering keeps order: filtering a concatenation concatenates the filtered parts |
| `CommandLineExtensions.NestedCommands` | CommandLineParser.Extensions/CommandLineExtensions.cs:23-25 | every returned type is a nested type that derives from `Command` and has a verb attribute, and every such nested type is returned |
| `CommandLineExtensions.GetNestedCommands` | CommandLineParser.Extensions/CommandLineExtensions.cs:18-26 | a null type fails with ArgumentNull("type"); every non-null type succeeds, with exactly its nested verb commands in the order reflection returns them |
| `CommandLineExtensions.IsMatch` | CommandLineParser.Extensions/CommandLineExtensions.cs:62-68 | a candidate that passes the loop's tests is a `Command` type with a verb and the token is non-null; under `Ordinal` it matches exactly when its verb is the token |
| `CommandLineExtensions.FirstMatch` | CommandLineParser.Extensions/CommandLineExtensions.cs:60-68 | the chosen index is a candidate that is a `Command` with a verb equal to the token, and no earlier candidate matches; no index means no candidate matches |
| `CommandLineExtensions.FirstMatchIsFirst` | CommandLineParser.Extensions/CommandLineExtensions.cs:60-77 | first-match semantics: a matching candidate with no earlier match is the one the loop acts on |
| `CommandLineExtensions.Resolve` | CommandLineParser.Extensions/CommandLineExtensions.cs:50-80 | the delegated tokens are a suffix of the input, and a non-empty input keeps at least its last token |
| `CommandLineExtensions.ParseCommands` | CommandLineParser.Extensions/CommandLineExtensions.cs:39-48 | a null parser, args or types raises ArgumentNull naming the first null one, in that order, before any matching; otherwise the request is the resolution |
| `CommandLineExtensions.FlagBypassesMatching` | CommandLineParser.Extensions/CommandLineExtensions.cs:50-54 | a first token starting with `-` delegates the exact args and types without matching |
| `CommandLineExtensions.EmptyArgsDelegateCurrentLevel` | CommandLineParser.Extensions/CommandLineExtensions.cs:50-80 | empty args match nothing, never recurse, and delegate the current types |
| `CommandLineExtensions.NoMatchDelegatesUnchanged` | CommandLineParser.Extensions/CommandLineExtensions.cs:60-80 | when no candidate matches the first token, args and types are delegated unchanged |
| `CommandLineExtensions.MatchWithChildrenDescends` | CommandLineParser.Extensions/CommandLineExtensions.cs:70-77 | a first match with nested commands and more than one argument gives the same result as resolving `args[1..]` against the nested commands |
| `CommandLineExtensions.MatchWithoutDescentDelegatesWholeLevel` | CommandLineParser.Extensions/CommandLineExtensions.cs:74-80 | a first match with no nested commands, or with only one argument, delegates the original args (verb included) and the entire current types array |
| `CommandLineExtensions.ResolveIsIdempotent` | CommandLineParser.Extensions/CommandLineExtensions.cs:50-80 | resolving the delegated request again stops immediately with the same request |
| `CommandLineExtensions.ResolveDelegatesVerbCommands` | CommandLineParser.Extensions/CommandLineExtensions.cs:62-77 | if every starting candidate is a verb command, so is every candidate handed to the engine |
| `CommandLineExtensions.ResolveDepthBoundedByHeight` | CommandLineParser.Extensions/CommandLineExtensions.cs:70-77 | each descent strips one token, so the number of tokens dropped is at most the height of the command tree |
| `ResolutionScenarios.RemoteNestedCommands` | CommandLineParser.Extensions/CommandLineExtensions.cs:23-25 | nested types that are not commands are filtered out and the rest keep the order reflection returns them in |
| `ResolutionScenarios.PushWithFlag` | CommandLineParser.Extensions/CommandLineExtensions.cs:74-80 | `push --force` against a leaf `push` delegates both tokens and all root commands |
| `ResolutionScenarios.RemoteAddDescends` | CommandLineParser.Extensions/CommandLineExtensions.cs:70-77 | `remote add origin url` descends once and delegates `add origin url` with `remote`'s nested commands |
| `ResolutionScenarios.RemoteAloneStops` | CommandLineParser.Extensions/CommandLineExtensions.cs:74-75 | `remote` alone does not descend even though `remote` has nested commands |
| `ResolutionScenarios.OrdinalRejectsUpperCaseVerb` | CommandLineParser.Extensions/CommandLineExtensions.cs:56-68 | under case-sensitive comparison `REMOTE` does not match `remote` and is delegated unchanged |
| `ResolutionScenarios.UpperCaseRemoteMatchesIgnoringCase` | CommandLineParser.Extensions/CommandLineExtensions.cs:56-67 | under `OrdinalIgnoreCase` the token `REMOTE` equals the verb `remote` |
| `ResolutionScenarios.UpperCaseRemoteIsNotPushOrPull` | CommandLineParser.Extensions/CommandLineExtensions.cs:56-67 | under `OrdinalIgnoreCase` the token `REMOTE` equals neither `push` nor `pull` |
| `ResolutionScenarios.RemoteIsFirstIgnoringCase` | CommandLineParser.Extensions/CommandLineExtensions.cs:60-68 | ignoring case, `remote` is the first root command that `REMOTE` matches |
| `ResolutionScenarios.DescendAtThirdRoot` | CommandLineParser.Extensions/CommandLineExtensions.cs:70-77 | when the third of three candidates is the first match and has nested commands, resolution continues with the remaining tokens against them |
| `ResolutionScenarios.AddIsLeaf` | CommandLineParser.Extensions/CommandLineExtensions.cs:74-80 | `add` against `remote`'s nested commands stops and delegates that whole level |
| `ResolutionScenarios.IgnoreCaseDescendsIntoRemote` | CommandLineParser.Extensions/CommandLineExtensions.cs:56-77 | with case-insensitive parsing, `REMOTE add` descends into `remote` and delegates `add` with `remote`'s nested commands |
| `ResolutionScenarios.UnknownVerbDelegated` | CommandLineParser.Extensions/CommandLineExtensions.cs:60-80 | an unknown verb is delegated unchanged with the whole root set |
| `CommandLifecycle.BuildHelp` | CommandLineParser.Extensions/Command.cs:28-43 | help is built from the parse result; the detailed build is used exactly when the result is Parsed; nested verbs are added exactly when it is Parsed and the command type has nested commands |
| `CommandLifecycle.RootCommands` | CommandLineParser.Extensions/Command.cs:13-16 | the root set is exactly the non-nested assembly types whose direct base is `Command` and which have a verb attribute |
| `CommandLifecycle.IsRootCommand` | CommandLineParser.Extensions/Command.cs:15 | a root command is never a nested type, and in a well-formed assembly it derives from `Command` and has a verb |
| `CommandLifecycle.RootCommandsAreVerbCommands` | CommandLineParser.Extensions/Command.cs:13-16 | every root command derives from `Command` and has a verb |
| `CommandLifecycle.Settle` | CommandLineParser.Extensions/Command.cs:80-88 | what follows resolution: a resolution exception escapes unchanged; otherwise the call returns exactly when the engine's result is not Parsed with a non-`Command` value, and then returns that result; a throw after successful resolution is always InvalidOperation |
| `CommandLifecycle.Dispatch` | CommandLineParser.Extensions/Command.cs:76-89 | the outcome of `ParseAndExecute`: ArgumentNull("parser") for a null parser, ArgumentNull("args") for null arguments, otherwise either a return or InvalidOperation; `DispatchOutcomes` characterises each case |
| `CommandLifecycle.DispatchOutcomes` | CommandLineParser.Extensions/Command.cs:76-89 | ArgumentNull exactly when the parser or args is null; InvalidOperation exactly when the engine's result for the resolved request is Parsed with a value that is not a `Command`; in every other case the call returns, with exactly that engine result, whatever its tag (the engine is total here; see "## Left out") |
| `CommandLifecycle.Executed` | CommandLineParser.Extensions/Command.cs:80-86 | at most one command is executed per dispatch: exactly the Parsed `Command` value of a returned result, and none when an exception is thrown or the result is NotParsed |
| `CommandLifecycle.RegisteredCommandsNeverMismatch` | CommandLineParser.Extensions/Command.cs:78-82 | for a well-formed assembly and an engine that binds only the candidate types it is given, the InvalidOperation branch is unreachable |
| `CommandLifecycle.Command.constructor` | CommandLineParser.Extensions/Command.cs:18-53 | a new command has no cached help, no parse result and no executions |
| `CommandLifecycle.Command.GetHelpText` | CommandLineParser.Extensions/Command.cs:23-48 | a cached help is returned unchanged and is not rebuilt; otherwise help is built from the parse result and cached; help is built at most once per instance; reading with a null parse result raises NullReference |
| `CommandLifecycle.Command.Execute` | CommandLineParser.Extensions/Command.cs:58 | each call records the parse result it runs with and keeps the help-cache invariant as it was |
| `CommandLifecycle.Command.BindAndExecute` | CommandLineParser.Extensions/Command.cs:80-88 | a resolution exception escapes; otherwise the engine's result is returned, except that a Parsed non-`Command` value raises InvalidOperation; only for a Parsed `Command` value is the result stored on that command and `Execute` called once, after the store; nothing else changes and the command's invariant is kept |
| `CommandLifecycle.Command.ParseAndExecute` | CommandLineParser.Extensions/Command.cs:76-89 | resolves from the root commands, then binds and executes: the outcome is the one `DispatchOutcomes` characterises, only the executed command's parse result and log change, and its invariant is kept |
| `CommandLifecycle.Command.ParseAndExecuteDefault` | CommandLineParser.Extensions/Command.cs:65-68 | behaves as the two-argument overload with the default parser |

## Left out

- Reflection (`GetNestedTypes`, `GetCustomAttribute`, `IsAssignableFrom`, `Assembly.GetEntryAssembly().GetTypes()`) is replaced by the `TypeDesc` tree. The entry assembly's type list is a parameter.
- A null entry assembly, and the thread safety of the static `Commands` initialiser, are not modelled. The first is a host concern and the second a concurrency concern.
- `parser.ParseArguments` (option binding and type coercion) is foreign. The resolver returns the request it would receive, and the dispatcher takes the engine as a function parameter.
- `HelpText.AutoBuild` and `AddVerbs` are text layout in a foreign library. Help is reduced to which overload built it, from which result, and which verbs were added. The source caches the help object before `AddVerbs` mutates it in place; the model caches the finished value, which is observably the same.
- The binding engine is modelled as a total function, so exceptions that `parser.ParseArguments` itself raises are not modelled. An example is the rejection of an empty `types` array when the entry assembly declares no root verb command. `DispatchOutcomes` therefore lists only the exceptions that the resolver and `ParseAndExecute` raise themselves.
- `Execute` is abstract. Its body, and any exception it raises, are not modelled. It only logs the parse result it runs with.
- Null elements inside `args` or `types` are not modelled. Arguments are non-null strings and candidate types are non-null descriptors. Only the arrays themselves may be null.
- `StartsWith("-")` is modelled as "the first character is `-`", ignoring culture-sensitive comparison.
- `OrdinalIgnoreCase` is modelled by ASCII upper-case folding, not full Unicode case mapping.
- `Parser.Default` comes from the CommandLineParser library, which is not part of this model. It is modelled as a case-sensitive parser, the library's default setting.
- The source's recursive call re-checks its arguments for null. `Resolve` calls itself directly, because those arguments are never null at that point.
- The real binding engine always builds a fresh command instance, so its help cache and `ParseResult` are empty when Command.cs:84 stores the result. The model's `engine` may return any existing `Command`, including one already dispatched. The model therefore does not capture freshness, and the contracts of `ParseAndExecute` hold for that more general case.
- `TypeModel.FoldCase`: full Unicode case mapping is not modelled, only ASCII letters.
