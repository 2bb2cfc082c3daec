/**
 * The command lifecycle (Command.cs): the root command set discovered in
 * the entry assembly, the memoised help text of one command instance, and
 * the `ParseAndExecute` dispatcher that resolves, binds, checks the bound
 * value is a `Command`, stores the parse result on it and executes it.
 *
 * The option-binding engine (`parser.ParseArguments`) is a parameter
 * `engine`; help rendering (`HelpText.AutoBuild`, `AddVerbs`) is kept
 * abstract as a record of its inputs; the abstract `Execute` logs the parse
 * result it sees.
 */
module CommandLifecycle {
  import opened Wrappers
  import opened TypeModel
  import opened CommandLineExtensions

  /** The value bound by the engine: a `Command` instance, or an object of some other type. */
  datatype Bound = CommandValue(cmd: Command) | OtherValue(valueType: TypeDesc)

  /** `ParserResult<object>`: tagged `Parsed` with the bound value, or `NotParsed` with its errors. */
  datatype ParserResult = Parsed(value: Bound) | NotParsed(errors: seq<string>)

  /** Which `HelpText.AutoBuild` overload produced the help. */
  datatype BuildKind =
    | ForParsed   // AutoBuild(result, text => text, text => text, true)
    | Generic     // AutoBuild(result)

  /** A rendered help text, reduced to the inputs it was built from and the verbs added to it. */
  datatype Help = Help(kind: BuildKind, source: ParserResult, verbs: Option<seq<TypeDesc>>)

  function AutoBuildParsed(result: ParserResult): Help {
    Help(ForParsed, result, None)
  }

  function AutoBuildGeneric(result: ParserResult): Help {
    Help(Generic, result, None)
  }

  function AddVerbs(h: Help, types: seq<TypeDesc>): Help {
    h.(verbs := Some(types))
  }

  /**
   * The help a command of type `t` builds from `result`: the detailed
   * build exactly when the result is Parsed, with the nested verbs listed
   * exactly when it is Parsed and `t` has nested commands.
   */
  function BuildHelp(result: ParserResult, t: TypeDesc): (h: Help)
    ensures h.source == result
    ensures h.kind == ForParsed <==> result.Parsed?
    ensures h.verbs.Some? <==> result.Parsed? && |NestedCommands(t)| > 0
    ensures h.verbs.Some? ==> h.verbs.value == NestedCommands(t)
  {
    if result.Parsed? then
      var nested := NestedCommands(t);
      if |nested| > 0 then AddVerbs(AutoBuildParsed(result), nested) else AutoBuildParsed(result)
    else
      AutoBuildGeneric(result)
  }

  /** The static `Commands` array: the top-level types that derive directly from `Command` and carry a verb. */
  predicate IsRootCommand(t: TypeDesc)
    ensures IsRootCommand(t) && WellFormed(t) ==> IsVerbCommand(t)
    ensures IsRootCommand(t) ==> !t.isNested
  {
    !t.isNested && t.baseIsCommand && t.verb.Some?
  }

  function RootCommands(assemblyTypes: seq<TypeDesc>): (r: seq<TypeDesc>)
    ensures forall t :: t in r <==> t in assemblyTypes && IsRootCommand(t)
  {
    Filter(assemblyTypes, IsRootCommand)
  }

  /** In a well-formed assembly every root is a verb command, so the resolver starts from verb commands. */
  lemma RootCommandsAreVerbCommands(assemblyTypes: seq<TypeDesc>)
    requires forall t :: t in assemblyTypes ==> WellFormed(t)
    ensures forall t :: t in RootCommands(assemblyTypes) ==> IsVerbCommand(t)
  {
  }

  /** `Parser.Default`: the library's default settings are case sensitive. */
  const DefaultParser := Parser(true)

  /** What `ParseAndExecute` returns, or the exception it lets escape. */
  datatype Outcome = Returned(result: ParserResult) | Threw(error: Exception)

  /**
   * What `ParseAndExecute` does with the outcome of `ParseCommands`: an
   * exception from resolution escapes; an engine result that is Parsed
   * with a non-`Command` value raises `InvalidOperation`; any other engine
   * result is returned.
   */
  function Settle(request: Result<BindRequest, Exception>, engine: BindRequest -> ParserResult): (o: Outcome)
    ensures request.Failure? ==> o == Threw(request.error)
    ensures o.Returned? <==>
      request.Success? && !(engine(request.value).Parsed? && engine(request.value).value.OtherValue?)
    ensures o.Returned? ==> o.result == engine(request.value)
    ensures request.Success? && o.Threw? ==> o.error.InvalidOperation?
  {
    match request
    case Failure(e) => Threw(e)
    case Success(req) =>
      var res := engine(req);
      if res.Parsed? && res.value.OtherValue? then
        Threw(InvalidOperation(res.value.valueType.fullName))
      else
        Returned(res)
  }

  /** The outcome of `ParseAndExecute(parser, args)`; `DispatchOutcomes` states what it is. */
  function Dispatch(parser: Option<Parser>, args: Option<seq<string>>, assemblyTypes: seq<TypeDesc>,
                    engine: BindRequest -> ParserResult): (o: Outcome)
    ensures parser.None? ==> o == Threw(ArgumentNull("parser"))
    ensures parser.Some? && args.None? ==> o == Threw(ArgumentNull("args"))
    ensures parser.Some? && args.Some? ==> o.Returned? || o.error.InvalidOperation?
  {
    Settle(ParseCommands(parser, args, Some(RootCommands(assemblyTypes))), engine)
  }

  /**
   * What `ParseAndExecute(parser, args)` yields: an `ArgumentNull` exactly
   * when the parser or the arguments are null; an `InvalidOperation`
   * exactly when the engine's result is Parsed with a value that is not a
   * `Command`; and in every other case it returns, with exactly the
   * engine's result for the resolved request, whatever its tag.
   */
  lemma DispatchOutcomes(parser: Option<Parser>, args: Option<seq<string>>, assemblyTypes: seq<TypeDesc>,
                         engine: BindRequest -> ParserResult)
    ensures var o := Dispatch(parser, args, assemblyTypes, engine);
      o.Threw? && o.error.ArgumentNull? <==> parser.None? || args.None?
    ensures var o := Dispatch(parser, args, assemblyTypes, engine);
      o.Threw? && o.error.InvalidOperation? <==>
        parser.Some? && args.Some? &&
        var res := engine(Resolve(parser.value.caseSensitive, args.value, RootCommands(assemblyTypes)));
        res.Parsed? && res.value.OtherValue?
    ensures var o := Dispatch(parser, args, assemblyTypes, engine);
      o.Returned? <==>
        parser.Some? && args.Some? &&
        var res := engine(Resolve(parser.value.caseSensitive, args.value, RootCommands(assemblyTypes)));
        !(res.Parsed? && res.value.OtherValue?)
    ensures var o := Dispatch(parser, args, assemblyTypes, engine);
      o.Returned? ==>
        parser.Some? && args.Some? &&
        o.result == engine(Resolve(parser.value.caseSensitive, args.value, RootCommands(assemblyTypes)))
  {
  }

  /** The command instance that a dispatch with outcome `o` stores the result on and executes, if any. */
  function Executed(o: Outcome): (s: set<Command>)
    ensures |s| <= 1
    ensures forall c :: c in s ==> o == Returned(Parsed(CommandValue(c)))
    ensures o.Returned? && o.result.Parsed? && o.result.value.CommandValue? ==> o.result.value.cmd in s
  {
    match o
    case Returned(Parsed(CommandValue(c))) => {c}
    case _ => {}
  }

  /**
   * An engine that binds only to one of the candidate types it was given,
   * and returns a non-`Command` object only for a non-`Command` type.
   */
  ghost predicate BindsCandidates(engine: BindRequest -> ParserResult) {
    forall req: BindRequest ::
      var res := engine(req);
      res.Parsed? && res.value.OtherValue? ==>
        res.value.valueType in req.types && !res.value.valueType.isCommand
  }

  /**
   * With a well-formed assembly and such an engine, the dispatcher's
   * `InvalidOperationException` can never be raised: every candidate the
   * resolver hands over is a `Command` type.
   */
  lemma RegisteredCommandsNeverMismatch(parser: Option<Parser>, args: Option<seq<string>>,
                                        assemblyTypes: seq<TypeDesc>, engine: BindRequest -> ParserResult)
    requires forall t :: t in assemblyTypes ==> WellFormed(t)
    requires BindsCandidates(engine)
    ensures !(Dispatch(parser, args, assemblyTypes, engine).Threw? &&
              Dispatch(parser, args, assemblyTypes, engine).error.InvalidOperation?)
  {
    DispatchOutcomes(parser, args, assemblyTypes, engine);
    if parser.Some? && args.Some? {
      var roots := RootCommands(assemblyTypes);
      RootCommandsAreVerbCommands(assemblyTypes);
      var request := Resolve(parser.value.caseSensitive, args.value, roots);
      ResolveDelegatesVerbCommands(parser.value.caseSensitive, args.value, roots);
      var res := engine(request);
    }
  }

  /** The base class of a program command. */
  class Command {
    /** `this.GetType()`. */
    const commandType: TypeDesc
    /** The memoised `helpText` field; `None` is null. */
    var helpText: Option<Help>
    /** The `ParseResult` property; `None` until `ParseAndExecute` assigns it. */
    var parseResult: Option<ParserResult>
    /** The `ParseResult` seen by each call of `Execute`, in call order. */
    var executions: seq<Option<ParserResult>>
    /** How many times help has been built for this instance. */
    var helpBuilds: nat

    /** Help is built once, exactly when the cache has been filled. */
    ghost predicate Valid()
      reads this
    {
      helpBuilds == if helpText.Some? then 1 else 0
    }

    constructor (t: TypeDesc)
      ensures Valid()
      ensures commandType == t && helpText == None && parseResult == None && executions == []
    {
      commandType := t;
      helpText := None;
      parseResult := None;
      executions := [];
      helpBuilds := 0;
    }

    /**
     * The `HelpText` getter. A filled cache is returned as it is; otherwise
     * help is built from the parse result and cached. Reading the result
     * while it is still null raises `NullReferenceException`.
     */
    method GetHelpText() returns (r: Result<Help, Exception>)
      requires Valid()
      modifies this`helpText, this`helpBuilds
      ensures Valid() && helpBuilds <= 1
      ensures old(helpText).Some? ==> r == Success(old(helpText).value) && helpText == old(helpText)
      ensures old(helpText).None? && parseResult.Some? ==>
        r == Success(BuildHelp(parseResult.value, commandType)) && helpText == Some(r.value)
      ensures old(helpText).None? && parseResult.None? ==> r == Failure(NullReference) && helpText == None
    {
      if helpText.None? {
        if parseResult.None? {
          return Failure(NullReference);
        }
        var result := parseResult.value;
        if result.Parsed? {
          var h := AutoBuildParsed(result);
          var nested := NestedCommands(commandType);
          if |nested| > 0 {
            h := AddVerbs(h, nested);
          }
          helpText := Some(h);
        } else {
          helpText := Some(AutoBuildGeneric(result));
        }
        helpBuilds := helpBuilds + 1;
      }
      r := Success(helpText.value);
    }

    /** The abstract `Execute`: its only modelled effect is to record the parse result it runs with. */
    method Execute()
      modifies this`executions
      ensures executions == old(executions) + [parseResult]
      ensures Valid() == old(Valid())
    {
      executions := executions + [parseResult];
    }

    /**
     * Binding and the `WithParsed` callback, once resolution has produced
     * `request`: a resolution exception escapes; otherwise the engine's
     * result is returned, and only for a Parsed `Command` value is the
     * result stored on that command and `Execute` called on it, exactly
     * once and after the store. Nothing else is modified.
     */
    static method BindAndExecute(request: Result<BindRequest, Exception>, engine: BindRequest -> ParserResult)
      returns (outcome: Outcome)
      modifies Executed(Settle(request, engine))`parseResult, Executed(Settle(request, engine))`executions
      ensures outcome == Settle(request, engine)
      ensures forall c :: c in Executed(Settle(request, engine)) ==>
        c.parseResult == Some(outcome.result) && c.executions == old(c.executions) + [Some(outcome.result)]
      ensures forall c :: c in Executed(Settle(request, engine)) ==> c.Valid() == old(c.Valid())
    {
      if request.Failure? {
        return Threw(request.error);
      }
      var result := engine(request.value);
      if result.Parsed? {
        match result.value
        case OtherValue(t) =>
          return Threw(InvalidOperation(t.fullName));
        case CommandValue(cmd) =>
          assert Executed(Settle(request, engine)) == {cmd};
          cmd.parseResult := Some(result);
          cmd.Execute();
      }
      return Returned(result);
    }

    /** `ParseAndExecute(parser, args)`: resolution from the root commands, then binding and execution. */
    static method ParseAndExecute(parser: Option<Parser>, args: Option<seq<string>>, assemblyTypes: seq<TypeDesc>,
                                  engine: BindRequest -> ParserResult) returns (outcome: Outcome)
      modifies Executed(Dispatch(parser, args, assemblyTypes, engine))`parseResult
      modifies Executed(Dispatch(parser, args, assemblyTypes, engine))`executions
      ensures outcome == Dispatch(parser, args, assemblyTypes, engine)
      ensures forall c :: c in Executed(Dispatch(parser, args, assemblyTypes, engine)) ==>
        c.parseResult == Some(outcome.result) && c.executions == old(c.executions) + [Some(outcome.result)]
      ensures forall c :: c in Executed(Dispatch(parser, args, assemblyTypes, engine)) ==>
        c.Valid() == old(c.Valid())
    {
      var request := ParseCommands(parser, args, Some(RootCommands(assemblyTypes)));
      outcome := BindAndExecute(request, engine);
    }

    /** `ParseAndExecute(args)`: the same with `Parser.Default`. */
    static method ParseAndExecuteDefault(args: Option<seq<string>>, assemblyTypes: seq<TypeDesc>,
                                         engine: BindRequest -> ParserResult) returns (outcome: Outcome)
      modifies Executed(Dispatch(Some(DefaultParser), args, assemblyTypes, engine))`parseResult
      modifies Executed(Dispatch(Some(DefaultParser), args, assemblyTypes, engine))`executions
      ensures outcome == Dispatch(Some(DefaultParser), args, assemblyTypes, engine)
      ensures forall c :: c in Executed(Dispatch(Some(DefaultParser), args, assemblyTypes, engine)) ==>
        c.parseResult == Some(outcome.result) && c.executions == old(c.executions) + [Some(outcome.result)]
      ensures forall c :: c in Executed(Dispatch(Some(DefaultParser), args, assemblyTypes, engine)) ==>
        c.Valid() == old(c.Valid())
    {
      outcome := ParseAndExecute(Some(DefaultParser), args, assemblyTypes, engine);
    }
  }
}
