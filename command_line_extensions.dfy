/**
 * Nested-verb resolution (CommandLineExtensions.cs): the child filter
 * `GetNestedCommands` and the recursive `ParseCommands`, which walks the
 * command tree one verb token at a time and finally hands a token array and
 * a candidate type array to the option-binding engine
 * (`parser.ParseArguments`). That final call is foreign, so the model
 * returns the request it would receive.
 */
module CommandLineExtensions {
  import opened Wrappers
  import opened TypeModel

  /** The arguments of the final `parser.ParseArguments(args, types)` call. */
  datatype BindRequest = Bind(args: seq<string>, types: seq<TypeDesc>)

  /** A type is a verb command when it derives from `Command` and carries a `VerbAttribute`. */
  predicate IsVerbCommand(t: TypeDesc) {
    t.isCommand && t.verb.Some?
  }

  /** The nested types of `t` that are verb commands, in the order reflection returns them. */
  function NestedCommands(t: TypeDesc): (r: seq<TypeDesc>)
    ensures forall n :: n in r ==> IsVerbCommand(n) && n in t.nestedTypes
    ensures forall n :: n in t.nestedTypes && IsVerbCommand(n) ==> n in r
    ensures |r| <= |t.nestedTypes|
  {
    Filter(t.nestedTypes, IsVerbCommand)
  }

  /** `GetNestedCommands`: throws on a null type, otherwise filters its nested types. */
  function GetNestedCommands(t: Option<TypeDesc>): (r: Result<seq<TypeDesc>, Exception>)
    ensures t.None? <==> r == Failure(ArgumentNull("type"))
    ensures r.Success? <==> t.Some?
    ensures t.Some? ==> r.value == NestedCommands(t.value)
    ensures r.Success? ==> forall n :: n in r.value ==> IsVerbCommand(n) && n in t.value.nestedTypes
    ensures r.Success? ==> forall n :: n in t.value.nestedTypes && IsVerbCommand(n) ==> n in r.value
  {
    if t.None? then Failure(ArgumentNull("type")) else Success(NestedCommands(t.value))
  }

  /**
   * The test the loop body applies to one candidate before it looks at the
   * candidate's children: a `Command` type whose verb name equals the token.
   */
  predicate IsMatch(t: TypeDesc, verb: Option<string>, caseSensitive: bool)
    ensures IsMatch(t, verb, caseSensitive) ==> IsVerbCommand(t) && verb.Some?
    ensures caseSensitive ==> (IsMatch(t, verb, caseSensitive) <==> IsVerbCommand(t) && t.verb == verb)
  {
    t.isCommand && t.verb.Some? && NameEquals(t.verb.value, verb, caseSensitive)
  }

  /** The index the `foreach` stops at: the first candidate, in array order, that matches. */
  function FirstMatch(types: seq<TypeDesc>, verb: Option<string>, caseSensitive: bool): (r: Option<nat>)
    ensures r.Some? ==> r.value < |types| && IsMatch(types[r.value], verb, caseSensitive)
    ensures r.Some? ==> forall j :: 0 <= j < r.value ==> !IsMatch(types[j], verb, caseSensitive)
    ensures r.None? ==> forall j :: 0 <= j < |types| ==> !IsMatch(types[j], verb, caseSensitive)
  {
    if types == [] then None
    else if IsMatch(types[0], verb, caseSensitive) then Some(0)
    else match FirstMatch(types[1..], verb, caseSensitive)
      case None => None
      case Some(i) => Some(i + 1)
  }

  /**
   * The body of `ParseCommands` once its arguments are known not to be null.
   * The terminal token array is always a suffix of the input, and a
   * non-empty input never loses its last token.
   */
  function Resolve(caseSensitive: bool, args: seq<string>, types: seq<TypeDesc>): (r: BindRequest)
    ensures |r.args| <= |args| && r.args == args[|args| - |r.args|..]
    ensures args != [] ==> r.args != []
    decreases |args|
  {
    var verb := FirstOrDefault(args);
    if verb.Some? && StartsWithDash(verb.value) then
      Bind(args, types)
    else
      match FirstMatch(types, verb, caseSensitive)
      case None => Bind(args, types)
      case Some(i) =>
        var nested := NestedCommands(types[i]);
        if |nested| <= 0 || |args| <= 1 then
          // `break`: fall out of the loop and delegate the whole current array
          Bind(args, types)
        else
          Resolve(caseSensitive, args[1..], nested)
  }

  /** `ParseCommands`: null checks in parameter order, then resolution. */
  function ParseCommands(parser: Option<Parser>, args: Option<seq<string>>, types: Option<seq<TypeDesc>>)
    : (r: Result<BindRequest, Exception>)
    ensures r.Failure? <==> parser.None? || args.None? || types.None?
    ensures parser.None? ==> r.error == ArgumentNull("parser")
    ensures parser.Some? && args.None? ==> r.error == ArgumentNull("args")
    ensures parser.Some? && args.Some? && types.None? ==> r.error == ArgumentNull("types")
    ensures r.Success? ==> r.value == Resolve(parser.value.caseSensitive, args.value, types.value)
  {
    if parser.None? then Failure(ArgumentNull("parser"))
    else if args.None? then Failure(ArgumentNull("args"))
    else if types.None? then Failure(ArgumentNull("types"))
    else Success(Resolve(parser.value.caseSensitive, args.value, types.value))
  }

  // ---------------------------------------------------------------------------
  // Properties of resolution

  /** First-match semantics: a matching candidate with no earlier match is the one `FirstMatch` picks. */
  lemma FirstMatchIsFirst(types: seq<TypeDesc>, verb: Option<string>, caseSensitive: bool, i: nat)
    requires i < |types| && IsMatch(types[i], verb, caseSensitive)
    requires forall j :: 0 <= j < i ==> !IsMatch(types[j], verb, caseSensitive)
    ensures FirstMatch(types, verb, caseSensitive) == Some(i)
  {
  }

  /** A leading flag token bypasses verb matching: the exact arguments and candidates are delegated. */
  lemma FlagBypassesMatching(caseSensitive: bool, args: seq<string>, types: seq<TypeDesc>)
    requires args != [] && StartsWithDash(args[0])
    ensures Resolve(caseSensitive, args, types) == Bind(args, types)
  {
  }

  /** No tokens: nothing can match (a null verb equals no name), so the current level is delegated. */
  lemma EmptyArgsDelegateCurrentLevel(caseSensitive: bool, types: seq<TypeDesc>)
    ensures Resolve(caseSensitive, [], types) == Bind([], types)
  {
  }

  /** A verb that no candidate matches is delegated unchanged, together with every candidate. */
  lemma NoMatchDelegatesUnchanged(caseSensitive: bool, args: seq<string>, types: seq<TypeDesc>)
    requires forall j :: 0 <= j < |types| ==> !IsMatch(types[j], FirstOrDefault(args), caseSensitive)
    ensures Resolve(caseSensitive, args, types) == Bind(args, types)
  {
  }

  /**
   * The first match `types[i]` has nested commands and another token
   * follows the verb: resolution continues one level down with exactly one
   * token fewer.
   */
  lemma MatchWithChildrenDescends(caseSensitive: bool, args: seq<string>, types: seq<TypeDesc>, i: nat)
    requires |args| > 1 && !StartsWithDash(args[0])
    requires i < |types| && IsMatch(types[i], Some(args[0]), caseSensitive)
    requires forall j :: 0 <= j < i ==> !IsMatch(types[j], Some(args[0]), caseSensitive)
    requires |NestedCommands(types[i])| > 0
    ensures Resolve(caseSensitive, args, types) == Resolve(caseSensitive, args[1..], NestedCommands(types[i]))
  {
    FirstMatchIsFirst(types, Some(args[0]), caseSensitive, i);
  }

  /**
   * The first match `types[i]` is a leaf, or the verb is the last token:
   * resolution stops and delegates the original tokens (verb included)
   * with the whole current candidate array, not just `types[i]`.
   */
  lemma MatchWithoutDescentDelegatesWholeLevel(caseSensitive: bool, args: seq<string>, types: seq<TypeDesc>, i: nat)
    requires args != [] && !StartsWithDash(args[0])
    requires i < |types| && IsMatch(types[i], Some(args[0]), caseSensitive)
    requires forall j :: 0 <= j < i ==> !IsMatch(types[j], Some(args[0]), caseSensitive)
    requires |NestedCommands(types[i])| == 0 || |args| == 1
    ensures Resolve(caseSensitive, args, types) == Bind(args, types)
  {
    FirstMatchIsFirst(types, Some(args[0]), caseSensitive, i);
  }

  /**
   * Resolution is idempotent: resolving the request it delegates again,
   * against the candidates it delegated, stops at once with the same request.
   */
  lemma {:induction false} ResolveIsIdempotent(caseSensitive: bool, args: seq<string>, types: seq<TypeDesc>)
    ensures var r := Resolve(caseSensitive, args, types);
      Resolve(caseSensitive, r.args, r.types) == r
    decreases |args|
  {
    var verb := FirstOrDefault(args);
    if verb.Some? && StartsWithDash(verb.value) {
    } else {
      match FirstMatch(types, verb, caseSensitive)
      case None =>
      case Some(i) =>
        var nested := NestedCommands(types[i]);
        if |nested| > 0 && |args| > 1 {
          ResolveIsIdempotent(caseSensitive, args[1..], nested);
        }
    }
  }

  /**
   * Every candidate handed to the engine is a verb command whenever the
   * starting candidates are: the roots are filtered that way and every
   * deeper level is a `GetNestedCommands` result.
   */
  lemma {:induction false} ResolveDelegatesVerbCommands(caseSensitive: bool, args: seq<string>, types: seq<TypeDesc>)
    requires forall t :: t in types ==> IsVerbCommand(t)
    ensures forall t :: t in Resolve(caseSensitive, args, types).types ==> IsVerbCommand(t)
    decreases |args|
  {
    var verb := FirstOrDefault(args);
    if verb.Some? && StartsWithDash(verb.value) {
    } else {
      match FirstMatch(types, verb, caseSensitive)
      case None =>
      case Some(i) =>
        var nested := NestedCommands(types[i]);
        if |nested| > 0 && |args| > 1 {
          ResolveDelegatesVerbCommands(caseSensitive, args[1..], nested);
        }
    }
  }

  /**
   * Each level descended consumes exactly one verb token, so the number of
   * tokens dropped is bounded by the height of the command tree below the
   * candidates.
   */
  function TypeHeight(t: TypeDesc): (h: nat)
    ensures h >= 1
    decreases t, 1
  {
    1 + Height(t.nestedTypes)
  }

  function Height(types: seq<TypeDesc>): (h: nat)
    ensures forall t :: t in types ==> TypeHeight(t) <= h
    decreases types, 0
  {
    if types == [] then 0
    else
      var first := TypeHeight(types[0]);
      var rest := Height(types[1..]);
      assert forall t :: t in types ==> t == types[0] || t in types[1..];
      if first < rest then rest else first
  }

  /** Dropping candidates never raises the height. */
  lemma {:induction false} HeightOfSubset(sub: seq<TypeDesc>, types: seq<TypeDesc>)
    requires forall t :: t in sub ==> t in types
    ensures Height(sub) <= Height(types)
    decreases |sub|
  {
    if sub != [] {
      HeightOfSubset(sub[1..], types);
    }
  }

  lemma NestedHeightBelow(types: seq<TypeDesc>, i: nat)
    requires i < |types|
    ensures Height(NestedCommands(types[i])) < Height(types)
  {
    HeightOfSubset(NestedCommands(types[i]), types[i].nestedTypes);
    assert types[i] in types;
  }

  lemma {:induction false} ResolveDepthBoundedByHeight(caseSensitive: bool, args: seq<string>, types: seq<TypeDesc>)
    ensures |args| - |Resolve(caseSensitive, args, types).args| <= Height(types)
    decreases |args|
  {
    var verb := FirstOrDefault(args);
    if verb.Some? && StartsWithDash(verb.value) {
    } else {
      match FirstMatch(types, verb, caseSensitive)
      case None =>
      case Some(i) =>
        var nested := NestedCommands(types[i]);
        if |nested| > 0 && |args| > 1 {
          ResolveDepthBoundedByHeight(caseSensitive, args[1..], nested);
          NestedHeightBelow(types, i);
        }
    }
  }
}

/**
 * Worked resolutions over a small command tree: `push` and `pull` are
 * leaves, `remote` has the nested verbs `add` and `remove`, and `Options`
 * is a nested type that is not a command.
 */
module ResolutionScenarios {
  import opened Wrappers
  import opened TypeModel
  import opened CommandLineExtensions

  function Leaf(name: string): TypeDesc {
    TypeDesc(name, false, true, true, Some(name), [])
  }

  function NestedLeaf(name: string): TypeDesc {
    TypeDesc(name, true, false, true, Some(name), [])
  }

  function PlainOptions(): TypeDesc {
    TypeDesc("Options", true, false, false, None, [])
  }

  function Remote(): TypeDesc {
    TypeDesc("remote", false, true, true, Some("remote"),
      [NestedLeaf("add"), PlainOptions(), NestedLeaf("remove")])
  }

  function Roots(): seq<TypeDesc> {
    [Leaf("push"), Leaf("pull"), Remote()]
  }

  /** The non-command nested type is filtered out; the order of the rest is kept. */
  lemma RemoteNestedCommands()
    ensures NestedCommands(Remote()) == [NestedLeaf("add"), NestedLeaf("remove")]
  {
    assert Remote().nestedTypes[1..] == [PlainOptions(), NestedLeaf("remove")];
    assert Remote().nestedTypes[2..] == [NestedLeaf("remove")];
  }

  /** A leaf verb keeps its token and the whole root array is delegated (not `{push}` alone). */
  lemma PushWithFlag()
    ensures Resolve(true, ["push", "--force"], Roots()) == Bind(["push", "--force"], Roots())
  {
    MatchWithoutDescentDelegatesWholeLevel(true, ["push", "--force"], Roots(), 0);
  }

  /** A verb with nested verbs and a following token descends once, dropping the verb. */
  lemma RemoteAddDescends()
    ensures Resolve(true, ["remote", "add", "origin", "url"], Roots())
         == Bind(["add", "origin", "url"], [NestedLeaf("add"), NestedLeaf("remove")])
  {
    RemoteNestedCommands();
    var args := ["remote", "add", "origin", "url"];
    assert !IsMatch(Roots()[0], Some(args[0]), true) by { assert "push" != "remote"; }
    assert !IsMatch(Roots()[1], Some(args[0]), true) by { assert "pull" != "remote"; }
    MatchWithChildrenDescends(true, args, Roots(), 2);
    var nested := [NestedLeaf("add"), NestedLeaf("remove")];
    assert args[1..] == ["add", "origin", "url"];
    MatchWithoutDescentDelegatesWholeLevel(true, args[1..], nested, 0);
  }

  /** A verb with nested verbs but no following token does not descend. */
  lemma RemoteAloneStops()
    ensures Resolve(true, ["remote"], Roots()) == Bind(["remote"], Roots())
  {
    assert !IsMatch(Roots()[0], Some("remote"), true) by { assert "push" != "remote"; }
    assert !IsMatch(Roots()[1], Some("remote"), true) by { assert "pull" != "remote"; }
    MatchWithoutDescentDelegatesWholeLevel(true, ["remote"], Roots(), 2);
  }

  /** Under `OrdinalIgnoreCase`, `REMOTE` names `remote`. */
  lemma UpperCaseRemoteMatchesIgnoringCase()
    ensures NameEquals("remote", Some("REMOTE"), false)
  {
    assert FoldCase("remote") == FoldCase("REMOTE");
  }

  /** ...and neither `push` nor `pull`. */
  lemma UpperCaseRemoteIsNotPushOrPull()
    ensures !NameEquals("push", Some("REMOTE"), false)
    ensures !NameEquals("pull", Some("REMOTE"), false)
  {
    assert FoldCase("REMOTE")[0] == 'R';
    assert FoldCase("push")[0] == 'P';
    assert FoldCase("pull")[0] == 'P';
  }

  /**
   * Case-insensitive parsing matches `REMOTE` against the verb `remote` and
   * descends. (The inputs are parameters fixed by the requires clause so
   * that the verifier does not unfold the resolver on string literals.)
   */
  lemma IgnoreCaseDescendsIntoRemote(caseSensitive: bool, args: seq<string>, roots: seq<TypeDesc>)
    requires !caseSensitive && args == ["REMOTE", "add"] && roots == Roots()
    ensures Resolve(caseSensitive, args, roots) == Bind(["add"], [NestedLeaf("add"), NestedLeaf("remove")])
  {
    RemoteNestedCommands();
    RemoteIsFirstIgnoringCase(caseSensitive, Some(args[0]), roots);
    DescendAtThirdRoot(caseSensitive, args, roots);
    assert args[1..] == ["add"];
    AddIsLeaf(caseSensitive, args[1..], NestedCommands(roots[2]));
  }

  /** Descent through the third root once it is known to be the first match. */
  lemma DescendAtThirdRoot(caseSensitive: bool, args: seq<string>, roots: seq<TypeDesc>)
    requires |args| > 1 && !StartsWithDash(args[0]) && |roots| == 3
    requires IsMatch(roots[2], Some(args[0]), caseSensitive)
    requires !IsMatch(roots[0], Some(args[0]), caseSensitive) && !IsMatch(roots[1], Some(args[0]), caseSensitive)
    requires |NestedCommands(roots[2])| > 0
    ensures Resolve(caseSensitive, args, roots) == Resolve(caseSensitive, args[1..], NestedCommands(roots[2]))
  {
    MatchWithChildrenDescends(caseSensitive, args, roots, 2);
  }

  /** Ignoring case, `remote` is the first root that `REMOTE` matches. */
  lemma RemoteIsFirstIgnoringCase(caseSensitive: bool, verb: Option<string>, roots: seq<TypeDesc>)
    requires !caseSensitive && verb == Some("REMOTE") && roots == Roots()
    ensures |roots| == 3 && IsMatch(roots[2], verb, caseSensitive)
    ensures !IsMatch(roots[0], verb, caseSensitive) && !IsMatch(roots[1], verb, caseSensitive)
  {
    UpperCaseRemoteMatchesIgnoringCase();
    UpperCaseRemoteIsNotPushOrPull();
  }

  /** The last step: `add` is a leaf, so resolution stops at `remote`'s nested commands. */
  lemma AddIsLeaf(caseSensitive: bool, args: seq<string>, nested: seq<TypeDesc>)
    requires args == ["add"] && nested == [NestedLeaf("add"), NestedLeaf("remove")]
    ensures Resolve(caseSensitive, args, nested) == Bind(args, nested)
  {
    MatchWithoutDescentDelegatesWholeLevel(caseSensitive, args, nested, 0);
  }

  /** Case-sensitive parsing finds no verb `REMOTE` and delegates unchanged. */
  lemma OrdinalRejectsUpperCaseVerb()
    ensures Resolve(true, ["REMOTE", "add"], Roots()) == Bind(["REMOTE", "add"], Roots())
  {
    var args := ["REMOTE", "add"];
    assert forall j :: 0 <= j < 3 ==> !IsMatch(Roots()[j], Some(args[0]), true);
    NoMatchDelegatesUnchanged(true, args, Roots());
  }

  /** An unknown verb is delegated unchanged for the engine to report. */
  lemma UnknownVerbDelegated()
    ensures Resolve(true, ["bogus"], Roots()) == Bind(["bogus"], Roots())
  {
    assert forall j :: 0 <= j < 3 ==> !IsMatch(Roots()[j], Some("bogus"), true);
    NoMatchDelegatesUnchanged(true, ["bogus"], Roots());
  }
}
