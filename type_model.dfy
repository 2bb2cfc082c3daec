/**
 * The part of .NET reflection and of the CommandLineParser library that the
 * command router consults, replaced by plain values: a type descriptor tree,
 * the parser's case-sensitivity setting, the exceptions the router throws,
 * and the two string tests it performs (a flag prefix and a verb comparison).
 */
module TypeModel {
  import opened Wrappers

  /**
   * What the router asks of a `System.Type` through reflection.
   *  - isNested:      `Type.IsNested`
   *  - baseIsCommand: `Type.BaseType == typeof(Command)` (a direct subclass)
   *  - isCommand:     `typeof(Command).IsAssignableFrom(type)` (any subclass)
   *  - verb:          the name of the `VerbAttribute` declared on the type itself, if any
   *  - nestedTypes:   `GetNestedTypes(Public | NonPublic)`, in the order reflection returns them, unfiltered
   */
  datatype TypeDesc = TypeDesc(
    fullName: string,
    isNested: bool,
    baseIsCommand: bool,
    isCommand: bool,
    verb: Option<string>,
    nestedTypes: seq<TypeDesc>)

  /** A direct subclass of `Command` is also assignable to `Command`. */
  predicate WellFormed(t: TypeDesc) {
    t.baseIsCommand ==> t.isCommand
  }

  /** The parser; only `Settings.CaseSensitive` matters to verb resolution. */
  datatype Parser = Parser(caseSensitive: bool)

  /** The exceptions the router raises. */
  datatype Exception =
    | ArgumentNull(paramName: string)     // ArgumentNullException(nameof(...))
    | InvalidOperation(typeName: string)  // a parsed value that is not a Command
    | NullReference                       // dereferencing a null ParseResult

  /** `Enumerable.FirstOrDefault` on a string array: the first token, or null when there is none. */
  function FirstOrDefault(args: seq<string>): (r: Option<string>)
    ensures r.Some? <==> |args| > 0
    ensures r.Some? ==> r.value == args[0]
  {
    if |args| == 0 then None else Some(args[0])
  }

  /** `s.StartsWith("-")`: the token is a flag, not a verb. */
  predicate StartsWithDash(s: string)
    ensures StartsWithDash(s) <==> |s| >= 1 && s[..1] == "-"
  {
    |s| > 0 && s[0] == '-'
  }

  /** Upper-case folding of one character, as `OrdinalIgnoreCase` does, restricted to ASCII. */
  function FoldChar(c: char): char {
    if 'a' <= c <= 'z' then (c as int - 32) as char else c
  }

  function FoldCase(s: string): (r: string)
    ensures |r| == |s|
    ensures forall i :: 0 <= i < |s| ==> r[i] == FoldChar(s[i])
  {
    if s == [] then [] else [FoldChar(s[0])] + FoldCase(s[1..])
  }

  /**
   * `name.Equals(verb, comparison)`: `Ordinal` when the parser is case
   * sensitive, `OrdinalIgnoreCase` otherwise; a null `verb` equals no name.
   */
  predicate NameEquals(name: string, verb: Option<string>, caseSensitive: bool)
    ensures verb.None? ==> !NameEquals(name, verb, caseSensitive)
    ensures caseSensitive ==> (NameEquals(name, verb, caseSensitive) <==> verb == Some(name))
  {
    verb.Some? &&
    if caseSensitive then name == verb.value else FoldCase(name) == FoldCase(verb.value)
  }

  /**
   * `OrdinalIgnoreCase` compares character by character after folding:
   * a name matches a verb exactly when both have the same length and
   * agree at every position once folded.
   */
  lemma IgnoreCaseIsCharwiseFolded(name: string, v: string)
    ensures NameEquals(name, Some(v), false) <==>
      |name| == |v| && forall i :: 0 <= i < |name| ==> FoldChar(name[i]) == FoldChar(v[i])
  {
    if |name| == |v| && forall i :: 0 <= i < |name| ==> FoldChar(name[i]) == FoldChar(v[i]) {
      assert FoldCase(name) == FoldCase(v);
    }
  }

  /** Ignoring case identifies a lower-case letter with its upper-case form, unlike `Ordinal`. */
  lemma IgnoreCaseFoldsLetters(c: char)
    requires 'a' <= c <= 'z'
    ensures NameEquals([c], Some([(c as int - 32) as char]), false)
    ensures !NameEquals([c], Some([(c as int - 32) as char]), true)
  {
    IgnoreCaseIsCharwiseFolded([c], [(c as int - 32) as char]);
  }

  /** An ordinal match is also an ordinal-ignore-case match. */
  lemma OrdinalImpliesIgnoreCase(name: string, verb: Option<string>)
    requires NameEquals(name, verb, true)
    ensures NameEquals(name, verb, false)
  {
  }

  /**
   * Folding identifies two characters exactly when they are equal or one is
   * the ASCII lower-case form of the other: ignoring case merges letter
   * case and nothing else.
   */
  lemma FoldCharOnlyCase(a: char, b: char)
    ensures FoldChar(a) == FoldChar(b) <==>
      a == b || ('a' <= a <= 'z' && b as int == a as int - 32) || ('a' <= b <= 'z' && a as int == b as int - 32)
  {
  }

  /** Names of different lengths never match, whichever comparison is used. */
  lemma IgnoreCaseKeepsLength(name: string, verb: Option<string>, caseSensitive: bool)
    requires NameEquals(name, verb, caseSensitive)
    ensures |name| == |verb.value|
  {
  }

  /** `Enumerable.Where(p)`: the elements satisfying `p`, in their original order. */
  function Filter<T>(s: seq<T>, p: T -> bool): (r: seq<T>)
    ensures |r| <= |s|
    ensures forall x :: x in r ==> x in s && p(x)
    ensures forall x :: x in s && p(x) ==> x in r
  {
    if s == [] then [] else (if p(s[0]) then [s[0]] else []) + Filter(s[1..], p)
  }

  /** Filtering preserves order: filtering a concatenation concatenates the filtered parts. */
  lemma {:induction false} FilterAppend<T>(a: seq<T>, b: seq<T>, p: T -> bool)
    ensures Filter(a + b, p) == Filter(a, p) + Filter(b, p)
  {
    if a == [] {
      assert a + b == b;
    } else {
      assert (a + b)[0] == a[0];
      assert (a + b)[1..] == a[1..] + b;
      FilterAppend(a[1..], b, p);
    }
  }
}
