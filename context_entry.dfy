/**
 * ParseContextEntry: a context entry `<project>.<build>+<target>` (or
 * `<project>+<target>.<build>`) is cut into its three names. The source
 * matches three ECMAScript regular expressions; their results are stated
 * here directly as string functions:
 *  - the project is the text before the first '.' or '+', or the whole entry;
 *  - the build type follows the last '.' that comes before the last '+' and
 *    runs up to that '+'; when no '.' precedes the last '+', it is the text
 *    after the last '.'; without any '.', it is "";
 *  - the target type is the same with '.' and '+' swapped.
 * The greedy `.*` makes build and target start after the LAST separator.
 * ECMAScript '.' matches no line terminator, so an entry holding '\n' or
 * '\r' fails every pattern and gives three empty names.
 */
module ContextEntries {
  import opened Wrappers
  import opened Strings

  datatype ContextName = ContextName(project: string, build: string, target: string)

  /** The three names, in the order the parser fills them. */
  datatype ContextField = ProjectField | BuildField | TargetField

  const BuildSeparator := '.'
  const TargetSeparator := '+'

  /** No character that ECMAScript '.' refuses. */
  predicate SingleLine(entry: string) {
    '\n' !in entry && '\r' !in entry
  }

  /** The text before the first separator, or the whole entry. */
  function ProjectOf(entry: string): string {
    if !SingleLine(entry) then "" else entry[..FindFirstOf(entry, {BuildSeparator, TargetSeparator})]
  }

  /** The text after the last `open`, or "" when there is none. */
  function AfterLast(s: string, open: char): string {
    match FindLast(s, open)
    case Some(o) => s[o + 1..]
    case None => ""
  }

  /**
   * The field introduced by `open` and possibly closed by `close`: between
   * the last `open` before the last `close` and that `close`; otherwise
   * after the last `open`; otherwise "".
   */
  function FieldAfter(entry: string, open: char, close: char): string {
    if !SingleLine(entry) then ""
    else match FindLast(entry, close)
      case Some(c) =>
        (match FindLast(entry[..c], open)
         case Some(o) => entry[o + 1..c]
         case None => AfterLast(entry, open))
      case None => AfterLast(entry, open)
  }

  function BuildOf(entry: string): string {
    FieldAfter(entry, BuildSeparator, TargetSeparator)
  }

  function TargetOf(entry: string): string {
    FieldAfter(entry, TargetSeparator, BuildSeparator)
  }

  /** What the pattern for `field` captures. */
  function Capture(field: ContextField, entry: string): string {
    match field
    case ProjectField => ProjectOf(entry)
    case BuildField => BuildOf(entry)
    case TargetField => TargetOf(entry)
  }

  /** `context` with `field` set to `value`: the assignment through the field's reference. */
  function Store(context: ContextName, field: ContextField, value: string): ContextName {
    match field
    case ProjectField => context.(project := value)
    case BuildField => context.(build := value)
    case TargetField => context.(target := value)
  }

  /** ParseContextEntry: each pattern in turn writes what it captures into its field. */
  method ParseContextEntry(contextEntry: string) returns (context: ContextName)
    ensures context == Parse(contextEntry)
  {
    context := ContextName("", "", "");
    var fields := [ProjectField, BuildField, TargetField];
    for i := 0 to |fields|
      invariant context.project == (if i > 0 then ProjectOf(contextEntry) else "")
      invariant context.build == (if i > 1 then BuildOf(contextEntry) else "")
      invariant context.target == (if i > 2 then TargetOf(contextEntry) else "")
    {
      context := Store(context, fields[i], Capture(fields[i], contextEntry));
    }
  }

  /** The whole parse as a value. */
  function Parse(entry: string): ContextName {
    ContextName(ProjectOf(entry), BuildOf(entry), TargetOf(entry))
  }

  /** The entry of a context name: `.build` and `+target` only when they are non-empty. */
  function Compose(context: ContextName): string {
    context.project
      + (if context.build == "" then "" else [BuildSeparator] + context.build)
      + (if context.target == "" then "" else [TargetSeparator] + context.target)
  }

  /** A name that can stand in an entry: no separator and no line terminator. */
  predicate Plain(name: string) {
    SingleLine(name) && BuildSeparator !in name && TargetSeparator !in name
  }

  /** The project is a separator-free start of a single-line entry, ending at the first separator. */
  lemma ProjectIsFirstField(entry: string)
    requires SingleLine(entry)
    ensures var p := ProjectOf(entry);
      && p == entry[..|p|]
      && BuildSeparator !in p && TargetSeparator !in p
      && (|p| < |entry| ==> entry[|p|] == BuildSeparator || entry[|p|] == TargetSeparator)
  {
    FindFirstOfSpec(entry, {BuildSeparator, TargetSeparator});
  }

  /** Any line terminator empties all three names. */
  lemma LineTerminatorEmptiesAll(entry: string)
    requires !SingleLine(entry)
    ensures Parse(entry) == ContextName("", "", "")
  {
  }

  /** The field never holds its own separator. */
  lemma FieldWithoutOpener(entry: string, open: char, close: char)
    ensures open !in FieldAfter(entry, open, close)
  {
    FindLastSpec(entry, open);
    FindLastSpec(entry, close);
    match FindLast(entry, close)
    case Some(c) =>
      FindLastSpec(entry[..c], open);
    case None =>
  }

  /** Without a '.', the build type is empty. */
  lemma NoBuildSeparator(entry: string)
    requires BuildSeparator !in entry
    ensures BuildOf(entry) == ""
  {
    FindLastSpec(entry, BuildSeparator);
    match FindLast(entry, TargetSeparator)
    case Some(c) =>
      FindLastSpec(entry[..c], BuildSeparator);
    case None =>
  }

  /** Without a '+', the target type is empty. */
  lemma NoTargetSeparator(entry: string)
    requires TargetSeparator !in entry
    ensures TargetOf(entry) == ""
  {
    FindLastSpec(entry, TargetSeparator);
    match FindLast(entry, BuildSeparator)
    case Some(c) =>
      FindLastSpec(entry[..c], TargetSeparator);
    case None =>
  }

  /** The project of `p` followed by a separator and anything is `p`. */
  lemma ProjectBeforeSeparator(p: string, sep: char, rest: string)
    requires Plain(p) && SingleLine(rest) && (sep == BuildSeparator || sep == TargetSeparator)
    ensures ProjectOf(p + [sep] + rest) == p
  {
    FindFirstOfAfter(p, {BuildSeparator, TargetSeparator}, [sep] + rest);
    assert p + [sep] + rest == p + ([sep] + rest);
  }

  /** The field after `open` in `p + open + a + close + b`, with separator-free parts, is `a`. */
  lemma FieldBeforeClose(p: string, open: char, a: string, close: char, b: string)
    requires Plain(p) && Plain(a) && Plain(b) && open != close
    requires open in {BuildSeparator, TargetSeparator} && close in {BuildSeparator, TargetSeparator}
    ensures FieldAfter(p + [open] + a + [close] + b, open, close) == a
  {
    var head := p + [open] + a;
    FindLastAt(head, close, b);
    assert (head + [close] + b)[..|head|] == head;
    FindLastAt(p, open, a);
  }

  /** The field after `open` in `p + close + b + open + a`, with separator-free parts, is `a`. */
  lemma FieldAfterClose(p: string, close: char, b: string, open: char, a: string)
    requires Plain(p) && Plain(a) && Plain(b) && open != close
    requires open in {BuildSeparator, TargetSeparator} && close in {BuildSeparator, TargetSeparator}
    ensures FieldAfter(p + [close] + b + [open] + a, open, close) == a
  {
    var entry := p + [close] + b + [open] + a;
    var head := p + [close] + b;
    FindLastAt(p, close, b + [open] + a);
    assert entry == p + [close] + (b + [open] + a);
    assert entry[..|p|] == p;
    FindLastSpec(p, open);
    FindLastAt(head, open, a);
  }

  /** The field after `open` in `p + open + a`, with no `close` anywhere, is `a`. */
  lemma FieldAtEnd(p: string, open: char, a: string, close: char)
    requires Plain(p) && Plain(a) && open != close
    requires open in {BuildSeparator, TargetSeparator} && close in {BuildSeparator, TargetSeparator}
    ensures FieldAfter(p + [open] + a, open, close) == a
  {
    FindLastSpec(p + [open] + a, close);
    FindLastAt(p, open, a);
  }

  /** `p.b+t` gives project p, build b and target t. */
  lemma ParseBuildThenTarget(p: string, b: string, t: string)
    requires Plain(p) && Plain(b) && Plain(t)
    ensures Parse(p + "." + b + "+" + t) == ContextName(p, b, t)
  {
    var entry := p + "." + b + "+" + t;
    assert entry == p + [BuildSeparator] + (b + "+" + t);
    ProjectBeforeSeparator(p, BuildSeparator, b + "+" + t);
    FieldBeforeClose(p, BuildSeparator, b, TargetSeparator, t);
    FieldAfterClose(p, BuildSeparator, b, TargetSeparator, t);
  }

  /** `p+t.b` gives project p, build b and target t as well. */
  lemma ParseTargetThenBuild(p: string, t: string, b: string)
    requires Plain(p) && Plain(b) && Plain(t)
    ensures Parse(p + "+" + t + "." + b) == ContextName(p, b, t)
  {
    var entry := p + "+" + t + "." + b;
    assert entry == p + [TargetSeparator] + (t + "." + b);
    ProjectBeforeSeparator(p, TargetSeparator, t + "." + b);
    FieldBeforeClose(p, TargetSeparator, t, BuildSeparator, b);
    FieldAfterClose(p, TargetSeparator, t, BuildSeparator, b);
  }

  /** `p.b` gives project p, build b and no target. */
  lemma ParseBuildOnly(p: string, b: string)
    requires Plain(p) && Plain(b)
    ensures Parse(p + "." + b) == ContextName(p, b, "")
  {
    ProjectBeforeSeparator(p, BuildSeparator, b);
    FieldAtEnd(p, BuildSeparator, b, TargetSeparator);
    NoTargetSeparator(p + "." + b);
  }

  /** `p+t` gives project p, no build and target t. */
  lemma ParseTargetOnly(p: string, t: string)
    requires Plain(p) && Plain(t)
    ensures Parse(p + "+" + t) == ContextName(p, "", t)
  {
    ProjectBeforeSeparator(p, TargetSeparator, t);
    FieldAtEnd(p, TargetSeparator, t, BuildSeparator);
    NoBuildSeparator(p + "+" + t);
  }

  /** `p` alone gives project p and neither build nor target. */
  lemma ParseProjectOnly(p: string)
    requires Plain(p)
    ensures Parse(p) == ContextName(p, "", "")
  {
    FindFirstOfSpec(p, {BuildSeparator, TargetSeparator});
    NoBuildSeparator(p);
    NoTargetSeparator(p);
  }

  /** Parsing the entry composed from plain names gives those names back. */
  lemma ParseCompose(context: ContextName)
    requires Plain(context.project) && Plain(context.build) && Plain(context.target)
    ensures Parse(Compose(context)) == context
  {
    var ContextName(p, b, t) := context;
    if b == "" && t == "" {
      assert Compose(context) == p;
      ParseProjectOnly(p);
    } else if t == "" {
      assert Compose(context) == p + "." + b;
      ParseBuildOnly(p, b);
    } else if b == "" {
      assert Compose(context) == p + "+" + t;
      ParseTargetOnly(p, t);
    } else {
      assert Compose(context) == p + "." + b + "+" + t;
      ParseBuildThenTarget(p, b, t);
    }
  }

  /** A second '.' moves the build type to after it: "app.debug.v2" has build "v2". */
  lemma LastBuildSeparatorWins(p: string, x: string, b: string)
    requires Plain(p) && Plain(x) && Plain(b)
    ensures BuildOf(p + "." + x + "." + b) == b
  {
    assert p + "." + x + "." + b == (p + "." + x) + [BuildSeparator] + b;
    FindLastSpec(p + "." + x + "." + b, TargetSeparator);
    FindLastAt(p + "." + x, BuildSeparator, b);
  }
}
