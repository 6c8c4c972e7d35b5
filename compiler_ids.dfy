/**
 * The compiler version-range engine of ProjMgrUtils. A compiler id has the
 * form `<name>@[>=]<version>`: a bare name accepts any version, `@>=v`
 * accepts v and later, `@v` accepts v only. Versions are compared by
 * VersionCmp::Compare, whose code is not part of this model: it is a
 * parameter `compare`, and the lemmas state what they assume of it.
 */
module CompilerIds {
  import opened Strings
  import opened RteUtils

  /** VersionCmp::Compare: negative, zero or positive as the first version is below, equal to or above the second. */
  type Comparator = (string, string) -> int

  /** What every comparator is assumed to do: a version equals itself, and swapping the arguments swaps the sign. */
  ghost predicate ValidComparator(compare: Comparator) {
    && (forall v :: compare(v, v) == 0)
    && (forall a, b :: compare(a, b) < 0 <==> compare(b, a) > 0)
  }

  /** A comparator that is also transitive, so that it orders versions. */
  ghost predicate VersionOrder(compare: Comparator) {
    && ValidComparator(compare)
    && (forall a, b, c :: compare(a, b) <= 0 && compare(b, c) <= 0 ==> compare(a, c) <= 0)
  }

  /** A version order under which only equal strings compare equal. */
  ghost predicate StrictOrder(compare: Comparator) {
    && VersionOrder(compare)
    && (forall a, b :: compare(a, b) == 0 ==> a == b)
  }

  /** The minimum version that stands for "any version". */
  const AnyVersion := "0.0.0"
  const MinimumMarker := ">="

  /** The name, minimum and maximum version that ExpandCompilerId writes; an empty maximum means "no upper bound". */
  datatype Expansion = Expansion(name: string, minVer: string, maxVer: string)

  /**
   * What ExpandCompilerId leaves in its three reference parameters. `maxVer`
   * is the caller's value on entry: it is overwritten only for a fixed
   * version. The ">=" marker is looked for anywhere in the version, but it is
   * the first two characters that are dropped.
   */
  function Expanded(compiler: string, maxVer: string): (e: Expansion)
    ensures e.maxVer == maxVer || e.maxVer == e.minVer != ""
    ensures |e.name| <= |compiler|
  {
    var name := GetPrefix(compiler, '@');
    var version := GetSuffix(compiler, '@');
    if version == "" then Expansion(name, AnyVersion, maxVer)
    else if FindString(version, MinimumMarker) < |version| then Expansion(name, version[2..], maxVer)
    else Expansion(name, version, version)
  }

  /** ExpandCompilerId with its reference parameters: `maxVerIn` is the value `maxVer` holds on entry. */
  method ExpandCompilerId(compiler: string, maxVerIn: string) returns (name: string, minVer: string, maxVer: string)
    ensures Expansion(name, minVer, maxVer) == Expanded(compiler, maxVerIn)
  {
    maxVer := maxVerIn;
    name := GetPrefix(compiler, '@');
    var version := GetSuffix(compiler, '@');
    if version == "" {
      minVer := AnyVersion;
    } else if FindString(version, MinimumMarker) < |version| {
      minVer := version[2..];
    } else {
      minVer := version;
      maxVer := version;
    }
  }

  /** A bare name accepts any version and leaves the maximum untouched. */
  lemma ExpandBareName(name: string, maxVer: string)
    requires '@' !in name
    ensures Expanded(name, maxVer) == Expansion(name, AnyVersion, maxVer)
  {
    NoDelimiter(name, '@');
  }

  /** `name@>=v` has minimum v and leaves the maximum untouched. */
  lemma ExpandMinimumVersion(name: string, version: string, maxVer: string)
    requires '@' !in name && '@' !in version
    ensures Expanded(name + "@>=" + version, maxVer) == Expansion(name, version, maxVer)
  {
    assert name + "@>=" + version == name + ['@'] + (MinimumMarker + version);
    SplitAtDelimiter(name, '@', MinimumMarker + version);
    assert (MinimumMarker + version)[..2] == MinimumMarker;
  }

  /** A version without '>' holds no ">=" marker. */
  lemma NoMinimumMarker(version: string)
    requires '>' !in version
    ensures FindString(version, MinimumMarker) == |version|
  {
    FindStringSpec(version, MinimumMarker);
  }

  /** `name@v`, where v holds no ">=", pins both the minimum and the maximum to v. */
  lemma ExpandFixedVersion(name: string, version: string, maxVer: string)
    requires '@' !in name && '@' !in version && version != ""
    requires FindString(version, MinimumMarker) == |version|
    ensures Expanded(name + "@" + version, maxVer) == Expansion(name, version, version)
  {
    SplitAtDelimiter(name, '@', version);
  }

  /**
   * A ">=" anywhere in the version makes it a minimum, and the minimum is the
   * version without its first two characters, whatever they are.
   */
  lemma MinimumMarkerAnywhere(name: string, before: string, after: string, maxVer: string)
    requires '@' !in name && '@' !in before + after
    ensures var version := before + MinimumMarker + after;
      Expanded(name + "@" + version, maxVer) == Expansion(name, version[2..], maxVer)
  {
    var version := before + MinimumMarker + after;
    SplitAtDelimiter(name, '@', version);
    FindStringSpec(version, MinimumMarker);
    assert OccursAt(version, MinimumMarker, |before|);
  }

  /** For instance "GCC@6.0.0>=" is read as a minimum of "0.0>=". */
  lemma MinimumMarkerExample()
    ensures Expanded("GCC@6.0.0>=", "").minVer == "0.0>="
  {
    var version := "6.0.0" + MinimumMarker + "";
    assert version == "6.0.0>=";
    assert version[2..] == "0.0>=";
    assert "GCC" + "@" + version == "GCC@6.0.0>=";
    MinimumMarkerAnywhere("GCC", "6.0.0", "", "");
  }

  /** A non-empty maximum that lies below a non-empty minimum. */
  predicate Below(compare: Comparator, maxVer: string, minVer: string) {
    maxVer != "" && minVer != "" && compare(maxVer, minVer) < 0
  }

  /**
   * AreCompilersCompatible: an empty id is compatible with everything;
   * otherwise the names must agree and neither side's maximum may lie below
   * the other side's minimum.
   */
  function AreCompilersCompatible(compare: Comparator, first: string, second: string): (ok: bool)
    ensures first == "" || second == "" ==> ok
    ensures ok && first != "" && second != "" ==> Expanded(first, "").name == Expanded(second, "").name
  {
    if first != "" && second != "" then
      var a, b := Expanded(first, ""), Expanded(second, "");
      !(a.name != b.name || Below(compare, a.maxVer, b.minVer) || Below(compare, b.maxVer, a.minVer))
    else
      true
  }

  /** Compatibility does not depend on the order of the arguments. */
  lemma CompatibleSymmetric(compare: Comparator, first: string, second: string)
    ensures AreCompilersCompatible(compare, first, second) == AreCompilersCompatible(compare, second, first)
  {
  }

  /** Every id is compatible with itself. */
  lemma CompatibleReflexive(compare: Comparator, id: string)
    requires ValidComparator(compare)
    ensures AreCompilersCompatible(compare, id, id)
  {
    var e := Expanded(id, "");
    assert e.maxVer == "" || compare(e.maxVer, e.minVer) == 0;
  }

  /** The three shapes of a well-formed compiler id. */
  datatype Requirement =
    | AnyVersionOf(name: string)
    | AtLeast(name: string, version: string)
    | Exactly(name: string, version: string)

  /** The id text of a requirement. */
  function Format(r: Requirement): string {
    match r
    case AnyVersionOf(name) => name
    case AtLeast(name, version) => name + "@>=" + version
    case Exactly(name, version) => name + "@" + version
  }

  /**
   * A non-empty name without '@'; a non-empty version without '@', and for a
   * fixed version no ">=" either, since that would make it a minimum.
   */
  predicate WellFormedRequirement(r: Requirement) {
    && r.name != "" && '@' !in r.name
    && (r.AnyVersionOf? || (r.version != "" && '@' !in r.version))
    && (r.Exactly? ==> FindString(r.version, MinimumMarker) == |r.version|)
  }

  function LowerBound(r: Requirement): string {
    if r.AnyVersionOf? then AnyVersion else r.version
  }

  /** The maximum, "" when there is none. */
  function UpperBound(r: Requirement): string {
    if r.Exactly? then r.version else ""
  }

  /** Version `v` satisfies requirement `r`. */
  predicate Admits(compare: Comparator, r: Requirement, v: string) {
    compare(v, LowerBound(r)) >= 0 && (r.Exactly? ==> compare(v, r.version) <= 0)
  }

  /** Expanding a formatted requirement gives back its name and bounds. */
  lemma ExpandFormat(r: Requirement, maxVer: string)
    requires WellFormedRequirement(r)
    ensures Expanded(Format(r), maxVer) == Expansion(r.name, LowerBound(r), if r.Exactly? then r.version else maxVer)
  {
    match r
    case AnyVersionOf(name) => ExpandBareName(name, maxVer);
    case AtLeast(name, version) => ExpandMinimumVersion(name, version, maxVer);
    case Exactly(name, version) => ExpandFixedVersion(name, version, maxVer);
  }

  /** On formatted requirements, compatibility compares names and bounds. */
  lemma CompatibleFormats(compare: Comparator, r1: Requirement, r2: Requirement)
    requires WellFormedRequirement(r1) && WellFormedRequirement(r2)
    ensures AreCompilersCompatible(compare, Format(r1), Format(r2)) <==>
      && r1.name == r2.name
      && !Below(compare, UpperBound(r1), LowerBound(r2))
      && !Below(compare, UpperBound(r2), LowerBound(r1))
  {
    ExpandFormat(r1, "");
    ExpandFormat(r2, "");
    assert Format(r1) != "" && Format(r2) != "" by {
      assert |Expanded(Format(r1), "").name| <= |Format(r1)|;
      assert |Expanded(Format(r2), "").name| <= |Format(r2)|;
    }
  }

  /** Under a version order, "not below" on one side means "at least" on the other. */
  lemma NotBelow(compare: Comparator, a: string, b: string)
    requires ValidComparator(compare)
    ensures compare(a, b) >= 0 <==> compare(b, a) <= 0
  {
  }

  /** The larger of two minimums is a minimum exactly for the versions at or above both. */
  lemma LargerMinimum(compare: Comparator, l1: string, l2: string, v: string)
    requires VersionOrder(compare)
    ensures var l := if compare(l1, l2) < 0 then l2 else l1;
      compare(v, l) >= 0 <==> compare(v, l1) >= 0 && compare(v, l2) >= 0
  {
    var l := if compare(l1, l2) < 0 then l2 else l1;
    NotBelow(compare, v, l);
    NotBelow(compare, v, l1);
    NotBelow(compare, v, l2);
    NotBelow(compare, l, l1);
    NotBelow(compare, l, l2);
  }

  /** Two bounds that compare equal admit the same versions. */
  lemma EqualBounds(compare: Comparator, x: string, y: string, v: string)
    requires VersionOrder(compare) && compare(x, y) == 0
    ensures compare(v, x) >= 0 <==> compare(v, y) >= 0
    ensures compare(v, x) <= 0 <==> compare(v, y) <= 0
  {
    NotBelow(compare, v, x);
    NotBelow(compare, v, y);
    NotBelow(compare, x, y);
  }

  /** Bounds that do not lie below each other leave a version that satisfies both. */
  lemma CommonVersionOfBounds(compare: Comparator, r1: Requirement, r2: Requirement)
    requires VersionOrder(compare)
    requires !Below(compare, UpperBound(r1), LowerBound(r2)) && !Below(compare, UpperBound(r2), LowerBound(r1))
    requires LowerBound(r1) != "" && LowerBound(r2) != ""
    ensures exists v :: Admits(compare, r1, v) && Admits(compare, r2, v)
  {
    var l1, l2 := LowerBound(r1), LowerBound(r2);
    if r1.Exactly? {
      NotBelow(compare, r1.version, l2);
      if r2.Exactly? {
        NotBelow(compare, r2.version, l1);
      }
      assert Admits(compare, r1, r1.version) && Admits(compare, r2, r1.version);
    } else if r2.Exactly? {
      NotBelow(compare, r2.version, l1);
      assert Admits(compare, r1, r2.version) && Admits(compare, r2, r2.version);
    } else {
      var v := if compare(l1, l2) < 0 then l2 else l1;
      LargerMinimum(compare, l1, l2, v);
      assert Admits(compare, r1, v) && Admits(compare, r2, v);
    }
  }

  /** When one side's maximum lies below the other side's minimum, no version satisfies both. */
  lemma NoCommonVersionOfBounds(compare: Comparator, r1: Requirement, r2: Requirement)
    requires VersionOrder(compare)
    requires Below(compare, UpperBound(r1), LowerBound(r2)) || Below(compare, UpperBound(r2), LowerBound(r1))
    ensures forall v :: !(Admits(compare, r1, v) && Admits(compare, r2, v))
  {
    forall v | Admits(compare, r1, v)
      ensures !Admits(compare, r2, v)
    {
      NotBelow(compare, v, LowerBound(r1));
      NotBelow(compare, v, LowerBound(r2));
    }
  }

  /**
   * Compatibility is an overlap test: two well-formed requirements are
   * compatible exactly when they name the same compiler and some version
   * satisfies both.
   */
  lemma CompatibleIffCommonVersion(compare: Comparator, r1: Requirement, r2: Requirement)
    requires VersionOrder(compare) && WellFormedRequirement(r1) && WellFormedRequirement(r2)
    ensures AreCompilersCompatible(compare, Format(r1), Format(r2)) <==>
      r1.name == r2.name && exists v :: Admits(compare, r1, v) && Admits(compare, r2, v)
  {
    CompatibleFormats(compare, r1, r2);
    if !Below(compare, UpperBound(r1), LowerBound(r2)) && !Below(compare, UpperBound(r2), LowerBound(r1)) {
      CommonVersionOfBounds(compare, r1, r2);
    } else {
      NoCommonVersionOfBounds(compare, r1, r2);
    }
  }

  /** What CompilersIntersect does to its reference parameter `intersection`. */
  datatype IntersectOutcome = Unchanged | Assigned(id: string) {
    /** The value `intersection` holds afterwards, given the value it held before. */
    function After(prior: string): string {
      if Unchanged? then prior else id
    }
  }

  /**
   * The name and bounds of the intersection of two expansions: the non-empty
   * name, the larger minimum and the smaller maximum, where a missing maximum
   * is taken from the other side.
   */
  function Resolve(compare: Comparator, a: Expansion, b: Expansion): Expansion {
    var aMax := if a.maxVer == "" then b.maxVer else a.maxVer;
    var bMax := if b.maxVer == "" then aMax else b.maxVer;
    Expansion(if a.name == "" then b.name else a.name,
              if compare(a.minVer, b.minVer) < 0 then b.minVer else a.minVer,
              if compare(aMax, bMax) > 0 then bMax else aMax)
  }

  /**
   * The id of a resolved range: a bare name when there is no maximum and the
   * minimum is "any", `@>=` when there is only a minimum, `@` when both
   * bounds are the same string; nothing when they are different strings.
   */
  function Render(compare: Comparator, r: Expansion): IntersectOutcome {
    if r.maxVer == "" then
      Assigned(if compare(r.minVer, AnyVersion) == 0 then r.name else r.name + "@>=" + r.minVer)
    else if r.minVer == r.maxVer then
      Assigned(r.name + "@" + r.minVer)
    else
      Unchanged
  }

  /** The outcome of CompilersIntersect(first, second, intersection). */
  function Intersection(compare: Comparator, first: string, second: string): (o: IntersectOutcome)
    ensures first == "" && second == "" ==> o == Unchanged
    ensures !AreCompilersCompatible(compare, first, second) ==> o == Unchanged
  {
    if (first == "" && second == "") || !AreCompilersCompatible(compare, first, second) then
      Unchanged
    else
      Render(compare, Resolve(compare, Expanded(first, ""), Expanded(second, "")))
  }

  /** CompilersIntersect, writing to `intersection` only when the intersection has an id. */
  method CompilersIntersect(compare: Comparator, first: string, second: string, intersection: string)
    returns (result: string)
    ensures result == Intersection(compare, first, second).After(intersection)
  {
    result := intersection;
    if (first == "" && second == "") || !AreCompilersCompatible(compare, first, second) {
      return;
    }
    var firstName, firstMin, firstMax := ExpandCompilerId(first, "");
    var secondName, secondMin, secondMax := ExpandCompilerId(second, "");
    if firstMax == "" {
      firstMax := secondMax;
    }
    if secondMax == "" {
      secondMax := firstMax;
    }
    var intersectName := if firstName == "" then secondName else firstName;
    var intersectMin := if compare(firstMin, secondMin) < 0 then secondMin else firstMin;
    var intersectMax := if compare(firstMax, secondMax) > 0 then secondMax else firstMax;
    if intersectMax == "" {
      if compare(intersectMin, AnyVersion) == 0 {
        result := intersectName;
      } else {
        result := intersectName + "@>=" + intersectMin;
      }
    } else if intersectMin == intersectMax {
      result := intersectName + "@" + intersectMin;
    }
  }

  /**
   * `intersection` is left untouched exactly when both ids are empty, when
   * they are incompatible, or when the resolved maximum is set and the
   * resolved minimum is a different string.
   */
  lemma UnchangedCases(compare: Comparator, first: string, second: string)
    ensures var r := Resolve(compare, Expanded(first, ""), Expanded(second, ""));
      Intersection(compare, first, second) == Unchanged <==>
        || (first == "" && second == "")
        || !AreCompilersCompatible(compare, first, second)
        || (r.maxVer != "" && r.minVer != r.maxVer)
  {
  }

  /** On formatted requirements the intersection is taken over their bounds. */
  lemma IntersectionOfFormats(compare: Comparator, r1: Requirement, r2: Requirement)
    requires WellFormedRequirement(r1) && WellFormedRequirement(r2)
    requires AreCompilersCompatible(compare, Format(r1), Format(r2))
    ensures Intersection(compare, Format(r1), Format(r2)) ==
      Render(compare, Resolve(compare, Expansion(r1.name, LowerBound(r1), UpperBound(r1)),
                                       Expansion(r2.name, LowerBound(r2), UpperBound(r2))))
  {
    ExpandFormat(r1, "");
    ExpandFormat(r2, "");
  }

  /** Every version the fixed version `r1` admits is admitted by a requirement compatible with it. */
  lemma FixedMeet(compare: Comparator, r1: Requirement, r2: Requirement, v: string)
    requires VersionOrder(compare) && r1.Exactly? && WellFormedRequirement(r1) && WellFormedRequirement(r2)
    requires !Below(compare, UpperBound(r1), LowerBound(r2)) && !Below(compare, UpperBound(r2), LowerBound(r1))
    ensures Admits(compare, r1, v) ==> Admits(compare, r2, v)
  {
    NotBelow(compare, r1.version, LowerBound(r2));
    NotBelow(compare, v, r1.version);
    NotBelow(compare, v, LowerBound(r2));
    if r2.Exactly? {
      NotBelow(compare, r2.version, r1.version);
    }
  }

  /** `r` is a well-formed requirement on `r1`'s compiler admitting exactly what both `r1` and `r2` admit. */
  ghost predicate CommonRange(compare: Comparator, r: Requirement, r1: Requirement, r2: Requirement) {
    && WellFormedRequirement(r) && r.name == r1.name
    && forall v :: Admits(compare, r, v) <==> Admits(compare, r1, v) && Admits(compare, r2, v)
  }

  /** A fixed version that is compatible with another requirement is their common range. */
  lemma FixedIsCommonRange(compare: Comparator, r1: Requirement, r2: Requirement)
    requires VersionOrder(compare) && r1.Exactly? && WellFormedRequirement(r1) && WellFormedRequirement(r2)
    requires !Below(compare, UpperBound(r1), LowerBound(r2)) && !Below(compare, UpperBound(r2), LowerBound(r1))
    requires r1.name == r2.name
    ensures CommonRange(compare, r1, r1, r2) && CommonRange(compare, Exactly(r2.name, r1.version), r2, r1)
  {
    forall v ensures Admits(compare, r1, v) ==> Admits(compare, r2, v) {
      FixedMeet(compare, r1, r2, v);
    }
    assert forall v :: Admits(compare, Exactly(r2.name, r1.version), v) == Admits(compare, r1, v);
  }

  /** Two minimums meet at the larger one, which is "any version" when it compares equal to it. */
  lemma MinimumsCommonRange(compare: Comparator, r1: Requirement, r2: Requirement)
    requires VersionOrder(compare) && WellFormedRequirement(r1) && WellFormedRequirement(r2)
    requires !r1.Exactly? && !r2.Exactly?
    ensures var l1, l2 := LowerBound(r1), LowerBound(r2);
      var l := if compare(l1, l2) < 0 then l2 else l1;
      CommonRange(compare, if compare(l, AnyVersion) == 0 then AnyVersionOf(r1.name) else AtLeast(r1.name, l), r1, r2)
  {
    var l1, l2 := LowerBound(r1), LowerBound(r2);
    var l := if compare(l1, l2) < 0 then l2 else l1;
    forall v ensures compare(v, l) >= 0 <==> compare(v, l1) >= 0 && compare(v, l2) >= 0 {
      LargerMinimum(compare, l1, l2, v);
    }
    if compare(l, AnyVersion) == 0 {
      forall v ensures compare(v, AnyVersion) >= 0 <==> compare(v, l) >= 0 {
        EqualBounds(compare, l, AnyVersion, v);
      }
    }
  }

  /**
   * When CompilersIntersect assigns an id to two well-formed requirements,
   * that id is itself a well-formed requirement for the same compiler, and it
   * admits exactly the versions that both of them admit.
   */
  lemma IntersectionIsCommonRange(compare: Comparator, r1: Requirement, r2: Requirement, id: string)
    requires VersionOrder(compare) && WellFormedRequirement(r1) && WellFormedRequirement(r2)
    requires Intersection(compare, Format(r1), Format(r2)) == Assigned(id)
    ensures exists r :: CommonRange(compare, r, r1, r2) && Format(r) == id
  {
    CompatibleFormats(compare, r1, r2);
    IntersectionOfFormats(compare, r1, r2);
    if r1.Exactly? {
      FixedIsCommonRange(compare, r1, r2);
      assert Format(r1) == id;
    } else if r2.Exactly? {
      FixedIsCommonRange(compare, r2, r1);
      assert Format(Exactly(r1.name, r2.version)) == id;
    } else {
      MinimumsCommonRange(compare, r1, r2);
      var l1, l2 := LowerBound(r1), LowerBound(r2);
      var l := if compare(l1, l2) < 0 then l2 else l1;
      assert Format(if compare(l, AnyVersion) == 0 then AnyVersionOf(r1.name) else AtLeast(r1.name, l)) == id;
    }
  }

  /**
   * Under a strict order the intersection of two compatible well-formed
   * requirements always gets an id; under a mere version order a minimum
   * and a fixed version that compare equal as different strings do not.
   */
  lemma StrictIntersectionAssigned(compare: Comparator, r1: Requirement, r2: Requirement)
    requires StrictOrder(compare) && WellFormedRequirement(r1) && WellFormedRequirement(r2)
    requires AreCompilersCompatible(compare, Format(r1), Format(r2))
    ensures Intersection(compare, Format(r1), Format(r2)).Assigned?
  {
    CompatibleFormats(compare, r1, r2);
    IntersectionOfFormats(compare, r1, r2);
    NotBelow(compare, UpperBound(r1), LowerBound(r2));
    NotBelow(compare, UpperBound(r2), LowerBound(r1));
  }

  /** Under a strict order the intersection does not depend on the order of the arguments. */
  lemma IntersectionCommutes(compare: Comparator, first: string, second: string)
    requires StrictOrder(compare)
    ensures Intersection(compare, first, second) == Intersection(compare, second, first)
  {
    CompatibleSymmetric(compare, first, second);
    if !(first == "" && second == "") && AreCompilersCompatible(compare, first, second) {
      var a, b := Expanded(first, ""), Expanded(second, "");
      assert first == "" ==> a.name == "";
      assert second == "" ==> b.name == "";
      assert Resolve(compare, a, b) == Resolve(compare, b, a);
    }
  }

  /** GCC@>=6.0.0 with GCC@>=8.0.0 gives GCC@>=8.0.0. */
  lemma IntersectMinimumsExample(compare: Comparator)
    requires ValidComparator(compare)
    requires compare("6.0.0", "8.0.0") < 0 && compare("8.0.0", AnyVersion) > 0
    ensures Intersection(compare, "GCC@>=6.0.0", "GCC@>=8.0.0") == Assigned("GCC@>=8.0.0")
  {
    var r1, r2 := AtLeast("GCC", "6.0.0"), AtLeast("GCC", "8.0.0");
    assert Format(r1) == "GCC@>=6.0.0" && Format(r2) == "GCC@>=8.0.0";
    CompatibleFormats(compare, r1, r2);
    IntersectionOfFormats(compare, r1, r2);
  }

  /** GCC@>=6.0.0 with GCC@8.0.0 gives GCC@8.0.0. */
  lemma IntersectMinimumFixedExample(compare: Comparator)
    requires ValidComparator(compare)
    requires compare("6.0.0", "8.0.0") < 0
    ensures Intersection(compare, "GCC@>=6.0.0", "GCC@8.0.0") == Assigned("GCC@8.0.0")
  {
    var r1, r2 := AtLeast("GCC", "6.0.0"), Exactly("GCC", "8.0.0");
    assert Format(r1) == "GCC@>=6.0.0" && Format(r2) == "GCC@8.0.0";
    CompatibleFormats(compare, r1, r2);
    IntersectionOfFormats(compare, r1, r2);
  }

  /** An empty id with a fixed version above "0.0.0" gives that fixed version. */
  lemma IntersectEmptyWithFixed(compare: Comparator, r: Requirement)
    requires ValidComparator(compare) && r.Exactly? && WellFormedRequirement(r)
    requires compare(AnyVersion, r.version) < 0
    ensures Intersection(compare, "", Format(r)) == Assigned(Format(r))
  {
    ExpandBareName("", "");
    ExpandFormat(r, "");
  }

  /** An empty id with GCC@6.0.0 gives GCC@6.0.0. */
  lemma IntersectEmptyExample(compare: Comparator)
    requires ValidComparator(compare)
    requires compare(AnyVersion, "6.0.0") < 0
    ensures Intersection(compare, "", "GCC@6.0.0") == Assigned("GCC@6.0.0")
  {
    var r := Exactly("GCC", "6.0.0");
    assert Format(r) == "GCC@6.0.0";
    NoMinimumMarker("6.0.0");
    IntersectEmptyWithFixed(compare, r);
  }

  /** GCC with GCC gives GCC. */
  lemma IntersectBareExample(compare: Comparator)
    requires ValidComparator(compare)
    ensures Intersection(compare, "GCC", "GCC") == Assigned("GCC")
  {
    ExpandBareName("GCC", "");
  }
}
