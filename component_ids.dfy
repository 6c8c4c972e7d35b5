/**
 * The identifier codec of ProjMgrUtils: component, condition and pack
 * identifiers are built from the attributes of an RTE item by concatenating
 * (prefix, value) pairs, skipping empty values; a component identifier is
 * decomposed back into its attributes by position.
 */
module ComponentIds {
  import opened Wrappers
  import opened Strings
  import opened RteUtils
  import opened ProjMgrConstants

  /** The attributes of an RTE item (component, condition or pack) that identifiers are read from. */
  datatype RteItem = RteItem(
    vendor: string,
    cclass: string,
    cbundle: string,
    cgroup: string,
    csub: string,
    cvariant: string,
    version: string,
    name: string,
    tag: string)

  /** One (prefix, value) pair of an identifier under construction. */
  datatype Element = Element(prefix: string, value: string)

  /** What one pair contributes: nothing for an empty value, else the prefix followed by the value. */
  function Piece(e: Element): string {
    if e.value == "" then "" else e.prefix + e.value
  }

  /** The identifier ConstructID builds from `elements`: their pieces, in list order. */
  function IdOf(elements: seq<Element>): string {
    if elements == [] then "" else Piece(elements[0]) + IdOf(elements[1..])
  }

  /** Building an identifier distributes over concatenation of the pair lists. */
  lemma {:induction false} IdOfAppend(a: seq<Element>, b: seq<Element>)
    ensures IdOf(a + b) == IdOf(a) + IdOf(b)
  {
    if a == [] {
      assert a + b == b;
    } else {
      assert (a + b)[1..] == a[1..] + b;
      IdOfAppend(a[1..], b);
    }
  }

  /** A pair with an empty value is skipped together with its prefix, wherever it stands. */
  lemma EmptyValueSkipped(a: seq<Element>, prefix: string, b: seq<Element>)
    ensures IdOf(a + [Element(prefix, "")] + b) == IdOf(a + b)
  {
    IdOfAppend(a + [Element(prefix, "")], b);
    IdOfAppend(a, [Element(prefix, "")]);
    IdOfAppend(a, b);
  }

  /** One more pair adds its piece at the end. */
  lemma IdOfSnoc(a: seq<Element>, e: Element)
    ensures IdOf(a + [e]) == IdOf(a) + Piece(e)
  {
    IdOfAppend(a, [e]);
    assert IdOf([e]) == Piece(e) + IdOf([]);
  }

  /** ConstructID: appends prefix and value of every pair with a non-empty value. */
  method ConstructId(elements: seq<Element>) returns (id: string)
    ensures id == IdOf(elements)
  {
    id := "";
    for i := 0 to |elements|
      invariant id == IdOf(elements[..i])
    {
      var element := elements[i];
      IdOfSnoc(elements[..i], element);
      assert elements[..i + 1] == elements[..i] + [element];
      if element.value != "" {
        id := id + (element.prefix + element.value);
      }
    }
    assert elements[..|elements|] == elements;
  }

  /** The vendor followed by the vendor suffix, or nothing for an empty vendor. */
  function VendorPart(vendor: string): string {
    if vendor == "" then "" else vendor + SuffixCvendor
  }

  /** Splits a literal pair list into its first pair and the rest. */
  lemma IdOfCons(e: Element, rest: seq<Element>)
    ensures IdOf([e] + rest) == Piece(e) + IdOf(rest)
  {
    assert ([e] + rest)[1..] == rest;
  }

  /** The identifier of two pairs. */
  lemma IdOfTwo(e0: Element, e1: Element)
    ensures IdOf([e0, e1]) == Piece(e0) + Piece(e1)
  {
    IdOfCons(e0, [e1]);
    IdOfCons(e1, []);
    assert [e0, e1] == [e0] + [e1];
  }

  /** The identifier of three pairs. */
  lemma IdOfThree(e0: Element, e1: Element, e2: Element)
    ensures IdOf([e0, e1, e2]) == Piece(e0) + Piece(e1) + Piece(e2)
  {
    IdOfCons(e0, [e1, e2]);
    IdOfTwo(e1, e2);
    assert [e0, e1, e2] == [e0] + [e1, e2];
  }

  /** The identifier of five pairs. */
  lemma IdOfFive(e0: Element, e1: Element, e2: Element, e3: Element, e4: Element)
    ensures IdOf([e0, e1, e2, e3, e4]) == Piece(e0) + Piece(e1) + Piece(e2) + Piece(e3) + Piece(e4)
  {
    assert [e0, e1, e2, e3, e4] == [e0] + [e1, e2, e3, e4];
    assert [e1, e2, e3, e4] == [e1] + [e2, e3, e4];
    IdOfCons(e0, [e1, e2, e3, e4]);
    IdOfCons(e1, [e2, e3, e4]);
    IdOfThree(e2, e3, e4);
  }

  /** The seven pairs of a component identifier, in the order of lines 36-43. */
  function ComponentElements(c: RteItem): seq<Element> {
    [ Element("", VendorPart(c.vendor)),
      Element("", c.cclass),
      Element(PrefixCbundle, c.cbundle),
      Element(PrefixCgroup, c.cgroup),
      Element(PrefixCsub, c.csub),
      Element(PrefixCvariant, c.cvariant),
      Element(PrefixCversion, c.version) ]
  }

  /** GetComponentID (lines 30-45): vendor::class&bundle:group:sub&variant@version, "" for no component. */
  function ComponentId(component: Option<RteItem>): (id: string)
    ensures component.None? ==> id == ""
  {
    match component
    case None => ""
    case Some(c) => IdOf(ComponentElements(c))
  }

  /** Regrouping a concatenation of three strings. */
  lemma Regroup3(x: string, y: string, z: string)
    ensures x + (y + z) == x + y + z
  {
  }

  /** Regrouping a concatenation of seven strings. */
  lemma Regroup(v: string, c: string, b: string, g: string, s: string, p: string, q: string)
    ensures v + c + b + g + s + p + q == v + (c + b + g + s + p) + q
  {
  }

  /**
   * A component identifier is the aggregate identifier followed by variant
   * and version, and equally the vendor part, the partial identifier and the
   * version: the three builders agree.
   */
  lemma ComponentIdForm(c: RteItem)
    ensures ComponentId(Some(c)) == ComponentAggregateId(Some(c))
                                    + Piece(Element(PrefixCvariant, c.cvariant))
                                    + Piece(Element(PrefixCversion, c.version))
    ensures ComponentId(Some(c)) == VendorPart(c.vendor) + PartialComponentId(Some(c))
                                    + Piece(Element(PrefixCversion, c.version))
  {
    var a := ComponentAggregateId(Some(c));
    var b := PartialComponentId(Some(c));
    ComponentAggregateIdForm(c);
    PartialComponentIdForm(c);
    ComponentIdLayout(c, ComponentElements(c), a, b);
  }

  /** The seven pairs of a component identifier are its aggregate pairs followed by variant and version. */
  lemma ComponentIdLayout(c: RteItem, elements: seq<Element>, a: string, b: string)
    requires elements == ComponentElements(c)
    requires a == VendorPart(c.vendor) + c.cclass + Piece(Element(PrefixCbundle, c.cbundle))
                  + Piece(Element(PrefixCgroup, c.cgroup)) + Piece(Element(PrefixCsub, c.csub))
    requires b == c.cclass + Piece(Element(PrefixCbundle, c.cbundle)) + Piece(Element(PrefixCgroup, c.cgroup))
                  + Piece(Element(PrefixCsub, c.csub)) + Piece(Element(PrefixCvariant, c.cvariant))
    ensures IdOf(elements) == a + Piece(Element(PrefixCvariant, c.cvariant)) + Piece(Element(PrefixCversion, c.version))
    ensures IdOf(elements) == VendorPart(c.vendor) + b + Piece(Element(PrefixCversion, c.version))
  {
    var variant := Element(PrefixCvariant, c.cvariant);
    var version := Element(PrefixCversion, c.version);
    assert elements == AggregateElements(c) + [variant, version];
    IdOfAppend(AggregateElements(c), [variant, version]);
    IdOfTwo(variant, version);
    AggregateElementsId(c, AggregateElements(c));
    Regroup3(a, Piece(variant), Piece(version));
    Regroup(VendorPart(c.vendor), c.cclass, Piece(Element(PrefixCbundle, c.cbundle)),
            Piece(Element(PrefixCgroup, c.cgroup)), Piece(Element(PrefixCsub, c.csub)),
            Piece(variant), Piece(version));
  }

  /** GetConditionID (lines 47-52): the condition's tag, a space, and its component identifier. */
  function ConditionId(condition: Option<RteItem>): (id: string)
    ensures condition.None? ==> id == ""
    ensures condition.Some? ==>
      |id| > |condition.value.tag| && id[..|condition.value.tag|] == condition.value.tag
      && id[|condition.value.tag|] == ' '
  {
    match condition
    case None => ""
    case Some(c) => c.tag + " " + ComponentId(condition)
  }

  /** The pairs of a component aggregate: vendor, class, bundle, group, sub. */
  function AggregateElements(c: RteItem): seq<Element> {
    [ Element("", VendorPart(c.vendor)),
      Element("", c.cclass),
      Element(PrefixCbundle, c.cbundle),
      Element(PrefixCgroup, c.cgroup),
      Element(PrefixCsub, c.csub) ]
  }

  /** GetComponentAggregateID (lines 54-67): the component identifier without variant and version. */
  function ComponentAggregateId(component: Option<RteItem>): (id: string)
    ensures component.None? ==> id == ""
  {
    match component
    case None => ""
    case Some(c) => IdOf(AggregateElements(c))
  }

  /** The aggregate identifier: vendor part, class, then bundle, group and sub each after its prefix when present. */
  lemma ComponentAggregateIdForm(c: RteItem)
    ensures ComponentAggregateId(Some(c))
         == VendorPart(c.vendor) + c.cclass + Piece(Element(PrefixCbundle, c.cbundle))
            + Piece(Element(PrefixCgroup, c.cgroup)) + Piece(Element(PrefixCsub, c.csub))
  {
    AggregateElementsId(c, AggregateElements(c));
  }

  lemma AggregateElementsId(c: RteItem, e: seq<Element>)
    requires e == AggregateElements(c)
    ensures IdOf(e)
         == VendorPart(c.vendor) + c.cclass + Piece(Element(PrefixCbundle, c.cbundle))
            + Piece(Element(PrefixCgroup, c.cgroup)) + Piece(Element(PrefixCsub, c.csub))
  {
    IdOfFive(e[0], e[1], e[2], e[3], e[4]);
    assert Piece(e[0]) == VendorPart(c.vendor);
    assert Piece(e[1]) == c.cclass;
  }

  /** The pairs of a partial component identifier: class, bundle, group, sub, variant. */
  function PartialElements(c: RteItem): seq<Element> {
    [ Element("", c.cclass),
      Element(PrefixCbundle, c.cbundle),
      Element(PrefixCgroup, c.cgroup),
      Element(PrefixCsub, c.csub),
      Element(PrefixCvariant, c.cvariant) ]
  }

  /** GetPartialComponentID (lines 69-81): the component identifier without vendor and version. */
  function PartialComponentId(component: Option<RteItem>): (id: string)
    ensures component.None? ==> id == ""
  {
    match component
    case None => ""
    case Some(c) => IdOf(PartialElements(c))
  }

  /** The partial identifier: class, then bundle, group, sub and variant each after its prefix when present. */
  lemma PartialComponentIdForm(c: RteItem)
    ensures PartialComponentId(Some(c))
         == c.cclass + Piece(Element(PrefixCbundle, c.cbundle)) + Piece(Element(PrefixCgroup, c.cgroup))
            + Piece(Element(PrefixCsub, c.csub)) + Piece(Element(PrefixCvariant, c.cvariant))
  {
    var e := PartialElements(c);
    IdOfFive(e[0], e[1], e[2], e[3], e[4]);
    assert Piece(e[0]) == c.cclass;
  }

  /** GetPackageID for an item (lines 121-132): vendor::name@version, the vendor suffix only after a vendor. */
  function PackageId(pack: Option<RteItem>): (id: string)
    ensures pack.None? ==> id == ""
  {
    match pack
    case None => ""
    case Some(p) =>
      var vendor := if p.vendor == "" then "" else p.vendor + SuffixPackVendor;
      IdOf([Element("", vendor), Element("", p.name), Element(PrefixPackVersion, p.version)])
  }

  /** A pack identifier: the vendor and its suffix when there is a vendor, the name, then `@version` when there is a version. */
  lemma PackageIdForm(p: RteItem)
    ensures PackageId(Some(p))
         == (if p.vendor == "" then "" else p.vendor + SuffixPackVendor) + p.name
            + Piece(Element(PrefixPackVersion, p.version))
  {
    var vendor := if p.vendor == "" then "" else p.vendor + SuffixPackVendor;
    var e0, e1, e2 := Element("", vendor), Element("", p.name), Element(PrefixPackVersion, p.version);
    IdOfThree(e0, e1, e2);
    assert Piece(e0) == vendor;
    assert Piece(e1) == p.name;
  }

  /** GetPackageID for three strings (lines 134-142): the vendor suffix is appended even to an empty vendor. */
  function PackageIdOf(packVendor: string, packName: string, packVersion: string): string {
    var e0 := Element("", packVendor + SuffixPackVendor);
    var e1 := Element("", packName);
    var e2 := Element(PrefixPackVersion, packVersion);
    IdOf([e0, e1, e2])
  }

  // ---------------------------------------------------------------------------
  // Decomposition (ComponentAttributesFromId, lines 83-118)
  // ---------------------------------------------------------------------------

  /**
   * XmlItem::AddAttribute, whose code is not part of this model: the
   * two-argument form stores the value whatever it is; with insertEmpty false
   * an empty value is not stored and the attributes are left as they were.
   */
  function AddAttribute(attributes: map<string, string>, key: string, value: string, insertEmpty: bool)
    : (r: map<string, string>)
  {
    if value == "" && !insertEmpty then attributes else attributes[key := value]
  }

  /** Reads an attribute; a missing key reads as "". */
  function Lookup(attributes: map<string, string>, key: string): string {
    if key in attributes then attributes[key] else ""
  }

  /**
   * What the segment at position `index` adds (lines 98-113): segment 0 is
   * class[&bundle], segment 1 group[&variant], segment 2 sub[&variant];
   * segments after the third add nothing.
   */
  function AddSegment(attributes: map<string, string>, index: nat, segment: string): map<string, string> {
    if index == 0 then
      AddAttribute(AddAttribute(attributes, "Cclass", GetPrefix(segment, PrefixCbundleChar), true),
                   "Cbundle", GetSuffix(segment, PrefixCbundleChar), false)
    else if index == 1 then
      AddAttribute(AddAttribute(attributes, "Cgroup", GetPrefix(segment, PrefixCvariantChar), true),
                   "Cvariant", GetSuffix(segment, PrefixCvariantChar), false)
    else if index == 2 then
      AddAttribute(AddAttribute(attributes, "Csub", GetPrefix(segment, PrefixCvariantChar), true),
                   "Cvariant", GetSuffix(segment, PrefixCvariantChar), false)
    else
      attributes
  }

  /** The attributes after the loop of lines 97-115 has visited `segments` in order. */
  function AddSegments(attributes: map<string, string>, segments: seq<string>): map<string, string> {
    if segments == [] then attributes
    else AddSegment(AddSegments(attributes, segments[..|segments| - 1]), |segments| - 1, segments[|segments| - 1])
  }

  /** Lines 85-89: the vendor attribute, when there is a "::", and the text after it. */
  function VendorSplit(componentId: string): (map<string, string>, string) {
    if FindString(componentId, SuffixCvendor) < |componentId| then
      (AddAttribute(map[], "Cvendor", RemoveSuffixByString(componentId, SuffixCvendor), true),
       RemovePrefixByString(componentId, SuffixCvendor))
    else
      (map[], componentId)
  }

  /** Lines 85-93: the vendor and version attributes, and the class/group/sub text left to split. */
  function VendorAndVersion(componentId: string): (map<string, string>, string) {
    var (attributes, id) := VendorSplit(componentId);
    (AddAttribute(attributes, "Cversion", GetSuffix(id, PrefixCversionChar), true), GetPrefix(id, PrefixCversionChar))
  }

  /** The attribute map ComponentAttributesFromId returns for `componentId`. */
  function ComponentAttributes(componentId: string): map<string, string> {
    var (attributes, rest) := VendorAndVersion(componentId);
    AddSegments(attributes, SplitString(rest, ':'))
  }

  /** ComponentAttributesFromId (lines 83-118). */
  method ComponentAttributesFromId(componentId: string) returns (attributes: map<string, string>)
    ensures attributes == ComponentAttributes(componentId)
  {
    attributes := map[];
    var id := componentId;
    if FindString(componentId, SuffixCvendor) < |componentId| {
      var vendor := RemoveSuffixByString(id, SuffixCvendor);
      attributes := AddAttribute(attributes, "Cvendor", vendor, true);
      id := RemovePrefixByString(componentId, SuffixCvendor);
    }
    attributes := AddAttribute(attributes, "Cversion", GetSuffix(id, PrefixCversionChar), true);
    id := GetPrefix(id, PrefixCversionChar);
    var segments := SplitString(id, ':');
    ghost var start := attributes;
    var index := 0;
    while index < |segments|
      invariant index <= |segments|
      invariant attributes == AddSegments(start, segments[..index])
    {
      var s := segments[index];
      if index == 0 {
        attributes := AddAttribute(attributes, "Cclass", GetPrefix(s, PrefixCbundleChar), true);
        attributes := AddAttribute(attributes, "Cbundle", GetSuffix(s, PrefixCbundleChar), false);
      } else if index == 1 {
        attributes := AddAttribute(attributes, "Cgroup", GetPrefix(s, PrefixCvariantChar), true);
        attributes := AddAttribute(attributes, "Cvariant", GetSuffix(s, PrefixCvariantChar), false);
      } else if index == 2 {
        attributes := AddAttribute(attributes, "Csub", GetPrefix(s, PrefixCvariantChar), true);
        attributes := AddAttribute(attributes, "Cvariant", GetSuffix(s, PrefixCvariantChar), false);
      }
      assert segments[..index + 1][..index] == segments[..index];
      index := index + 1;
    }
    assert segments[..index] == segments;
  }
}
