/**
 * What the identifier codec promises: empty fields leave no delimiter behind,
 * the builders agree with each other, and decomposing a component identifier
 * gives back the attributes it was built from.
 */
module ComponentIdProofs {
  import opened Wrappers
  import opened Strings
  import opened RteUtils
  import opened ProjMgrConstants
  import opened ComponentIds

  /** A field that holds none of the component delimiters `:`, `&` and `@`. */
  predicate Plain(s: string) {
    ':' !in s && '&' !in s && '@' !in s
  }

  /**
   * A component whose identifier can be read back: delimiter-free fields, a
   * class, and no sub or variant without a group.
   */
  predicate WellFormed(c: RteItem) {
    && Plain(c.vendor) && Plain(c.cclass) && Plain(c.cbundle) && Plain(c.cgroup)
    && Plain(c.csub) && Plain(c.cvariant) && Plain(c.version)
    && c.cclass != ""
    && (c.csub != "" ==> c.cgroup != "")
    && (c.cvariant != "" ==> c.cgroup != "")
  }

  /** The vendor separator `::` starts at index `k` of `s`. */
  predicate ColonPairAt(s: string, k: nat)
    requires k + 1 < |s|
  {
    s[k] == ':' && s[k + 1] == ':'
  }

  /** No two adjacent colons, so the vendor separator does not occur. */
  predicate NoDoubleColon(s: string) {
    forall k: nat :: k + 1 < |s| ==> !ColonPairAt(s, k)
  }

  predicate EndsWithoutColon(s: string) {
    s == [] || s[|s| - 1] != ':'
  }

  lemma NoDoubleColonConcat(a: string, b: string)
    requires NoDoubleColon(a) && NoDoubleColon(b) && EndsWithoutColon(a)
    ensures NoDoubleColon(a + b)
    ensures EndsWithoutColon(b) ==> EndsWithoutColon(a + b)
  {
    var s := a + b;
    forall k: nat | k + 1 < |s|
      ensures !ColonPairAt(s, k)
    {
      if k + 1 < |a| {
        assert s[k] == a[k] && s[k + 1] == a[k + 1];
        assert !ColonPairAt(a, k);
      } else if k + 1 == |a| {
        assert s[k] == a[|a| - 1];
      } else {
        assert s[k] == b[k - |a|] && s[k + 1] == b[k + 1 - |a|];
        assert !ColonPairAt(b, k - |a|);
      }
    }
    if b == [] {
      assert s == a;
    }
  }

  /** A piece whose prefix is at most one character and whose value has no colon. */
  lemma PieceNoDoubleColon(prefix: string, value: string)
    requires |prefix| <= 1 && ':' !in value
    ensures NoDoubleColon(Piece(Element(prefix, value)))
    ensures EndsWithoutColon(Piece(Element(prefix, value)))
  {
    var p := Piece(Element(prefix, value));
    if value != "" {
      assert p == prefix + value;
      forall k: nat | k + 1 < |p|
        ensures !ColonPairAt(p, k)
      {
        assert p[k + 1] == value[k + 1 - |prefix|];
      }
      assert p[|p| - 1] == value[|value| - 1];
    }
  }

  /** Without adjacent colons the vendor separator is not found. */
  lemma NoVendorSeparator(s: string)
    requires NoDoubleColon(s)
    ensures FindString(s, SuffixCvendor) == |s|
  {
    FindStringSpec(s, SuffixCvendor);
    var k := FindString(s, SuffixCvendor);
    if k < |s| {
      assert ColonPairAt(s, k);
    }
  }

  /** After a colon-free vendor, the first vendor separator is the one that follows it. */
  lemma VendorSeparatorAt(vendor: string, t: string)
    requires ':' !in vendor
    ensures FindString(vendor + SuffixCvendor + t, SuffixCvendor) == |vendor|
  {
    var s := vendor + SuffixCvendor + t;
    FindStringSpec(s, SuffixCvendor);
    var k := FindString(s, SuffixCvendor);
    assert OccursAt(s, SuffixCvendor, |vendor|);
    assert k <= |vendor| < |s|;
    assert forall j :: 0 <= j < |vendor| ==> s[j] == vendor[j];
  }

  /** With one delimiter character between two delimiter-free parts, GetPrefix and GetSuffix split there. */
  lemma PieceSplit(x: string, d: char, y: string)
    requires d !in x && d !in y
    ensures GetPrefix(x + Piece(Element([d], y)), d) == x
    ensures GetSuffix(x + Piece(Element([d], y)), d) == y
  {
    if y == "" {
      assert x + Piece(Element([d], y)) == x;
      NoDelimiter(x, d);
    } else {
      assert x + Piece(Element([d], y)) == x + [d] + y;
      SplitAtDelimiter(x, d, y);
    }
  }

  /** A piece with a one-character prefix other than `@` and a plain value. */
  lemma PlainPiece(prefix: string, value: string)
    requires |prefix| == 1 && prefix[0] != '@' && Plain(value)
    ensures '@' !in Piece(Element(prefix, value))
    ensures NoDoubleColon(Piece(Element(prefix, value)))
    ensures EndsWithoutColon(Piece(Element(prefix, value)))
  {
    PieceNoDoubleColon(prefix, value);
  }

  /** The class, bundle, group, sub and variant part of a component identifier (lines 37-41), written out. */
  function BodyOf(c: RteItem): string {
    c.cclass + Piece(Element(PrefixCbundle, c.cbundle)) + Piece(Element(PrefixCgroup, c.cgroup))
    + Piece(Element(PrefixCsub, c.csub)) + Piece(Element(PrefixCvariant, c.cvariant))
  }

  /** The class, bundle, group, sub and variant part of a well-formed component identifier. */
  lemma BodyShape(c: RteItem)
    requires WellFormed(c)
    ensures var body := BodyOf(c);
      '@' !in body && NoDoubleColon(body) && EndsWithoutColon(body)
  {
    var pb := Piece(Element(PrefixCbundle, c.cbundle));
    var pg := Piece(Element(PrefixCgroup, c.cgroup));
    var ps := Piece(Element(PrefixCsub, c.csub));
    var pv := Piece(Element(PrefixCvariant, c.cvariant));
    PlainPiece(PrefixCbundle, c.cbundle);
    PlainPiece(PrefixCgroup, c.cgroup);
    PlainPiece(PrefixCsub, c.csub);
    PlainPiece(PrefixCvariant, c.cvariant);
    assert c.cclass[|c.cclass| - 1] in c.cclass;
    assert NoDoubleColon(c.cclass) && EndsWithoutColon(c.cclass);
    var s1 := c.cclass + pb;
    NoDoubleColonConcat(c.cclass, pb);
    var s2 := s1 + pg;
    NoDoubleColonConcat(s1, pg);
    var s3 := s2 + ps;
    NoDoubleColonConcat(s2, ps);
    NoDoubleColonConcat(s3, pv);
    assert BodyOf(c) == s3 + pv;
  }

  /** The attributes the vendor and version stage stores. */
  function VendorVersionAttributes(vendor: string, version: string): map<string, string> {
    (if vendor == "" then map[] else map["Cvendor" := vendor])["Cversion" := version]
  }

  /** Lines 85-89 on `vendor::tail`: the vendor is found and removed exactly when there is one. */
  lemma VendorStage(vendor: string, tail: string)
    requires Plain(vendor) && NoDoubleColon(tail)
    ensures VendorSplit(VendorPart(vendor) + tail) == (if vendor == "" then map[] else map["Cvendor" := vendor], tail)
  {
    if vendor == "" {
      assert VendorPart(vendor) + tail == tail;
      NoVendorSeparator(tail);
    } else {
      var id := vendor + SuffixCvendor + tail;
      assert VendorPart(vendor) + tail == id;
      VendorSeparatorAt(vendor, tail);
      assert id[..|vendor|] == vendor;
      assert id[|vendor| + 2..] == tail;
    }
  }

  /** Lines 90-93 on `body@version`: the version is read off and the body remains. */
  lemma VersionStage(body: string, version: string)
    requires '@' !in body && NoDoubleColon(body) && EndsWithoutColon(body) && Plain(version)
    ensures var tail := body + Piece(Element(PrefixCversion, version));
      && NoDoubleColon(tail)
      && GetSuffix(tail, PrefixCversionChar) == version
      && GetPrefix(tail, PrefixCversionChar) == body
  {
    PieceNoDoubleColon(PrefixCversion, version);
    NoDoubleColonConcat(body, Piece(Element(PrefixCversion, version)));
    PieceSplit(body, '@', version);
  }

  /**
   * Lines 85-93 on `vendor::body@version`: vendor and version are read off and
   * the body remains, when the body holds neither '@' nor "::".
   */
  lemma VendorAndVersionStage(vendor: string, body: string, version: string)
    requires Plain(vendor) && Plain(version)
    requires '@' !in body && NoDoubleColon(body) && EndsWithoutColon(body)
    ensures VendorAndVersion(VendorPart(vendor) + body + Piece(Element(PrefixCversion, version)))
         == (VendorVersionAttributes(vendor, version), body)
  {
    var tail := body + Piece(Element(PrefixCversion, version));
    VersionStage(body, version);
    assert VendorPart(vendor) + body + Piece(Element(PrefixCversion, version)) == VendorPart(vendor) + tail;
    VendorStage(vendor, tail);
  }

  /** The segments class[&bundle], group[&variant] or group, sub[&variant], as far as the component has them. */
  function ExpectedSegments(c: RteItem): seq<string> {
    var head := c.cclass + Piece(Element(PrefixCbundle, c.cbundle));
    var last := Piece(Element(PrefixCvariant, c.cvariant));
    if c.cgroup == "" then [head]
    else if c.csub == "" then [head, c.cgroup + last]
    else [head, c.cgroup, c.csub + last]
  }

  /** The colon-separated segments of the body of a well-formed component identifier. */
  lemma BodySegments(c: RteItem)
    requires WellFormed(c)
    ensures SplitString(BodyOf(c), ':') == ExpectedSegments(c)
  {
    var head := c.cclass + Piece(Element(PrefixCbundle, c.cbundle));
    var last := Piece(Element(PrefixCvariant, c.cvariant));
    var body := BodyOf(c);
    assert ':' !in head;
    assert ':' !in last;
    if c.cgroup == "" {
      assert body == head;
      SplitWhole(head, ':');
    } else if c.csub == "" {
      BodyWithGroup(c, head, last);
      SplitFirst(head, ':', c.cgroup + last);
      SplitWhole(c.cgroup + last, ':');
    } else {
      BodyWithSub(c, head, last);
      SplitFirst(head, ':', c.cgroup + [':'] + (c.csub + last));
      SplitFirst(c.cgroup, ':', c.csub + last);
      SplitWhole(c.csub + last, ':');
    }
  }

  lemma BodyWithGroup(c: RteItem, head: string, last: string)
    requires c.cgroup != "" && c.csub == ""
    requires head == c.cclass + Piece(Element(PrefixCbundle, c.cbundle))
    requires last == Piece(Element(PrefixCvariant, c.cvariant))
    ensures BodyOf(c) == head + [':'] + (c.cgroup + last)
  {
    var pg := Piece(Element(PrefixCgroup, c.cgroup));
    assert pg == [':'] + c.cgroup;
    assert Piece(Element(PrefixCsub, c.csub)) == "";
    calc {
      BodyOf(c);
      head + pg + "" + last;
      head + ([':'] + c.cgroup) + last;
    }
  }

  lemma BodyWithSub(c: RteItem, head: string, last: string)
    requires c.cgroup != "" && c.csub != ""
    requires head == c.cclass + Piece(Element(PrefixCbundle, c.cbundle))
    requires last == Piece(Element(PrefixCvariant, c.cvariant))
    ensures BodyOf(c) == head + [':'] + (c.cgroup + [':'] + (c.csub + last))
  {
    var pg := Piece(Element(PrefixCgroup, c.cgroup));
    var ps := Piece(Element(PrefixCsub, c.csub));
    assert pg == [':'] + c.cgroup;
    assert ps == [':'] + c.csub;
    calc {
      BodyOf(c);
      head + pg + ps + last;
      head + ([':'] + c.cgroup) + ([':'] + c.csub) + last;
    }
  }

  /** The keys the segment loop may write. */
  predicate NoSegmentKeys(m: map<string, string>) {
    "Cclass" !in m && "Cbundle" !in m && "Cgroup" !in m && "Csub" !in m && "Cvariant" !in m
  }

  /**
   * `m` is `m0` with class, bundle, group, sub and variant read off as given
   * (a missing key read as ""), the vendor and version keys untouched.
   */
  predicate Decoded(m0: map<string, string>, m: map<string, string>,
                    cls: string, bundle: string, group: string, sub: string, variant: string)
  {
    && ("Cvendor" in m <==> "Cvendor" in m0)
    && Lookup(m, "Cvendor") == Lookup(m0, "Cvendor")
    && Lookup(m, "Cversion") == Lookup(m0, "Cversion")
    && Lookup(m, "Cclass") == cls
    && Lookup(m, "Cbundle") == bundle
    && Lookup(m, "Cgroup") == group
    && Lookup(m, "Csub") == sub
    && Lookup(m, "Cvariant") == variant
  }

  /** Segment 0 alone: class and bundle. */
  lemma OneSegment(m0: map<string, string>, cls: string, bundle: string)
    requires '&' !in cls && '&' !in bundle && NoSegmentKeys(m0)
    ensures Decoded(m0, AddSegments(m0, [cls + Piece(Element(PrefixCbundle, bundle))]), cls, bundle, "", "", "")
  {
    var segments := [cls + Piece(Element(PrefixCbundle, bundle))];
    PieceSplit(cls, '&', bundle);
    assert segments[..0] == [];
    assert AddSegments(m0, segments) == AddAttribute(m0["Cclass" := cls], "Cbundle", bundle, false);
  }

  /** Segments 0 and 1: class and bundle, then group and variant. */
  lemma TwoSegments(m0: map<string, string>, cls: string, bundle: string, group: string, variant: string)
    requires '&' !in cls && '&' !in bundle && '&' !in group && '&' !in variant && NoSegmentKeys(m0)
    ensures Decoded(m0, AddSegments(m0, [cls + Piece(Element(PrefixCbundle, bundle)),
                                         group + Piece(Element(PrefixCvariant, variant))]),
                    cls, bundle, group, "", variant)
  {
    var head := cls + Piece(Element(PrefixCbundle, bundle));
    var segments := [head, group + Piece(Element(PrefixCvariant, variant))];
    assert segments[..1] == [head];
    assert segments[..1][..0] == [];
    PieceSplit(cls, '&', bundle);
    PieceSplit(group, '&', variant);
    var m1 := AddAttribute(m0["Cclass" := cls], "Cbundle", bundle, false);
    assert AddSegments(m0, segments[..1]) == m1;
    assert AddSegments(m0, segments) == AddAttribute(m1["Cgroup" := group], "Cvariant", variant, false);
  }

  /** Segments 0, 1 and 2: class and bundle, group, then sub and variant. */
  lemma ThreeSegments(m0: map<string, string>, cls: string, bundle: string, group: string, sub: string, variant: string)
    requires '&' !in cls && '&' !in bundle && '&' !in group && '&' !in sub && '&' !in variant && NoSegmentKeys(m0)
    ensures Decoded(m0, AddSegments(m0, [cls + Piece(Element(PrefixCbundle, bundle)), group,
                                         sub + Piece(Element(PrefixCvariant, variant))]),
                    cls, bundle, group, sub, variant)
  {
    var head := cls + Piece(Element(PrefixCbundle, bundle));
    var segments := [head, group, sub + Piece(Element(PrefixCvariant, variant))];
    assert segments[..2] == [head, group];
    assert segments[..2][..1] == [head];
    assert segments[..2][..1][..0] == [];
    PieceSplit(cls, '&', bundle);
    NoDelimiter(group, '&');
    PieceSplit(sub, '&', variant);
    var m1 := AddAttribute(m0["Cclass" := cls], "Cbundle", bundle, false);
    assert AddSegments(m0, segments[..1]) == m1;
    assert AddSegments(m0, segments[..2]) == m1["Cgroup" := group];
    assert AddSegments(m0, segments) == AddAttribute(m1["Cgroup" := group]["Csub" := sub], "Cvariant", variant, false);
  }

  /** Lines 97-115 on the segments of a well-formed body: class, bundle, group, sub and variant come back. */
  lemma SegmentStage(m0: map<string, string>, m: map<string, string>, c: RteItem)
    requires WellFormed(c) && NoSegmentKeys(m0) && m == AddSegments(m0, ExpectedSegments(c))
    ensures Decoded(m0, m, c.cclass, c.cbundle, c.cgroup, c.csub, c.cvariant)
  {
    if c.cgroup == "" {
      OneSegment(m0, c.cclass, c.cbundle);
    } else if c.csub == "" {
      TwoSegments(m0, c.cclass, c.cbundle, c.cgroup, c.cvariant);
    } else {
      ThreeSegments(m0, c.cclass, c.cbundle, c.cgroup, c.csub, c.cvariant);
    }
  }

  /** Lines 83-118 on `vendor::body@version`: the vendor and version stage, then the segments of the body. */
  lemma AttributesOfParts(vendor: string, body: string, version: string)
    requires Plain(vendor) && Plain(version)
    requires '@' !in body && NoDoubleColon(body) && EndsWithoutColon(body)
    ensures ComponentAttributes(VendorPart(vendor) + body + Piece(Element(PrefixCversion, version)))
         == AddSegments(VendorVersionAttributes(vendor, version), SplitString(body, ':'))
  {
    VendorAndVersionStage(vendor, body, version);
  }

  /** Lines 83-118 on the identifier of a well-formed component: the attributes its segments leave. */
  lemma ComponentAttributesOfId(c: RteItem)
    requires WellFormed(c)
    ensures ComponentAttributes(ComponentId(Some(c)))
         == AddSegments(VendorVersionAttributes(c.vendor, c.version), ExpectedSegments(c))
  {
    var body := PartialComponentId(Some(c));
    ComponentIdForm(c);
    PartialComponentIdForm(c);
    assert body == BodyOf(c);
    BodySegments(c);
    BodyShape(c);
    AttributesOfParts(c.vendor, body, c.version);
  }

  /** Reading the seven keys of a map that holds the vendor and version of `c` and its decoded segments. */
  lemma DecodedLookups(c: RteItem, m: map<string, string>)
    requires Decoded(VendorVersionAttributes(c.vendor, c.version), m, c.cclass, c.cbundle, c.cgroup, c.csub, c.cvariant)
    ensures "Cvendor" in m <==> c.vendor != ""
    ensures Lookup(m, "Cvendor") == c.vendor && Lookup(m, "Cversion") == c.version
  {
  }

  /**
   * Round trip of lines 30-45 and 83-118: decomposing the identifier of a
   * well-formed component gives back vendor, class, bundle, group, sub,
   * variant and version, a missing key read as "". The vendor key is present
   * exactly when the component has a vendor.
   */
  lemma ComponentIdRoundTrip(c: RteItem)
    requires WellFormed(c)
    ensures var m := ComponentAttributes(ComponentId(Some(c)));
      && ("Cvendor" in m <==> c.vendor != "")
      && Lookup(m, "Cvendor") == c.vendor
      && Lookup(m, "Cclass") == c.cclass
      && Lookup(m, "Cbundle") == c.cbundle
      && Lookup(m, "Cgroup") == c.cgroup
      && Lookup(m, "Csub") == c.csub
      && Lookup(m, "Cvariant") == c.cvariant
      && Lookup(m, "Cversion") == c.version
  {
    var m := ComponentAttributes(ComponentId(Some(c)));
    ComponentAttributesOfId(c);
    SegmentStage(VendorVersionAttributes(c.vendor, c.version), m, c);
    DecodedLookups(c, m);
  }

  /**
   * Why the round trip needs a group under a variant: a class followed
   * directly by a variant, `cls&variant`, reads back with the variant as the
   * bundle and no variant at all.
   */
  lemma VariantWithoutGroup(cls: string, variant: string)
    requires Plain(cls) && Plain(variant) && cls != "" && variant != ""
    ensures var c := RteItem("", cls, "", "", "", variant, "", "", "");
      var m := ComponentAttributes(ComponentId(Some(c)));
      && ComponentId(Some(c)) == cls + "&" + variant
      && Lookup(m, "Cclass") == cls
      && Lookup(m, "Cbundle") == variant
      && Lookup(m, "Cvariant") == ""
  {
    ClassAndVariantId(cls, variant);
    ClassAndVariantAttributes(cls, variant);
    OneSegment(VendorVersionAttributes("", ""), cls, variant);
  }

  /** The identifier of a component with only a class and a variant is `cls&variant`. */
  lemma ClassAndVariantId(cls: string, variant: string)
    requires variant != ""
    ensures var c := RteItem("", cls, "", "", "", variant, "", "", "");
      var body := cls + Piece(Element(PrefixCvariant, variant));
      && ComponentId(Some(c)) == body
      && body == cls + "&" + variant
      && body == VendorPart("") + body + Piece(Element(PrefixCversion, ""))
  {
    var c := RteItem("", cls, "", "", "", variant, "", "", "");
    var pv := Piece(Element(PrefixCvariant, variant));
    var body := cls + pv;
    var none := Piece(Element(PrefixCversion, ""));
    assert none == "";
    var pb, pg, ps := Piece(Element(PrefixCbundle, c.cbundle)), Piece(Element(PrefixCgroup, c.cgroup)), Piece(Element(PrefixCsub, c.csub));
    assert pb == "" && pg == "" && ps == "";
    assert cls + pb + pg + ps == cls;
    PartialComponentIdForm(c);
    assert PartialComponentId(Some(c)) == cls + pb + pg + ps + pv;
    ComponentIdForm(c);
    assert VendorPart("") == "";
    assert VendorPart("") + body + none == body;
    assert pv == "&" + variant;
    Regroup3(cls, "&", variant);
  }

  /** The attributes of `cls&variant` are those of its one segment. */
  lemma ClassAndVariantAttributes(cls: string, variant: string)
    requires Plain(cls) && Plain(variant) && cls != ""
    ensures var body := cls + Piece(Element(PrefixCvariant, variant));
      ComponentAttributes(body) == AddSegments(VendorVersionAttributes("", ""), [body])
  {
    var body := cls + Piece(Element(PrefixCvariant, variant));
    PlainPiece(PrefixCvariant, variant);
    assert cls[|cls| - 1] in cls;
    assert NoDoubleColon(cls) && EndsWithoutColon(cls);
    NoDoubleColonConcat(cls, Piece(Element(PrefixCvariant, variant)));
    AttributesOfParts("", body, "");
    assert VendorPart("") + body + Piece(Element(PrefixCversion, "")) == body;
    SplitWhole(body, ':');
  }

  /**
   * Lines 97-115 are positional: a later segment's variant wins over an
   * earlier one, and an empty variant in the sub segment leaves the group
   * segment's variant in place. That last clause rests on the assumed
   * AddAttribute: with insertEmpty false, an empty value changes nothing.
   */
  lemma SubVariantWins(m0: map<string, string>, cls: string, group: string, v1: string, sub: string, v2: string)
    requires '&' !in cls && '&' !in group && '&' !in v1 && '&' !in sub && '&' !in v2
    ensures var m := AddSegments(m0, [cls, group + Piece(Element(PrefixCvariant, v1)),
                                      sub + Piece(Element(PrefixCvariant, v2))]);
      && Lookup(m, "Cclass") == cls
      && Lookup(m, "Cgroup") == group
      && Lookup(m, "Csub") == sub
      && Lookup(m, "Cvariant") == (if v2 != "" then v2 else if v1 != "" then v1 else Lookup(m0, "Cvariant"))
  {
    var s1 := group + Piece(Element(PrefixCvariant, v1));
    var segments := [cls, s1, sub + Piece(Element(PrefixCvariant, v2))];
    assert segments[..2] == [cls, s1];
    assert segments[..2][..1] == [cls];
    assert segments[..2][..1][..0] == [];
    NoDelimiter(cls, '&');
    PieceSplit(group, '&', v1);
    PieceSplit(sub, '&', v2);
    assert segments[..1] == [cls];
    var m1 := AddAttribute(m0["Cclass" := cls], "Cbundle", "", false);
    assert AddSegments(m0, segments[..1]) == m1;
    var m2 := AddAttribute(m1["Cgroup" := group], "Cvariant", v1, false);
    assert AddSegments(m0, segments[..2]) == m2;
  }

  /** Segments after the third add nothing (the default branch at lines 111-112). */
  lemma {:induction false} LaterSegmentsIgnored(attributes: map<string, string>, segments: seq<string>)
    requires |segments| >= 3
    ensures AddSegments(attributes, segments) == AddSegments(attributes, segments[..3])
    decreases |segments|
  {
    if |segments| > 3 {
      var init := segments[..|segments| - 1];
      assert init[..3] == segments[..3];
      LaterSegmentsIgnored(attributes, init);
    } else {
      assert segments[..3] == segments;
    }
  }

  /** A condition identifier is split back at its first space into the tag and the component identifier. */
  lemma ConditionIdParts(c: RteItem)
    requires ' ' !in c.tag
    ensures GetPrefix(ConditionId(Some(c)), ' ') == c.tag
    ensures GetSuffix(ConditionId(Some(c)), ' ') == ComponentId(Some(c))
  {
    SplitAtDelimiter(c.tag, ' ', ComponentId(Some(c)));
    assert ConditionId(Some(c)) == c.tag + [' '] + ComponentId(Some(c));
  }

  /**
   * The two GetPackageID overloads (lines 121-142) agree for a pack with a
   * vendor; for an empty vendor the three-string one adds a leading "::".
   */
  lemma PackageIdOverloads(p: RteItem)
    ensures p.vendor != "" ==> PackageIdOf(p.vendor, p.name, p.version) == PackageId(Some(p))
    ensures p.vendor == "" ==> PackageIdOf(p.vendor, p.name, p.version) == SuffixPackVendor + PackageId(Some(p))
  {
    var version := Piece(Element(PrefixPackVersion, p.version));
    var head := if p.vendor == "" then "" else p.vendor + SuffixPackVendor;
    PackageIdForm(p);
    PackageIdOfForm(p.vendor, p.name, p.version);
    Regroup3(head, p.name, version);
    if p.vendor == "" {
      assert p.vendor + SuffixPackVendor == SuffixPackVendor;
      assert head + (p.name + version) == p.name + version;
    }
  }

  /** The three-string GetPackageID: vendor, the vendor suffix, then name and version. */
  lemma PackageIdOfForm(vendor: string, name: string, version: string)
    ensures PackageIdOf(vendor, name, version)
         == vendor + SuffixPackVendor + (name + Piece(Element(PrefixPackVersion, version)))
  {
    var e0 := Element("", vendor + SuffixPackVendor);
    var e1 := Element("", name);
    var e2 := Element(PrefixPackVersion, version);
    IdOfThree(e0, e1, e2);
    assert Piece(e0) == vendor + SuffixPackVendor;
    assert Piece(e1) == name;
    Regroup3(vendor + SuffixPackVendor, name, Piece(e2));
  }

  /** Empty fields leave no delimiter behind: a component with only a class has that class as its identifier. */
  lemma ClassOnly(c: RteItem)
    requires c.vendor == c.cbundle == c.cgroup == c.csub == c.cvariant == c.version == ""
    ensures ComponentId(Some(c)) == c.cclass
    ensures PartialComponentId(Some(c)) == c.cclass
    ensures ComponentAggregateId(Some(c)) == c.cclass
  {
    ComponentIdForm(c);
    PartialComponentIdForm(c);
    ComponentAggregateIdForm(c);
  }

  /** GetPartialComponentID (lines 69-81) of a well-formed component holds no version prefix and no vendor suffix. */
  lemma PartialComponentIdDelimiters(c: RteItem)
    requires WellFormed(c)
    ensures var id := PartialComponentId(Some(c));
      '@' !in id && FindString(id, SuffixCvendor) == |id|
  {
    PartialComponentIdForm(c);
    BodyShape(c);
    NoVendorSeparator(BodyOf(c));
  }
}
