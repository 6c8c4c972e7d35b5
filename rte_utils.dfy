/**
 * Stand-ins for the RteUtils string helpers that the identifier codec and the
 * compiler-id parser call. Their code is not part of this model; what they are
 * assumed to do is stated here and nothing else is relied upon:
 *  - GetPrefix(s, c) is the text before the delimiter, the whole of `s` when
 *    the delimiter is absent; GetSuffix(s, c) is the text after it, "" when it
 *    is absent;
 *  - RemoveSuffixByString(s, d) and RemovePrefixByString(s, d) are the text
 *    before and after the delimiter string;
 *  - SplitString(s, c) cuts `s` at every `c`.
 * Which occurrence is used when the delimiter occurs more than once, and how
 * SplitString treats empty segments, are not visible: the definitions below
 * use the first occurrence and keep empty segments. GetPrefixSuffixSpec and
 * SplitFirst describe these stand-ins as defined, for every input; the
 * lemmas elsewhere that depend on them are stated for inputs with a single
 * occurrence and no empty segment, where any of the readings agree, except
 * ConditionIdParts, which cuts at the first space.
 */
module RteUtils {
  import opened Strings

  function GetPrefix(s: string, delimiter: char): (r: string)
    ensures |r| <= |s|
  {
    s[..FindFirstOf(s, {delimiter})]
  }

  function GetSuffix(s: string, delimiter: char): (r: string)
    ensures |r| < |s| || r == s == ""
  {
    var k := FindFirstOf(s, {delimiter});
    if k == |s| then "" else s[k + 1..]
  }

  /**
   * GetPrefix is the delimiter-free start of `s`; when `s` holds the
   * delimiter, prefix, delimiter and GetSuffix put `s` back together, and
   * when it does not, the prefix is all of `s` and the suffix is empty.
   */
  lemma GetPrefixSuffixSpec(s: string, delimiter: char)
    ensures var p, q := GetPrefix(s, delimiter), GetSuffix(s, delimiter);
      && p == s[..|p|]
      && delimiter !in p
      && (delimiter in s ==> s == p + [delimiter] + q)
      && (delimiter !in s ==> p == s && q == "")
  {
    FindFirstOfSpec(s, {delimiter});
    var k := FindFirstOf(s, {delimiter});
    if k < |s| {
      assert s == s[..k] + [s[k]] + s[k + 1..];
    }
  }

  function RemoveSuffixByString(s: string, delimiter: string): string
    requires |delimiter| == 2
  {
    s[..FindString(s, delimiter)]
  }

  function RemovePrefixByString(s: string, delimiter: string): string
    requires |delimiter| == 2
  {
    var k := FindString(s, delimiter);
    if k == |s| then s else s[k + |delimiter|..]
  }

  function SplitString(s: string, delimiter: char): (segments: seq<string>)
    ensures |segments| >= 1
    decreases |s|
  {
    var k := FindFirstOf(s, {delimiter});
    if k == |s| then [s] else [s[..k]] + SplitString(s[k + 1..], delimiter)
  }

  /** With a single delimiter, GetPrefix and GetSuffix give back the two sides. */
  lemma SplitAtDelimiter(a: string, delimiter: char, b: string)
    requires delimiter !in a
    ensures GetPrefix(a + [delimiter] + b, delimiter) == a
    ensures GetSuffix(a + [delimiter] + b, delimiter) == b
  {
    FindFirstOfAfter(a, {delimiter}, [delimiter] + b);
    assert a + [delimiter] + b == a + ([delimiter] + b);
  }

  /** Without the delimiter, GetPrefix is the whole string and GetSuffix is empty. */
  lemma NoDelimiter(s: string, delimiter: char)
    requires delimiter !in s
    ensures GetPrefix(s, delimiter) == s
    ensures GetSuffix(s, delimiter) == ""
  {
    GetPrefixSuffixSpec(s, delimiter);
  }

  /** SplitString of a string without the delimiter is that one segment. */
  lemma SplitWhole(s: string, delimiter: char)
    requires delimiter !in s
    ensures SplitString(s, delimiter) == [s]
  {
    FindFirstOfSpec(s, {delimiter});
  }

  /** SplitString cuts at the first delimiter and goes on with the rest. */
  lemma SplitFirst(a: string, delimiter: char, b: string)
    requires delimiter !in a
    ensures SplitString(a + [delimiter] + b, delimiter) == [a] + SplitString(b, delimiter)
  {
    var s := a + [delimiter] + b;
    FindFirstOfAfter(a, {delimiter}, [delimiter] + b);
    assert s == a + ([delimiter] + b);
    assert s[..|a|] == a;
    assert s[|a| + 1..] == b;
  }
}
