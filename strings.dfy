/**
 * Searching in strings: the `find`, `find_first_of` and `rfind` queries that
 * the identifier codec, the compiler-id parser and the context-entry parser
 * rely on, each specified by what the index it returns means.
 */
module Strings {
  import opened Wrappers

  /** Index of the first character of `s` that is in `cs`, or `|s|` when there is none. */
  function FindFirstOf(s: string, cs: set<char>): (k: nat)
    ensures k <= |s|
  {
    if s == [] then 0
    else if s[0] in cs then 0
    else 1 + FindFirstOf(s[1..], cs)
  }

  /** FindFirstOf returns the first index holding a character of `cs`, and `|s|` exactly when there is none. */
  lemma {:induction false} FindFirstOfSpec(s: string, cs: set<char>)
    ensures var k := FindFirstOf(s, cs);
      && (k < |s| ==> s[k] in cs)
      && (forall j :: 0 <= j < k ==> s[j] !in cs)
      && (k == |s| <==> forall j :: 0 <= j < |s| ==> s[j] !in cs)
  {
    if s != [] && s[0] !in cs {
      FindFirstOfSpec(s[1..], cs);
    }
  }

  /** Index of the last occurrence of `c` in `s`, if any. */
  function FindLast(s: string, c: char): (r: Option<nat>)
    ensures r.Some? ==> r.value < |s|
  {
    if s == [] then None
    else if s[|s| - 1] == c then Some(|s| - 1)
    else FindLast(s[..|s| - 1], c)
  }

  /** FindLast finds `c` exactly when `s` holds it, and then at its last occurrence. */
  lemma {:induction false} FindLastSpec(s: string, c: char)
    ensures var r := FindLast(s, c);
      && (r.None? <==> c !in s)
      && (r.Some? ==> s[r.value] == c)
      && (r.Some? ==> forall j :: r.value < j < |s| ==> s[j] != c)
  {
    if s != [] && s[|s| - 1] != c {
      FindLastSpec(s[..|s| - 1], c);
      assert s == s[..|s| - 1] + [s[|s| - 1]];
    }
  }

  /**
   * `pat` occurs in `s` starting at index `j`. Every string this model
   * searches for (the vendor separator "::" and the minimum marker ">=") is
   * two characters long, so the search is stated for two-character patterns.
   */
  predicate OccursAt(s: string, pat: string, j: nat)
    requires |pat| == 2
  {
    j + 1 < |s| && s[j] == pat[0] && s[j + 1] == pat[1]
  }

  /** Index of the first occurrence of the two-character pattern `pat` in `s`, or `|s|` when there is none. */
  function FindString(s: string, pat: string): (k: nat)
    requires |pat| == 2
    ensures k == |s| || k + |pat| <= |s|
  {
    if |s| < 2 then |s|
    else if s[0] == pat[0] && s[1] == pat[1] then 0
    else 1 + FindString(s[1..], pat)
  }

  /** FindString returns the first index where `pat` occurs, and `|s|` exactly when it does not occur. */
  lemma {:induction false} FindStringSpec(s: string, pat: string)
    requires |pat| == 2
    ensures var k := FindString(s, pat);
      && (k < |s| ==> OccursAt(s, pat, k))
      && (forall j: nat :: j < k ==> !OccursAt(s, pat, j))
      && (k == |s| ==> forall j: nat :: j < |s| ==> !OccursAt(s, pat, j))
  {
    if |s| >= 2 && !(s[0] == pat[0] && s[1] == pat[1]) {
      var t := s[1..];
      FindStringSpec(t, pat);
      assert forall j: nat :: 1 <= j ==> OccursAt(s, pat, j) == OccursAt(t, pat, j - 1);
    }
  }

  /** A start free of `cs` is skipped: the first index in `a + b` is `|a|` plus the first index in `b`. */
  lemma {:induction false} FindFirstOfAfter(a: string, cs: set<char>, b: string)
    requires forall j :: 0 <= j < |a| ==> a[j] !in cs
    ensures FindFirstOf(a + b, cs) == |a| + FindFirstOf(b, cs)
  {
    if a != [] {
      assert (a + b)[1..] == a[1..] + b;
      FindFirstOfAfter(a[1..], cs, b);
    } else {
      assert a + b == b;
    }
  }

  /** The last occurrence of `c` in `a + [c] + b` is the one after `a` when `b` does not hold `c`. */
  lemma {:induction false} FindLastAt(a: string, c: char, b: string)
    requires c !in b
    ensures FindLast(a + [c] + b, c) == Some(|a|)
  {
    if b != [] {
      var s := a + [c] + b;
      assert s[|s| - 1] == b[|b| - 1];
      assert s[..|s| - 1] == a + [c] + b[..|b| - 1];
      FindLastAt(a, c, b[..|b| - 1]);
    }
  }
}
