/**
 Plain string helpers used by the server: ASCII case folding, prefix and
 suffix tests, and the part of a request path before its query string.
 */
module Text {

  /** ASCII lower-casing of one character; every other character is kept. */
  function LowerChar(c: char): (d: char)
    ensures 'A' <= c <= 'Z' ==> 'a' <= d <= 'z' && d as int - c as int == 32
    ensures !('A' <= c <= 'Z') ==> d == c
  {
    if 'A' <= c <= 'Z' then (c as int + 32) as char else c
  }

  /** `s.toLowerCase()`, approximated by an ASCII fold. */
  function Lower(s: string): (r: string)
    ensures |r| == |s|
    ensures forall i :: 0 <= i < |s| ==> r[i] == LowerChar(s[i])
  {
    if s == [] then [] else [LowerChar(s[0])] + Lower(s[1..])
  }

  /** A string that lower-casing leaves as it is. */
  predicate IsLower(s: string) {
    forall i :: 0 <= i < |s| ==> !('A' <= s[i] <= 'Z')
  }

  lemma LowerIsLower(s: string)
    ensures IsLower(Lower(s))
  {
  }

  /** Lower-casing twice is lower-casing once. */
  lemma LowerIdempotent(s: string)
    ensures Lower(Lower(s)) == Lower(s)
  {
    var r := Lower(s);
    assert forall i :: 0 <= i < |r| ==> Lower(r)[i] == r[i] by {
      forall i | 0 <= i < |r| ensures Lower(r)[i] == r[i] {
        assert r[i] == LowerChar(s[i]);
      }
    }
  }

  /** Lower-casing works character by character, so it distributes over concatenation. */
  lemma LowerAppend(a: string, b: string)
    ensures Lower(a + b) == Lower(a) + Lower(b)
  {
    assert forall i :: 0 <= i < |a + b| ==> Lower(a + b)[i] == (Lower(a) + Lower(b))[i];
  }

  /** Lower-casing a string ends with the lower-cased form of any suffix it was built with. */
  lemma LowerKeepsSuffix(stem: string, suffix: string)
    ensures EndsWith(Lower(stem + suffix), Lower(suffix))
  {
    LowerAppend(stem, suffix);
    var l := Lower(stem + suffix);
    assert l[|l| - |Lower(suffix)|..] == (Lower(stem) + Lower(suffix))[|Lower(stem)|..];
  }

  /** `s.startsWith(pre)`. */
  predicate StartsWith(s: string, pre: string) {
    pre <= s
  }

  /** `s` ends in `suf`: the end-anchored `$` of the static-extension regex. */
  predicate EndsWith(s: string, suf: string) {
    |suf| <= |s| && s[|s| - |suf|..] == suf
  }

  /**
   `s.split('?')[0]`: the longest prefix of `s` holding no `?`, which is
   everything before the first `?`, or all of `s` when it has none.
   */
  function BeforeQuery(s: string): (r: string)
    ensures r <= s
    ensures '?' !in r
    ensures |r| < |s| ==> s[|r|] == '?'
  {
    if s == [] then []
    else if s[0] == '?' then []
    else [s[0]] + BeforeQuery(s[1..])
  }

  /** The three properties of BeforeQuery determine its result. */
  lemma BeforeQueryUnique(s: string, r: string)
    requires r <= s && '?' !in r && (|r| < |s| ==> s[|r|] == '?')
    ensures BeforeQuery(s) == r
  {
  }

  /** A path without `?` is left whole. */
  lemma BeforeQueryNoQuery(s: string)
    requires '?' !in s
    ensures BeforeQuery(s) == s
  {
    BeforeQueryUnique(s, s);
  }

  /** Everything from the first `?` on is dropped. */
  lemma BeforeQueryDropsQuery(p: string, q: string)
    requires '?' !in p
    ensures BeforeQuery(p + "?" + q) == p
  {
    var s := p + "?" + q;
    assert p <= s;
    assert s[|p|] == '?';
    BeforeQueryUnique(s, p);
  }

  /** A `?`-free prefix of a path is also a prefix of the part before its query. */
  lemma BeforeQueryKeepsPrefix(s: string, pre: string)
    requires pre <= s && '?' !in pre
    ensures pre <= BeforeQuery(s)
  {
  }

  /** Stripping the query twice is stripping it once. */
  lemma BeforeQueryIdempotent(s: string)
    ensures BeforeQuery(BeforeQuery(s)) == BeforeQuery(s)
  {
    BeforeQueryNoQuery(BeforeQuery(s));
  }
}
