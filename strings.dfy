/** The few Python string operations the middleware relies on. */
module Strings {

  /** `s.startswith(p)` */
  predicate StartsWith(s: string, p: string) {
    |p| <= |s| && s[..|p|] == p
  }

  /** `s.endswith(p)` */
  predicate EndsWith(s: string, p: string) {
    |p| <= |s| && s[|s| - |p|..] == p
  }

  /** `s.rstrip(c)` for a single character `c`: the result is a prefix of `s`
      that does not end in `c`, and everything cut off is `c`. */
  function RStrip(s: string, c: char): (r: string)
    ensures StartsWith(s, r)
    ensures r == [] || r[|r| - 1] != c
    ensures forall k :: |r| <= k < |s| ==> s[k] == c
    decreases |s|
  {
    if s != [] && s[|s| - 1] == c then RStrip(s[..|s| - 1], c) else s
  }

  /** `s.lstrip(c)` for a single character `c`: the result is a suffix of `s`
      that does not start with `c`, and everything cut off is `c`. */
  function LStrip(s: string, c: char): (r: string)
    ensures EndsWith(s, r)
    ensures r == [] || r[0] != c
    ensures forall k :: 0 <= k < |s| - |r| ==> s[k] == c
    decreases |s|
  {
    if s != [] && s[0] == c then LStrip(s[1..], c) else s
  }

  /** `s.strip(c)`: neither end of the result is `c`. */
  function Strip(s: string, c: char): (r: string)
    ensures |r| <= |s|
    ensures r == [] || (r[0] != c && r[|r| - 1] != c)
    ensures exists i, j :: 0 <= i <= j <= |s| && r == s[i..j]
              && forall k :: 0 <= k < |s| && (k < i || j <= k) ==> s[k] == c
  {
    var t := RStrip(s, c);
    var r := LStrip(t, c);
    assert r != [] ==> r == t[|t| - |r|..] && r[|r| - 1] == t[|t| - 1];
    var i, j := |t| - |r|, |t|;
    assert r == s[i..j];
    assert forall k :: 0 <= k < |s| && (k < i || j <= k) ==> s[k] == c;
    r
  }

  /** The three properties in RStrip's contract determine its result. */
  lemma RStripUnique(s: string, c: char, t: string)
    requires StartsWith(s, t)
    requires t == [] || t[|t| - 1] != c
    requires forall k :: |t| <= k < |s| ==> s[k] == c
    ensures t == RStrip(s, c)
  {
    var r := RStrip(s, c);
    assert |t| == |r|;
    assert t == s[..|t|] == r;
  }

  /** Stripping twice strips nothing more. */
  lemma RStripIdempotent(s: string, c: char)
    ensures RStrip(RStrip(s, c), c) == RStrip(s, c)
  {
    var r := RStrip(s, c);
    assert r[..|r|] == r;
    RStripUnique(r, c, r);
  }
}
