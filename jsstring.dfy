/**
 * The few JavaScript string built-ins the scraper relies on: the case
 * canonicalisation of a non-Unicode `i` regular expression (ASCII part),
 * `String.prototype.trim`, `indexOf` and `split(separator, 2)`.
 */
module JsString {
  import opened Wrappers

  /** Canonicalize of a case-insensitive, non-Unicode RegExp, restricted to
      ASCII: lower-case letters map to upper case, everything else to itself. */
  function Canonicalize(c: char): char {
    if 'a' <= c <= 'z' then (c as int - 32) as char else c
  }

  /** `lit` occurs at position `p` of `s` when both sides are compared
      through `Canonicalize`, as a literal does under the `i` flag. */
  predicate LitAt(s: string, p: int, lit: string) {
    0 <= p && p + |lit| <= |s|
    && forall k :: 0 <= k < |lit| ==> Canonicalize(s[p + k]) == Canonicalize(lit[k])
  }

  /** ECMAScript WhiteSpace and LineTerminator code points: TAB, VT, FF,
      ZWNBSP, the Zs category (Unicode 15) and LF, CR, LS, PS. */
  predicate IsWhiteSpace(c: char) {
    var n := c as int;
    n == 0x09 || n == 0x0A || n == 0x0B || n == 0x0C || n == 0x0D || n == 0x20
    || n == 0xA0 || n == 0x1680 || (0x2000 <= n <= 0x200A) || n == 0x2028
    || n == 0x2029 || n == 0x202F || n == 0x205F || n == 0x3000 || n == 0xFEFF
  }

  predicate AllWhiteSpace(s: string) {
    forall k :: 0 <= k < |s| ==> IsWhiteSpace(s[k])
  }

  /** Length of the longest white-space prefix of `s`. */
  function LeadingWhiteSpace(s: string): (n: nat)
    ensures n <= |s| && AllWhiteSpace(s[..n])
    ensures n == |s| || !IsWhiteSpace(s[n])
  {
    if s == [] || !IsWhiteSpace(s[0]) then 0
    else
      var m := LeadingWhiteSpace(s[1..]);
      assert s[..m + 1] == [s[0]] + s[1..][..m];
      m + 1
  }

  /** Length of the longest white-space suffix of `s`. */
  function TrailingWhiteSpace(s: string): (n: nat)
    ensures n <= |s| && AllWhiteSpace(s[|s| - n..])
    ensures n == |s| || !IsWhiteSpace(s[|s| - 1 - n])
  {
    if s == [] || !IsWhiteSpace(s[|s| - 1]) then 0
    else
      var init := s[..|s| - 1];
      var m := TrailingWhiteSpace(init);
      assert s[|s| - (m + 1)..] == init[|init| - m..] + [s[|s| - 1]];
      m + 1
  }

  /** `String.prototype.trim`: the slice of `s` left once the white space at
      both ends is removed; inner white space is kept. */
  function Trim(s: string): (r: string)
    ensures var a := LeadingWhiteSpace(s);
      a + |r| <= |s| && s[a..a + |r|] == r
      && AllWhiteSpace(s[..a]) && AllWhiteSpace(s[a + |r|..])
    ensures r == [] || (!IsWhiteSpace(r[0]) && !IsWhiteSpace(r[|r| - 1]))
  {
    var a := LeadingWhiteSpace(s);
    var t := s[a..];
    var b := TrailingWhiteSpace(t);
    assert s[a + (|t| - b)..] == t[|t| - b..];
    t[..|t| - b]
  }

  /** A string with no white space at either end is its own trim. */
  lemma TrimUnchanged(s: string)
    requires s != [] ==> !IsWhiteSpace(s[0]) && !IsWhiteSpace(s[|s| - 1])
    ensures Trim(s) == s
  {
    assert s[0..] == s;
  }

  predicate OccursAt(s: string, sep: string, q: int) {
    0 <= q && q + |sep| <= |s| && s[q..q + |sep|] == sep
  }

  /** `s.indexOf(sep, from)`, with `None` for -1. */
  function IndexOf(s: string, sep: string, from: nat): (r: Option<nat>)
    decreases |s| - from
    ensures r.Some? ==> from <= r.value && OccursAt(s, sep, r.value)
    ensures r.Some? ==> forall q :: from <= q < r.value ==> !OccursAt(s, sep, q)
    ensures r.None? ==> forall q :: from <= q ==> !OccursAt(s, sep, q)
  {
    if |s| < from + |sep| then None
    else if s[from..from + |sep|] == sep then Some(from)
    else IndexOf(s, sep, from + 1)
  }

  /** `s.split(sep, 2)`: the text before the first occurrence of `sep` and,
      when there is one, the text between it and the next occurrence (or the
      end of `s`). */
  function SplitAtMost2(s: string, sep: string): (r: seq<string>)
    requires sep != []
    ensures 1 <= |r| <= 2
    ensures |r| == 1 <==> forall q :: !OccursAt(s, sep, q)
    ensures |r| == 1 ==> r[0] == s
    ensures |r| == 2 ==>
      var start := |r[0]| + |sep|;
      var end := start + |r[1]|;
      && end <= |s| && s[..start] == r[0] + sep && s[start..end] == r[1]
      && OccursAt(s, sep, |r[0]|)
      && (forall q :: 0 <= q < |r[0]| ==> !OccursAt(s, sep, q))
      && (forall q :: start <= q < end ==> !OccursAt(s, sep, q))
      && (end == |s| || OccursAt(s, sep, end))
  {
    match IndexOf(s, sep, 0)
    case None => [s]
    case Some(q) =>
      var start := q + |sep|;
      var end := match IndexOf(s, sep, start) case None => |s| case Some(q2) => q2;
      assert s[..start] == s[..q] + s[q..start];
      [s[..q], s[start..end]]
  }
}
