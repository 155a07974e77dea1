/**
 * The directive grammar TEXT_FRAGMENT_REGEX of src/utils.ts,
 *
 *   &?text=([C]*\-)?,?([C]*),?([C]*)?,?(\-[C]*)?     flags gi
 *
 * as a deterministic scanner over positions. Every part after `text=` can
 * match the empty string, so the first alternative the backtracking engine
 * tries always succeeds: each `[C]*` takes its maximal run, each `,?` takes
 * a comma when there is one, group 1 is taken when its run is followed by
 * `-`, group 3 (whose `?` refuses an empty iteration) is absent when its run
 * is empty, and group 4 is taken when a `-` follows.
 */
module FragmentGrammar {
  import opened Wrappers
  import opened JsString

  /** The class C = TEXT_CONTENT. Its `\]-_` is a range from `]` to `_`, so
      C holds `]`, `^` and `_` but no literal `-`; `&` and `,` are left out
      on purpose. Only ASCII characters are in C, and under a non-Unicode `i`
      flag no other character canonicalizes into it. */
  predicate IsTextContent(c: char) {
    ('A' <= c <= 'Z') || ('a' <= c <= 'z') || ('0' <= c <= '9')
    || c == '%' || c == '!' || c == '#' || c == '$' || c == '\'' || c == '('
    || c == ')' || c == '*' || c == '+' || c == '/' || c == ':' || c == ';'
    || c == '=' || c == '?' || c == '@' || c == '['
    || (']' <= c <= '_')
    || c == '.' || c == '~'
  }

  predicate AllContent(s: string) {
    forall k :: 0 <= k < |s| ==> IsTextContent(s[k])
  }

  const Keyword: string := "text="

  /** Where `text=` must stand for a match beginning at `p`: after the
      optional `&`, which is taken whenever it is there. */
  function KeywordStart(s: string, p: nat): nat {
    if p < |s| && s[p] == '&' then p + 1 else p
  }

  /** A match of the grammar can begin at `p`. */
  predicate DirectiveStartsAt(s: string, p: nat) {
    LitAt(s, KeywordStart(s, p), Keyword)
  }

  /** End of the maximal run of C starting at `i`. */
  function Run(s: string, i: nat): (j: nat)
    requires i <= |s|
    ensures i <= j <= |s|
    decreases |s| - i
  {
    if i < |s| && IsTextContent(s[i]) then Run(s, i + 1) else i
  }

  /** Where the pieces of a match begin, in text order: the keyword, group 1
      (prefix), the first comma, group 2 (textStart), the second comma,
      group 3 (textEnd), the third comma, group 4 (suffix), and the end. */
  datatype Layout = Layout(kw: nat, a: nat, b: nat, c: nat, r2: nat, d: nat, r3: nat, e: nat, end: nat)

  function SkipIf(s: string, i: nat, c: char): nat {
    if i < |s| && s[i] == c then i + 1 else i
  }

  /** The scanner: the positions the regular expression reaches at `p`. */
  function ScanLayout(s: string, p: nat): (l: Layout)
    requires DirectiveStartsAt(s, p)
    ensures Ordered(p, l, |s|) && l.kw == KeywordStart(s, p)
  {
    var kw := KeywordStart(s, p);
    var a := kw + |Keyword|;
    var r1 := Run(s, a);
    var b := if r1 < |s| && s[r1] == '-' then r1 + 1 else a;
    var c := SkipIf(s, b, ',');
    var r2 := Run(s, c);
    var d := SkipIf(s, r2, ',');
    var r3 := Run(s, d);
    var e := SkipIf(s, r3, ',');
    var end := if e < |s| && s[e] == '-' then Run(s, e + 1) else e;
    Layout(kw, a, b, c, r2, d, r3, e, end)
  }

  /** One match: its span, the optional separators it consumed and the four
      capture groups (`None` where JavaScript reports `undefined`). */
  datatype DirectiveMatch = DirectiveMatch(
    start: nat, end: nat,
    ampersand: bool,
    prefix: Option<string>, comma1: bool,
    textStart: Option<string>, comma2: bool,
    textEnd: Option<string>, comma3: bool,
    suffix: Option<string>)

  /** The positions of a layout for a match at `p` are in text order and
      inside a text of length `n`. */
  predicate Ordered(p: nat, l: Layout, n: nat) {
    p <= l.kw <= p + 1 && l.kw + |Keyword| == l.a
    && l.a <= l.b <= l.c <= l.r2 <= l.d <= l.r3 <= l.e <= l.end <= n
    && l.c <= l.b + 1 && l.d <= l.r2 + 1 && l.e <= l.r3 + 1
  }

  /** The equations the scanner's positions satisfy, one per piece. */
  predicate Scanned(s: string, p: nat, l: Layout) {
    && Ordered(p, l, |s|)
    && l.kw == KeywordStart(s, p)
    && l.b == (if Run(s, l.a) < |s| && s[Run(s, l.a)] == '-' then Run(s, l.a) + 1 else l.a)
    && l.c == SkipIf(s, l.b, ',')
    && l.r2 == Run(s, l.c)
    && l.d == SkipIf(s, l.r2, ',')
    && l.r3 == Run(s, l.d)
    && l.e == SkipIf(s, l.r3, ',')
    && l.end == (if l.e < |s| && s[l.e] == '-' then Run(s, l.e + 1) else l.e)
  }

  lemma ScanIsScanned(s: string, p: nat)
    requires DirectiveStartsAt(s, p)
    ensures Scanned(s, p, ScanLayout(s, p))
  {
  }

  /** The match whose pieces sit at the positions of `l`. */
  function MatchOf(s: string, p: nat, l: Layout): DirectiveMatch
    requires Ordered(p, l, |s|)
  {
    DirectiveMatch(
      p, l.end, l.kw == p + 1,
      if l.a < l.b then Some(s[l.a..l.b]) else None, l.b < l.c,
      Some(s[l.c..l.r2]), l.r2 < l.d,
      if l.d < l.r3 then Some(s[l.d..l.r3]) else None, l.r3 < l.e,
      if l.e < l.end then Some(s[l.e..l.end]) else None)
  }

  /** The match the regular expression finds at `p`. */
  function MatchAt(s: string, p: nat): (m: DirectiveMatch)
    requires DirectiveStartsAt(s, p)
    ensures m.start == p && p + |Keyword| <= m.end <= |s|
  {
    MatchOf(s, p, ScanLayout(s, p))
  }

  function Part(g: Option<string>): string {
    if g.Some? then g.value else []
  }

  function Flag(present: bool, c: char): string {
    if present then [c] else []
  }

  /** The positions a match's pieces imply, read off the match itself. */
  function LayoutOf(m: DirectiveMatch): Layout {
    var kw := m.start + |Flag(m.ampersand, '&')|;
    var a := kw + |Keyword|;
    var b := a + |Part(m.prefix)|;
    var c := b + |Flag(m.comma1, ',')|;
    var r2 := c + |Part(m.textStart)|;
    var d := r2 + |Flag(m.comma2, ',')|;
    var r3 := d + |Part(m.textEnd)|;
    var e := r3 + |Flag(m.comma3, ',')|;
    Layout(kw, a, b, c, r2, d, r3, e, e + |Part(m.suffix)|)
  }

  /** The text from `m.start` holds the optional `&`, `text=` in any case
      and the four groups with their separators, one after the other. */
  ghost predicate SpellsPieces(s: string, m: DirectiveMatch) {
    var l := LayoutOf(m);
    && m.end == l.end <= |s|
    && s[m.start..l.kw] == Flag(m.ampersand, '&')
    && LitAt(s, l.kw, Keyword)
    && s[l.a..l.b] == Part(m.prefix)
    && s[l.b..l.c] == Flag(m.comma1, ',')
    && s[l.c..l.r2] == Part(m.textStart)
    && s[l.r2..l.d] == Flag(m.comma2, ',')
    && s[l.d..l.r3] == Part(m.textEnd)
    && s[l.r3..l.e] == Flag(m.comma3, ',')
    && s[l.e..l.end] == Part(m.suffix)
  }

  /** Each group has the shape of its part of the pattern. */
  ghost predicate GroupShapes(m: DirectiveMatch) {
    var p, x := Part(m.prefix), Part(m.suffix);
    && (m.prefix.Some? ==> |p| >= 1 && AllContent(p[..|p| - 1]) && p[|p| - 1] == '-')
    && m.textStart.Some? && AllContent(Part(m.textStart))
    && (m.textEnd.Some? ==> Part(m.textEnd) != [] && AllContent(Part(m.textEnd)))
    && (m.suffix.Some? ==> |x| >= 1 && x[0] == '-' && AllContent(x[1..]))
  }

  /** The priorities: each optional piece is taken exactly when the text
      offers it, each run of C is maximal. */
  ghost predicate GreedyChoices(s: string, m: DirectiveMatch)
    requires m.start < |s| && LayoutOf(m).end <= |s|
  {
    var l := LayoutOf(m);
    && m.ampersand == (s[m.start] == '&')
    && (m.prefix.None? ==> forall j :: l.a <= j < |s| && AllContent(s[l.a..j]) ==> s[j] != '-')
    && m.comma1 == (l.b < |s| && s[l.b] == ',')
    && (l.r2 == |s| || !IsTextContent(s[l.r2]))
    && m.comma2 == (l.r2 < |s| && s[l.r2] == ',')
    && (l.r3 == |s| || !IsTextContent(s[l.r3]))
    && m.comma3 == (l.r3 < |s| && s[l.r3] == ',')
    && m.suffix.Some? == (l.e < |s| && s[l.e] == '-')
    && (m.suffix.Some? ==> l.end == |s| || !IsTextContent(s[l.end]))
  }

  /** Declarative reading of the regular expression with its priorities. */
  ghost predicate GreedyParse(s: string, m: DirectiveMatch) {
    SpellsPieces(s, m) && m.start < |s| && GroupShapes(m) && GreedyChoices(s, m)
  }

  /** The run holds only C and stops at a non-C character or the end. */
  lemma {:induction false} RunIsAllContent(s: string, i: nat)
    requires i <= |s|
    decreases |s| - i
    ensures AllContent(s[i..Run(s, i)])
    ensures Run(s, i) == |s| || !IsTextContent(s[Run(s, i)])
  {
    if i < |s| && IsTextContent(s[i]) {
      RunIsAllContent(s, i + 1);
      var j := Run(s, i);
      forall k | 0 <= k < j - i ensures IsTextContent(s[i..j][k]) {
        if k > 0 {
          assert s[i..j][k] == s[i + 1..j][k - 1];
        }
      }
    }
  }

  /** A stretch of C starting at `i` lies inside the maximal run. */
  lemma {:induction false} RunBound(s: string, i: nat, j: nat)
    requires i <= j <= |s| && AllContent(s[i..j])
    decreases j - i
    ensures j <= Run(s, i)
  {
    if i < j {
      assert IsTextContent(s[i..j][0]);
      var t := s[i + 1..j];
      assert AllContent(t) by {
        forall k | 0 <= k < |t| ensures IsTextContent(t[k]) {
          assert t[k] == s[i..j][k + 1];
        }
      }
      RunBound(s, i + 1, j);
    }
  }

  /** A run of C followed by a non-C character (or the end) is the maximal run. */
  lemma RunUnique(s: string, i: nat, j: nat)
    requires i <= j <= |s| && AllContent(s[i..j])
    requires j == |s| || !IsTextContent(s[j])
    ensures Run(s, i) == j
  {
    RunBound(s, i, j);
    RunIsAllContent(s, i);
  }

  /** Reading the positions back off a match built from a layout gives the
      layout itself. */
  lemma LayoutOfMatchOf(s: string, p: nat, l: Layout)
    requires Ordered(p, l, |s|)
    ensures LayoutOf(MatchOf(s, p, l)) == l
  {
  }

  /** Reading the positions back off the scanner's match gives the
      scanner's own positions. */
  lemma LayoutOfMatchAt(s: string, p: nat)
    requires DirectiveStartsAt(s, p)
    ensures LayoutOf(MatchAt(s, p)) == ScanLayout(s, p)
  {
    LayoutOfMatchOf(s, p, ScanLayout(s, p));
  }

  /** A slice of at most one character, that character being `c`. */
  lemma FlagSlice(s: string, i: nat, j: nat, c: char)
    requires i <= j <= |s| && (j == i || (j == i + 1 && s[i] == c))
    ensures s[i..j] == Flag(i < j, c)
  {
    if i < j {
      assert s[i..j] == [s[i]];
    }
  }

  lemma SliceInit(s: string, i: nat, j: nat)
    requires i < j <= |s|
    ensures s[i..j][..j - i - 1] == s[i..j - 1] && s[i..j][j - i - 1] == s[j - 1]
  {
  }

  lemma SliceTail(s: string, i: nat, j: nat)
    requires i < j <= |s|
    ensures s[i..j][1..] == s[i + 1..j] && s[i..j][0] == s[i]
  {
  }

  lemma SpellsScanned(s: string, p: nat, l: Layout)
    requires Scanned(s, p, l) && LitAt(s, l.kw, Keyword)
    ensures SpellsPieces(s, MatchOf(s, p, l))
  {
    LayoutOfMatchOf(s, p, l);
    FlagSlice(s, p, l.kw, '&');
    FlagSlice(s, l.b, l.c, ',');
    FlagSlice(s, l.r2, l.d, ',');
    FlagSlice(s, l.r3, l.e, ',');
  }

  /** The prefix group the scanner takes ends in `-` after a stretch of C. */
  lemma PrefixShape(s: string, a: nat, b: nat)
    requires a <= |s| && b == if Run(s, a) < |s| && s[Run(s, a)] == '-' then Run(s, a) + 1 else a
    ensures a < b ==> var g := s[a..b];
      |g| >= 1 && AllContent(g[..|g| - 1]) && g[|g| - 1] == '-'
  {
    if a < b {
      RunIsAllContent(s, a);
      SliceInit(s, a, b);
    }
  }

  /** The suffix group the scanner takes is `-` and a stretch of C. */
  lemma SuffixShape(s: string, e: nat, end: nat)
    requires e <= |s| && end == if e < |s| && s[e] == '-' then Run(s, e + 1) else e
    ensures e < end ==> var g := s[e..end];
      |g| >= 1 && g[0] == '-' && AllContent(g[1..])
  {
    if e < end {
      RunIsAllContent(s, e + 1);
      SliceTail(s, e, end);
    }
  }

  lemma ShapesScanned(s: string, p: nat, l: Layout)
    requires Scanned(s, p, l)
    ensures GroupShapes(MatchOf(s, p, l))
  {
    RunIsAllContent(s, l.c);
    RunIsAllContent(s, l.d);
    PrefixShape(s, l.a, l.b);
    SuffixShape(s, l.e, l.end);
  }

  /** When no `-` ends the run at `a`, no stretch of C from `a` is followed
      by a `-`. */
  lemma NoDashAfterRun(s: string, a: nat)
    requires a <= |s| && !(Run(s, a) < |s| && s[Run(s, a)] == '-')
    ensures forall j :: a <= j < |s| && AllContent(s[a..j]) ==> s[j] != '-'
  {
    forall j | a <= j < |s| && AllContent(s[a..j]) ensures s[j] != '-' {
      RunBound(s, a, j);
      RunIsAllContent(s, a);
      if j < Run(s, a) {
        assert s[a..Run(s, a)][j - a] == s[j];
      }
    }
  }

  /** The choices of the scanner, stated on its positions. */
  lemma ChoicesOfLayout(s: string, p: nat, l: Layout)
    requires Scanned(s, p, l)
    ensures (l.kw == p + 1) == (s[p] == '&')
    ensures l.a == l.b ==> forall j :: l.a <= j < |s| && AllContent(s[l.a..j]) ==> s[j] != '-'
    ensures (l.b < l.c) == (l.b < |s| && s[l.b] == ',')
    ensures l.r2 == |s| || !IsTextContent(s[l.r2])
    ensures (l.r2 < l.d) == (l.r2 < |s| && s[l.r2] == ',')
    ensures l.r3 == |s| || !IsTextContent(s[l.r3])
    ensures (l.r3 < l.e) == (l.r3 < |s| && s[l.r3] == ',')
    ensures (l.e < l.end) == (l.e < |s| && s[l.e] == '-')
    ensures l.e < l.end ==> l.end == |s| || !IsTextContent(s[l.end])
  {
    if l.a == l.b {
      NoDashAfterRun(s, l.a);
    }
    RunIsAllContent(s, l.c);
    RunIsAllContent(s, l.d);
    if l.e < |s| && s[l.e] == '-' {
      RunIsAllContent(s, l.e + 1);
    }
  }

  lemma ChoicesScanned(s: string, p: nat, l: Layout)
    requires Scanned(s, p, l)
    ensures p < |s| && LayoutOf(MatchOf(s, p, l)).end <= |s|
    ensures GreedyChoices(s, MatchOf(s, p, l))
  {
    LayoutOfMatchOf(s, p, l);
    ChoicesOfLayout(s, p, l);
  }

  lemma ScanSpellsPieces(s: string, p: nat)
    requires DirectiveStartsAt(s, p)
    ensures SpellsPieces(s, MatchAt(s, p))
  {
    ScanIsScanned(s, p);
    SpellsScanned(s, p, ScanLayout(s, p));
  }

  lemma ScanGroupShapes(s: string, p: nat)
    requires DirectiveStartsAt(s, p)
    ensures GroupShapes(MatchAt(s, p))
  {
    ScanIsScanned(s, p);
    ShapesScanned(s, p, ScanLayout(s, p));
  }

  lemma ScanGreedyChoices(s: string, p: nat)
    requires DirectiveStartsAt(s, p)
    ensures p < |s| && LayoutOf(MatchAt(s, p)).end <= |s|
    ensures GreedyChoices(s, MatchAt(s, p))
  {
    ScanIsScanned(s, p);
    ChoicesScanned(s, p, ScanLayout(s, p));
  }

  /** The scanner's match is the greedy parse of the text. */
  lemma MatchAtIsGreedyParse(s: string, p: nat)
    requires DirectiveStartsAt(s, p)
    ensures GreedyParse(s, MatchAt(s, p))
  {
    ScanSpellsPieces(s, p);
    ScanGroupShapes(s, p);
    ScanGreedyChoices(s, p);
  }

  /** The scanner's positions are the only ones that satisfy its equations. */
  lemma ScannedUnique(s: string, p: nat, l: Layout)
    requires DirectiveStartsAt(s, p) && Scanned(s, p, l)
    ensures ScanLayout(s, p) == l
  {
    ScanIsScanned(s, p);
  }

  lemma GreedyKeyword(s: string, m: DirectiveMatch)
    requires GreedyParse(s, m)
    ensures LayoutOf(m).kw == KeywordStart(s, m.start)
  {
    if m.ampersand {
      assert s[m.start..LayoutOf(m).kw][0] == s[m.start];
    }
  }

  /** The prefix group on positions: a stretch of C closed by `-` when
      present, and no such stretch when absent. */
  lemma PrefixRun(s: string, a: nat, b: nat)
    requires a <= b <= |s|
    requires a < b ==> s[b - 1] == '-' && AllContent(s[a..b - 1])
    requires a == b ==> forall j :: a <= j < |s| && AllContent(s[a..j]) ==> s[j] != '-'
    ensures b == if Run(s, a) < |s| && s[Run(s, a)] == '-' then Run(s, a) + 1 else a
  {
    RunIsAllContent(s, a);
    if a < b {
      RunUnique(s, a, b - 1);
    }
  }

  lemma GreedyPrefix(s: string, m: DirectiveMatch)
    requires GreedyParse(s, m)
    ensures var l := LayoutOf(m); var r1 := Run(s, l.a);
      l.b == if r1 < |s| && s[r1] == '-' then r1 + 1 else l.a
  {
    var l := LayoutOf(m);
    PrefixOfPieces(s, l.a, l.b, m.prefix);
  }

  /** The prefix group as a parse reads it, prefix by prefix of the text. */
  lemma PrefixOfPieces(s: string, a: nat, b: nat, g: Option<string>)
    requires a <= b <= |s| && s[a..b] == Part(g)
    requires g.Some? ==> var x := Part(g); |x| >= 1 && AllContent(x[..|x| - 1]) && x[|x| - 1] == '-'
    requires g.None? ==> a == b && forall j :: a <= j < |s| && AllContent(s[a..j]) ==> s[j] != '-'
    ensures b == if Run(s, a) < |s| && s[Run(s, a)] == '-' then Run(s, a) + 1 else a
  {
    if a < b {
      SliceInit(s, a, b);
    }
    PrefixRun(s, a, b);
  }

  lemma GreedyMiddle(s: string, m: DirectiveMatch)
    requires GreedyParse(s, m)
    ensures var l := LayoutOf(m);
      && l.c == SkipIf(s, l.b, ',') && l.r2 == Run(s, l.c)
      && l.d == SkipIf(s, l.r2, ',') && l.r3 == Run(s, l.d)
      && l.e == SkipIf(s, l.r3, ',')
  {
    var l := LayoutOf(m);
    if l.b < l.c { SliceTail(s, l.b, l.c); }
    RunUnique(s, l.c, l.r2);
    if l.r2 < l.d { SliceTail(s, l.r2, l.d); }
    RunUnique(s, l.d, l.r3);
    if l.r3 < l.e { SliceTail(s, l.r3, l.e); }
  }

  lemma GreedySuffix(s: string, m: DirectiveMatch)
    requires GreedyParse(s, m)
    ensures var l := LayoutOf(m);
      l.end == if l.e < |s| && s[l.e] == '-' then Run(s, l.e + 1) else l.e
  {
    var l := LayoutOf(m);
    if m.suffix.Some? {
      SliceTail(s, l.e, l.end);
      RunUnique(s, l.e + 1, l.end);
    }
  }

  /** A greedy parse sits where the scanner puts its pieces. */
  lemma GreedyLayout(s: string, m: DirectiveMatch)
    requires GreedyParse(s, m)
    ensures DirectiveStartsAt(s, m.start) && ScanLayout(s, m.start) == LayoutOf(m)
  {
    GreedyKeyword(s, m);
    GreedyPrefix(s, m);
    GreedyMiddle(s, m);
    GreedySuffix(s, m);
    ScannedUnique(s, m.start, LayoutOf(m));
  }

  /** Conversely, a greedy parse is the scanner's match, so the two readings
      agree and the parse at a position is unique. */
  lemma GreedyParseIsMatchAt(s: string, m: DirectiveMatch)
    requires GreedyParse(s, m)
    ensures DirectiveStartsAt(s, m.start) && m == MatchAt(s, m.start)
  {
    GreedyLayout(s, m);
    var l := LayoutOf(m);
    var n := MatchAt(s, m.start);
    assert n.end == m.end;
    assert n.prefix == m.prefix;
    assert n.textStart == m.textStart;
    assert n.textEnd == m.textEnd;
    assert n.suffix == m.suffix;
  }

  /** No `&`, `,` or `-` in `g`. */
  predicate FreeOfDelimiters(g: string) {
    forall k :: 0 <= k < |g| ==> g[k] != '&' && g[k] != ',' && g[k] != '-'
  }

  /** The alphabet the shapes of the groups allow. */
  lemma ShapesAlphabet(m: DirectiveMatch)
    requires GroupShapes(m)
    ensures
      && m.textStart.Some? && FreeOfDelimiters(m.textStart.value)
      && (m.textEnd.Some? ==> FreeOfDelimiters(m.textEnd.value))
      && (m.prefix.Some? ==> var g := m.prefix.value;
            |g| >= 1 && g[|g| - 1] == '-' && FreeOfDelimiters(g[..|g| - 1]))
      && (m.suffix.Some? ==> var g := m.suffix.value;
            |g| >= 1 && g[0] == '-' && FreeOfDelimiters(g[1..]))
  {
  }

  /** What the groups can hold: none holds `&` or `,`; only the prefix group
      (as its last character) and the suffix group (as its first) hold a
      `-`; textStart is always present. */
  lemma GroupAlphabet(s: string, p: nat)
    requires DirectiveStartsAt(s, p)
    ensures var m := MatchAt(s, p);
      && m.textStart.Some? && FreeOfDelimiters(m.textStart.value)
      && (m.textEnd.Some? ==> FreeOfDelimiters(m.textEnd.value))
      && (m.prefix.Some? ==> var g := m.prefix.value;
            |g| >= 1 && g[|g| - 1] == '-' && FreeOfDelimiters(g[..|g| - 1]))
      && (m.suffix.Some? ==> var g := m.suffix.value;
            |g| >= 1 && g[0] == '-' && FreeOfDelimiters(g[1..]))
  {
    ScanGroupShapes(s, p);
    ShapesAlphabet(MatchAt(s, p));
  }

  // ---------------------------------------------------------------------
  // `matchAll`: every match, left to right, each search resuming where the
  // previous match ended.

  predicate NoStartBetween(s: string, lo: nat, hi: nat) {
    forall q :: lo <= q < hi ==> !DirectiveStartsAt(s, q)
  }

  /** Leftmost position at or after `from` where a match begins. */
  function FirstStart(s: string, from: nat): (r: Option<nat>)
    requires from <= |s|
    decreases |s| - from
    ensures r.Some? ==> from <= r.value <= |s| && DirectiveStartsAt(s, r.value)
    ensures r.Some? ==> NoStartBetween(s, from, r.value)
    ensures r.None? ==> NoStartBetween(s, from, |s| + 1)
  {
    if DirectiveStartsAt(s, from) then Some(from)
    else if from == |s| then None
    else FirstStart(s, from + 1)
  }

  /** The matches `s.matchAll(TEXT_FRAGMENT_REGEX)` yields from `from` on. */
  function AllMatches(s: string, from: nat): (ms: seq<DirectiveMatch>)
    requires from <= |s|
    decreases |s| - from
    ensures forall j :: 0 <= j < |ms| ==> from <= ms[j].start
  {
    match FirstStart(s, from)
    case None => []
    case Some(q) =>
      var m := MatchAt(s, q);
      [m] + AllMatches(s, m.end)
  }

  /** Each match is the scanner's match at its own start. */
  lemma {:induction false} MatchesAreScans(s: string, from: nat)
    requires from <= |s|
    decreases |s| - from
    ensures var ms := AllMatches(s, from);
      forall j :: 0 <= j < |ms| ==> DirectiveStartsAt(s, ms[j].start) && ms[j] == MatchAt(s, ms[j].start)
  {
    var ms := AllMatches(s, from);
    AllMatchesUnfold(s, from);
    if ms != [] {
      var rest := AllMatches(s, ms[0].end);
      MatchesAreScans(s, ms[0].end);
      forall j | 0 < j < |ms| ensures DirectiveStartsAt(s, ms[j].start) && ms[j] == MatchAt(s, ms[j].start) {
        assert ms[j] == rest[j - 1];
      }
    }
  }

  /** The first match after `from` is the leftmost, and the rest follow on
      from where it ends. */
  lemma AllMatchesUnfold(s: string, from: nat)
    requires from <= |s|
    ensures var ms := AllMatches(s, from);
      && (ms == [] <==> FirstStart(s, from).None?)
      && (ms != [] ==>
            ms[0].start == FirstStart(s, from).value < ms[0].end
            && ms[1..] == AllMatches(s, ms[0].end))
  {
  }

  /** Matches that do not overlap and come in text order. */
  predicate InOrder(ms: seq<DirectiveMatch>) {
    forall j, k :: 0 <= j < k < |ms| ==> ms[j].end <= ms[k].start
  }

  lemma ConsInOrder(m: DirectiveMatch, rest: seq<DirectiveMatch>)
    requires InOrder(rest) && forall k :: 0 <= k < |rest| ==> m.end <= rest[k].start
    ensures InOrder([m] + rest)
  {
    var ms := [m] + rest;
    forall j, k | 0 <= j < k < |ms| ensures ms[j].end <= ms[k].start {
      assert ms[k] == rest[k - 1];
      if j > 0 {
        assert ms[j] == rest[j - 1];
      }
    }
  }

  /** The matches do not overlap and come in text order. */
  lemma {:induction false} MatchesInOrder(s: string, from: nat)
    requires from <= |s|
    decreases |s| - from
    ensures InOrder(AllMatches(s, from))
  {
    var ms := AllMatches(s, from);
    AllMatchesUnfold(s, from);
    if ms != [] {
      var rest := AllMatches(s, ms[0].end);
      MatchesInOrder(s, ms[0].end);
      ConsInOrder(ms[0], rest);
      assert ms == [ms[0]] + rest;
    }
  }

  /** Each match is the leftmost one after the previous: no match begins
      before the first, between two, or after the last. */
  lemma {:induction false} MatchesLeaveNoGap(s: string, from: nat)
    requires from <= |s|
    decreases |s| - from
    ensures var ms := AllMatches(s, from);
      && (ms == [] ==> NoStartBetween(s, from, |s| + 1))
      && (ms != [] ==> NoStartBetween(s, from, ms[0].start))
      && (ms != [] ==> NoStartBetween(s, ms[|ms| - 1].end, |s| + 1))
      && (forall j :: 0 < j < |ms| ==> NoStartBetween(s, ms[j - 1].end, ms[j].start))
  {
    var ms := AllMatches(s, from);
    AllMatchesUnfold(s, from);
    if ms != [] {
      var rest := AllMatches(s, ms[0].end);
      MatchesLeaveNoGap(s, ms[0].end);
      assert ms == [ms[0]] + rest;
      forall j | 0 < j < |ms| ensures NoStartBetween(s, ms[j - 1].end, ms[j].start) {
        assert ms[j] == rest[j - 1];
        if j > 1 {
          assert ms[j - 1] == rest[j - 2];
        }
      }
      if rest != [] {
        assert ms[|ms| - 1] == rest[|rest| - 1];
      }
    }
  }
}
