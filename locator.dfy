/**
 * `TextFragment.extract` of src/scraper.ts: every part is escaped, the
 * pattern `prefix *(textStart.*?textEnd) *suffix` is built with the flags
 * `gis`, and the trimmed group of its first match in the page text is the
 * result.
 *
 * The regular expression is not modelled as a general engine. `Lex` reads a
 * pattern as a sequence of atoms, and `PatternAtoms` shows that the pattern
 * built from brace-free parts is the literal prefix, ` *`, a group holding the
 * literal textStart and, when textEnd is not empty, `.*?` and the literal
 * textEnd, then ` *` and the literal suffix. `Occurrence` is what it means
 * for that shape to match, and `FirstOccurrence` is the match a backtracking
 * engine reports: the leftmost start, then as many leading spaces as
 * possible, then the shortest gap before textEnd.
 */
module Locator {
  import opened Wrappers
  import opened Seqs
  import opened JsString
  import opened TextFragments

  // ---------------------------------------------------------------------
  // Escaping and the shape of the pattern.

  /** The characters `extract` puts a backslash in front of. */
  predicate IsEscaped(c: char) {
    c == '$' || c == '^' || c == '*' || c == '(' || c == ')' || c == '+' || c == '\\'
    || c == '|' || c == '?' || c == '.' || c == '/' || c == '[' || c == ']'
  }

  /** The characters with a meaning of their own in a pattern (the
      SyntaxCharacter production of ECMAScript). */
  predicate IsSyntax(c: char) {
    c == '^' || c == '$' || c == '\\' || c == '.' || c == '*' || c == '+' || c == '?'
    || c == '(' || c == ')' || c == '[' || c == ']' || c == '{' || c == '}' || c == '|'
  }

  /** What escaping writes for one character. */
  function EscapeChar(c: char): string {
    if IsEscaped(c) then ['\\', c] else [c]
  }

  /** `s.replace(/([$^*()+\\|?./[\]])/g, '\\$1')`. */
  function EscapeRegExp(s: string): (r: string)
    ensures |r| >= |s|
  {
    if s == [] then [] else EscapeChar(s[0]) + EscapeRegExp(s[1..])
  }

  /** One unit of a pattern: a character matched as itself, or pattern
      syntax. */
  datatype Atom = Literal(c: char) | Special(c: char)

  /** The atoms of a pattern: a backslash before an escaped character makes
      that character literal, other syntax characters are syntax, and every
      other character is literal. (Escapes such as `\d`, which escaping never
      writes, appear as a `Special('\\')`.) */
  function Lex(p: string): seq<Atom>
    decreases |p|
  {
    if p == [] then []
    else if p[0] == '\\' && |p| >= 2 && IsEscaped(p[1]) then [Literal(p[1])] + Lex(p[2..])
    else if IsSyntax(p[0]) then [Special(p[0])] + Lex(p[1..])
    else [Literal(p[0])] + Lex(p[1..])
  }

  function Literals(s: string): (r: seq<Atom>)
    ensures |r| == |s| && forall k :: 0 <= k < |s| ==> r[k] == Literal(s[k])
  {
    if s == [] then [] else [Literal(s[0])] + Literals(s[1..])
  }

  predicate BraceFree(s: string) {
    forall k :: 0 <= k < |s| ==> s[k] != '{' && s[k] != '}'
  }

  lemma LexPlain(c: char, rest: string)
    requires !IsSyntax(c)
    ensures Lex([c] + rest) == [Literal(c)] + Lex(rest)
  {
    assert ([c] + rest)[1..] == rest;
  }

  lemma LexSyntax(c: char, rest: string)
    requires IsSyntax(c) && c != '\\'
    ensures Lex([c] + rest) == [Special(c)] + Lex(rest)
  {
    assert ([c] + rest)[1..] == rest;
  }

  lemma LexPair(c: char, rest: string)
    requires IsEscaped(c)
    ensures Lex(['\\', c] + rest) == [Literal(c)] + Lex(rest)
  {
    assert (['\\', c] + rest)[2..] == rest;
  }

  /** An escaped brace-free part reads as its own characters, each literal. */
  lemma {:induction false} LexEscaped(s: string, t: string)
    requires BraceFree(s)
    ensures Lex(EscapeRegExp(s) + t) == Literals(s) + Lex(t)
    decreases s
  {
    if s == [] {
      assert EscapeRegExp(s) + t == t;
    } else {
      LexEscaped(s[1..], t);
      LexEscapedStep(s, t);
    }
  }

  lemma LexEscapedChar(c: char, rest: string)
    requires c != '{' && c != '}'
    ensures Lex(EscapeChar(c) + rest) == [Literal(c)] + Lex(rest)
  {
    if IsEscaped(c) {
      LexPair(c, rest);
    } else {
      LexPlain(c, rest);
    }
  }

  lemma LexEscapedStep(s: string, t: string)
    requires s != [] && s[0] != '{' && s[0] != '}'
    requires Lex(EscapeRegExp(s[1..]) + t) == Literals(s[1..]) + Lex(t)
    ensures Lex(EscapeRegExp(s) + t) == Literals(s) + Lex(t)
  {
    var rest := EscapeRegExp(s[1..]) + t;
    Assoc(EscapeChar(s[0]), EscapeRegExp(s[1..]), t);
    LexEscapedChar(s[0], rest);
    Assoc([Literal(s[0])], Literals(s[1..]), Lex(t));
  }

  /** The lazy gap and textEnd that `extract` writes when textEnd is not
      empty. */
  function Gap(textEnd: string): string {
    var e := EscapeRegExp(textEnd);
    if e != [] then ".*?" + e else []
  }

  /** The pattern `extract` builds for `f`. */
  function Pattern(f: TextFragment): string {
    EscapeRegExp(f.prefix) + " *(" + EscapeRegExp(f.textStart) + Gap(f.textEnd) + ") *" + EscapeRegExp(f.suffix)
  }

  lemma LexClose(u: string)
    ensures Lex(") *" + u) == [Special(')'), Literal(' '), Special('*')] + Lex(u)
  {
    assert ") *" + u == [')'] + ([' '] + (['*'] + u));
    LexSyntax('*', u);
    LexPlain(' ', ['*'] + u);
    LexSyntax(')', [' '] + (['*'] + u));
  }

  lemma LexLazyDot(u: string)
    ensures Lex(".*?" + u) == [Special('.'), Special('*'), Special('?')] + Lex(u)
  {
    assert ".*?" + u == ['.'] + (['*'] + (['?'] + u));
    LexSyntax('?', u);
    LexSyntax('*', ['?'] + u);
    LexSyntax('.', ['*'] + (['?'] + u));
  }

  lemma LexGapPresent(textEnd: string, u: string)
    requires BraceFree(textEnd) && textEnd != []
    ensures Lex(Gap(textEnd) + u) == [Special('.'), Special('*'), Special('?')] + (Literals(textEnd) + Lex(u))
  {
    var e := EscapeRegExp(textEnd);
    assert Gap(textEnd) + u == ".*?" + (e + u);
    LexLazyDot(e + u);
    LexEscaped(textEnd, u);
  }

  lemma LexGap(textEnd: string, u: string)
    requires BraceFree(textEnd)
    ensures Lex(Gap(textEnd) + u) ==
      (if textEnd == [] then [] else [Special('.'), Special('*'), Special('?')] + Literals(textEnd)) + Lex(u)
  {
    if textEnd != [] {
      LexGapPresent(textEnd, u);
    } else {
      assert Gap(textEnd) + u == u;
    }
  }

  lemma LexOpen(u: string)
    ensures Lex(" *(" + u) == [Literal(' '), Special('*'), Special('(')] + Lex(u)
  {
    assert " *(" + u == [' '] + (['*'] + (['('] + u));
    LexSyntax('(', u);
    LexSyntax('*', ['('] + u);
    LexPlain(' ', ['*'] + (['('] + u));
  }

  /** For brace-free parts the pattern is: the literal prefix, a starred
      space, a group holding the literal textStart and, when textEnd is not
      empty, a lazy starred dot and the literal textEnd, then a starred space
      and the literal suffix. */
  lemma PatternAtoms(f: TextFragment)
    requires BraceFree(f.prefix) && BraceFree(f.textStart) && BraceFree(f.textEnd) && BraceFree(f.suffix)
    ensures Lex(Pattern(f)) ==
      Literals(f.prefix) + [Literal(' '), Special('*'), Special('(')] + Literals(f.textStart)
      + (if f.textEnd == [] then [] else [Special('.'), Special('*'), Special('?')] + Literals(f.textEnd))
      + [Special(')'), Literal(' '), Special('*')] + Literals(f.suffix)
  {
    var x := EscapeRegExp(f.suffix);
    var close := ") *" + x;
    var afterStart := Gap(f.textEnd) + close;
    var u := EscapeRegExp(f.textStart) + afterStart;
    var open := " *(" + u;
    var gap := if f.textEnd == [] then [] else [Special('.'), Special('*'), Special('?')] + Literals(f.textEnd);
    var c3 := [Special(')'), Literal(' '), Special('*')];
    var o3 := [Literal(' '), Special('*'), Special('(')];
    LexEscapedAll(f.suffix);
    LexClose(x);
    assert Lex(close) == c3 + Literals(f.suffix);
    LexGap(f.textEnd, close);
    LexEscaped(f.textStart, afterStart);
    LexOpen(u);
    LexEscaped(f.prefix, open);
    Regroup(EscapeRegExp(f.prefix), " *(", EscapeRegExp(f.textStart), Gap(f.textEnd), ") *", x);
    Regroup(Literals(f.prefix), o3, Literals(f.textStart), gap, c3, Literals(f.suffix));
    calc {
      Lex(Pattern(f));
      Literals(f.prefix) + Lex(open);
      Literals(f.prefix) + (o3 + Lex(u));
      Literals(f.prefix) + (o3 + (Literals(f.textStart) + Lex(afterStart)));
      Literals(f.prefix) + (o3 + (Literals(f.textStart) + (gap + Lex(close))));
      Literals(f.prefix) + (o3 + (Literals(f.textStart) + (gap + (c3 + Literals(f.suffix)))));
    }
  }

  /** An escaped text on its own lexes to its literals. */
  lemma LexEscapedAll(s: string)
    requires BraceFree(s)
    ensures Lex(EscapeRegExp(s)) == Literals(s)
  {
    LexEscaped(s, []);
    assert EscapeRegExp(s) + [] == EscapeRegExp(s);
    assert Lex([]) == [];
    assert Literals(s) + [] == Literals(s);
  }

  lemma Regroup<T>(a: seq<T>, b: seq<T>, c: seq<T>, d: seq<T>, e: seq<T>, g: seq<T>)
    ensures a + b + c + d + e + g == a + (b + (c + (d + (e + g))))
  {
  }

  // ---------------------------------------------------------------------
  // What a match of the pattern is.

  /** Only U+0020 from `j` up to `k`. */
  predicate Spaces(b: string, j: int, k: int) {
    0 <= j <= k <= |b| && forall m :: j <= m < k ==> b[m] == ' '
  }

  /** ` *` and then the suffix can be matched from `e` on. */
  ghost predicate SuffixFollows(b: string, e: int, suffix: string) {
    exists q :: Spaces(b, e, q) && LitAt(b, q, suffix)
  }

  /** Where the group ends, for a group starting at `g` whose textEnd (if
      any) starts at `h`. */
  function GroupEnd(f: TextFragment, g: int, h: int): int {
    if f.textEnd == [] then g + |f.textStart| else h + |f.textEnd|
  }

  /** From textStart, at `g`: the textStart, then either nothing (no
      textEnd, and `h` is where the group ends) or a gap of any characters
      from the end of textStart to `h` and the textEnd at `h`; then the
      spaces and the suffix. */
  ghost predicate Tail(f: TextFragment, b: string, g: int, h: int) {
    && LitAt(b, g, f.textStart)
    && (if f.textEnd == [] then h == g + |f.textStart|
        else g + |f.textStart| <= h && LitAt(b, h, f.textEnd))
    && SuffixFollows(b, GroupEnd(f, g, h), f.suffix)
  }

  /** The pattern matches from `i`, with its group starting at `g` and its
      textEnd (if any) at `h`. The dot of flag `s` matches every character,
      and flag `i` compares letters through `Canonicalize`. */
  ghost predicate Occurrence(f: TextFragment, b: string, i: int, g: int, h: int) {
    LitAt(b, i, f.prefix) && Spaces(b, i + |f.prefix|, g) && Tail(f, b, g, h)
  }

  /** The match a backtracking engine finds first: no match starts before
      `i`; among those from `i`, the greedy ` *` takes as many spaces as it
      can; then the lazy `.*?` takes as few characters as it can. */
  ghost predicate FirstOccurrence(f: TextFragment, b: string, i: int, g: int, h: int) {
    && Occurrence(f, b, i, g, h)
    && (forall i', g', h' :: i' < i ==> !Occurrence(f, b, i', g', h'))
    && (forall g', h' :: g < g' ==> !Occurrence(f, b, i, g', h'))
    && (forall h' :: h' < h ==> !Occurrence(f, b, i, g, h'))
  }

  lemma OccurrenceBounds(f: TextFragment, b: string, i: int, g: int, h: int)
    requires Occurrence(f, b, i, g, h)
    ensures 0 <= i && i + |f.prefix| <= g <= g + |f.textStart| <= GroupEnd(f, g, h) <= |b|
  {
  }

  /** What `extract` returns: `undefined` when the pattern matches nowhere,
      and otherwise the trimmed group of the first match. */
  ghost predicate ExtractsTo(f: TextFragment, b: string, r: Option<string>) {
    match r
    case None => forall i, g, h :: !Occurrence(f, b, i, g, h)
    case Some(t) =>
      exists i, g, h :: FirstOccurrence(f, b, i, g, h)
        && 0 <= g <= GroupEnd(f, g, h) <= |b| && t == Trim(b[g..GroupEnd(f, g, h)])
  }

  /** There is only one first match. */
  lemma FirstOccurrenceUnique(f: TextFragment, b: string, i: int, g: int, h: int, i2: int, g2: int, h2: int)
    requires FirstOccurrence(f, b, i, g, h) && FirstOccurrence(f, b, i2, g2, h2)
    ensures i == i2 && g == g2 && h == h2
  {
  }

  /** `ExtractsTo` determines the result: `extract` is a function of the
      fragment and the text. */
  lemma ExtractsToUnique(f: TextFragment, b: string, r1: Option<string>, r2: Option<string>)
    requires ExtractsTo(f, b, r1) && ExtractsTo(f, b, r2)
    ensures r1 == r2
  {
    if r1.Some? && r2.Some? {
      var i, g, h :| FirstOccurrence(f, b, i, g, h)
        && 0 <= g <= GroupEnd(f, g, h) <= |b| && r1.value == Trim(b[g..GroupEnd(f, g, h)]);
      var i2, g2, h2 :| FirstOccurrence(f, b, i2, g2, h2)
        && 0 <= g2 <= GroupEnd(f, g2, h2) <= |b| && r2.value == Trim(b[g2..GroupEnd(f, g2, h2)]);
      FirstOccurrenceUnique(f, b, i, g, h, i2, g2, h2);
    }
  }

  // ---------------------------------------------------------------------
  // The search.

  /** The end of the run of spaces starting at `j`. */
  method SpaceRun(b: string, j: nat) returns (k: nat)
    requires j <= |b|
    ensures Spaces(b, j, k) && (k == |b| || b[k] != ' ')
  {
    k := j;
    while k < |b| && b[k] == ' '
      invariant Spaces(b, j, k)
      decreases |b| - k
    {
      k := k + 1;
    }
  }

  lemma SpacesStop(b: string, e: int, q: int, q': int)
    requires Spaces(b, e, q') && e <= q && (q == |b| || (q < |b| && b[q] != ' '))
    ensures q' <= q
  {
  }

  /** Whether ` *` followed by `suffix` matches from `e`, trying the
      positions from `e` on. */
  method SuffixSearch(b: string, e: nat, suffix: string) returns (found: bool)
    requires e <= |b|
    ensures found <==> SuffixFollows(b, e, suffix)
  {
    var q := e;
    while true
      invariant Spaces(b, e, q)
      invariant forall q' :: e <= q' < q ==> !LitAt(b, q', suffix)
      decreases |b| - q
    {
      if LitAt(b, q, suffix) {
        return true;
      }
      if q == |b| || b[q] != ' ' {
        forall q' | Spaces(b, e, q') ensures !LitAt(b, q', suffix) {
          SpacesStop(b, e, q, q');
        }
        return false;
      }
      q := q + 1;
    }
  }

  /** The textEnd position a match with its group at `g` uses: the first
      one from which the rest of the pattern matches. */
  method TailSearch(f: TextFragment, b: string, g: nat) returns (h: Option<nat>)
    requires LitAt(b, g, f.textStart)
    ensures h.None? ==> forall h' :: !Tail(f, b, g, h')
    ensures h.Some? ==> Tail(f, b, g, h.value) && forall h' :: h' < h.value ==> !Tail(f, b, g, h')
  {
    var s := g + |f.textStart|;
    if f.textEnd == [] {
      var ok := SuffixSearch(b, s, f.suffix);
      return if ok then Some(s) else None;
    }
    var k := s;
    while k + |f.textEnd| <= |b|
      invariant s <= k
      invariant forall h' :: h' < k ==> !Tail(f, b, g, h')
      decreases |b| - k
    {
      if LitAt(b, k, f.textEnd) {
        var ok := SuffixSearch(b, k + |f.textEnd|, f.suffix);
        if ok {
          return Some(k);
        }
      }
      k := k + 1;
    }
    return None;
  }

  /** The match starting at `i`, if any: the group start with the most
      leading spaces that leads to a match, and for it the first textEnd. */
  method MatchFrom(f: TextFragment, b: string, i: nat) returns (m: Option<(nat, nat)>)
    requires LitAt(b, i, f.prefix)
    ensures m.None? ==> forall g, h :: !Occurrence(f, b, i, g, h)
    ensures m.Some? ==>
      var (g, h) := m.value;
      && Occurrence(f, b, i, g, h)
      && (forall g', h' :: g < g' ==> !Occurrence(f, b, i, g', h'))
      && (forall h' :: h' < h ==> !Occurrence(f, b, i, g, h'))
  {
    var lo := i + |f.prefix|;
    var hi := SpaceRun(b, lo);
    var g := hi + 1;
    while g > lo
      invariant lo <= g <= hi + 1
      invariant forall g', h :: g <= g' ==> !Occurrence(f, b, i, g', h)
      decreases g
    {
      g := g - 1;
      assert Spaces(b, lo, g);
      if LitAt(b, g, f.textStart) {
        var h := TailSearch(f, b, g);
        if h.Some? {
          return Some((g, h.value));
        }
      }
    }
    return None;
  }

  /** `extract`: the first match of the pattern in `body`, its group
      trimmed, or `None` for `undefined`. */
  method Extract(f: TextFragment, body: string) returns (r: Option<string>)
    ensures ExtractsTo(f, body, r)
  {
    var i := 0;
    while i <= |body|
      invariant i <= |body| + 1
      invariant forall i', g, h :: i' < i ==> !Occurrence(f, body, i', g, h)
      decreases |body| + 1 - i
    {
      if LitAt(body, i, f.prefix) {
        var m := MatchFrom(f, body, i);
        if m.Some? {
          var (g, h) := m.value;
          OccurrenceBounds(f, body, i, g, h);
          assert FirstOccurrence(f, body, i, g, h);
          return Some(Trim(body[g..GroupEnd(f, g, h)]));
        }
      }
      i := i + 1;
    }
    return None;
  }
}
