/**
 * The inverse of the tokenizer: writing fragments back as a
 * `#:~:text=…` hash, every part percent-encoded, and reading that hash
 * with `extractTextFragments` gives the same fragments back.
 */
module FragmentDirectives {
  import opened Wrappers
  import opened JsString
  import opened FragmentGrammar
  import opened TextFragments
  import Uri

  /** The directive text for already encoded parts. */
  function Spell(p: string, t: string, e: string, x: string): string {
    "&" + Keyword + p + "-" + "," + t + "," + e + "," + "-" + x
  }

  /** The directive that stands for `f`: `&text=prefix-,textStart,textEnd,-suffix`
      with every part percent-encoded; the `-` of the prefix and suffix and
      the comma before textEnd are always written. */
  function Directive(f: TextFragment): string {
    SpellOf(Encode(f))
  }

  function Directives(fs: seq<TextFragment>): string {
    if fs == [] then [] else Directive(fs[0]) + Directives(fs[1..])
  }

  /** A URL hash carrying the directives of `fs`. */
  function HashOf(fs: seq<TextFragment>): string {
    "#" + Marker + Directives(fs)
  }

  /** The four parts of a directive, already encoded. */
  datatype Parts = Parts(p: string, t: string, e: string, x: string)

  /** The match the grammar makes of `Spell(p, t, e, x)` when it starts at `o`. */
  function SpelledMatch(o: nat, p: string, t: string, e: string, x: string): DirectiveMatch {
    DirectiveMatch(o, o + |Spell(p, t, e, x)|, true, Some(p + "-"), true, Some(t), true,
      if e == [] then None else Some(e), true, Some("-" + x))
  }

  /** Only ASCII letters, digits and `%`: what percent-encoding writes. */
  predicate Encoded(s: string) {
    forall k :: 0 <= k < |s| ==> Uri.IsUnescaped(s[k]) || s[k] == '%'
  }

  // ---------------------------------------------------------------------
  // Proof helpers: slices of concatenations.

  lemma Peel(s: string, lo: nat, a: string, b: string)
    requires lo + |a| + |b| <= |s| && s[lo..lo + |a| + |b|] == a + b
    ensures s[lo..lo + |a|] == a && s[lo + |a|..lo + |a| + |b|] == b
  {
    assert s[lo..lo + |a|] == (a + b)[..|a|];
    assert s[lo + |a|..lo + |a| + |b|] == (a + b)[|a|..];
  }

  lemma Join(s: string, lo: nat, a: string, b: string)
    requires lo + |a| + |b| <= |s|
    requires s[lo..lo + |a|] == a && s[lo + |a|..lo + |a| + |b|] == b
    ensures s[lo..lo + |a| + |b|] == a + b
  {
    assert s[lo..lo + |a| + |b|] == s[lo..lo + |a|] + s[lo + |a|..lo + |a| + |b|];
  }

  lemma PeelChar(s: string, lo: nat, a: string, c: char)
    requires lo + |a| + 1 <= |s| && s[lo..lo + |a| + 1] == a + [c]
    ensures s[lo..lo + |a|] == a && s[lo + |a|] == c
  {
    Peel(s, lo, a, [c]);
    assert s[lo + |a|] == s[lo + |a|..lo + |a| + 1][0];
  }

  /** Where the pieces of `Spell(p, t, e, x)` stand when it is written at `o`. */
  lemma SpellPieces(s: string, o: nat, p: string, t: string, e: string, x: string)
    requires o + |Spell(p, t, e, x)| <= |s| && s[o..o + |Spell(p, t, e, x)|] == Spell(p, t, e, x)
    ensures o + |Spell(p, t, e, x)| == SpelledPos(o, p, t, e, x).end
    ensures SpelledAt(s, o, p, t, e, x)
  {
    var t1: string := "&";
    var t2 := t1 + Keyword;
    var t3 := t2 + p;
    var t4 := t3 + "-";
    var t5 := t4 + ",";
    var t6 := t5 + t;
    var t7 := t6 + ",";
    var t8 := t7 + e;
    var t9 := t8 + ",";
    var t10 := t9 + "-";
    assert Spell(p, t, e, x) == t10 + x;
    Peel(s, o, t10, x);
    PeelChar(s, o, t9, '-');
    PeelChar(s, o, t8, ',');
    Peel(s, o, t7, e);
    PeelChar(s, o, t6, ',');
    Peel(s, o, t5, t);
    PeelChar(s, o, t4, ',');
    PeelChar(s, o, t3, '-');
    Peel(s, o, t2, p);
    Peel(s, o, t1, Keyword);
    assert s[o] == s[o..o + 1][0];
  }

  lemma EncodedIsContent(s: string)
    requires Encoded(s)
    ensures AllContent(s)
  {
  }

  /** The scanner's positions in `Spell(p, t, e, x)` written at `o`: the
      keyword after the `&`, the prefix group with its `-`, a comma, the
      textStart group, a comma, the textEnd group, a comma and the suffix
      group with its `-`. */
  function SpelledPos(o: nat, p: string, t: string, e: string, x: string): Layout {
    var a := o + 1 + |Keyword|;
    var c := a + |p| + 2;
    var d := c + |t| + 1;
    var h := d + |e| + 1;
    Layout(o + 1, a, a + |p| + 1, c, c + |t|, d, d + |e|, h, h + 1 + |x|)
  }

  /** What `SpellPieces` says about the text at `o`, on the positions of
      `SpelledPos`. */
  ghost predicate SpelledAt(s: string, o: nat, p: string, t: string, e: string, x: string) {
    var l := SpelledPos(o, p, t, e, x);
    && l.end <= |s|
    && s[o + 1..l.a] == Keyword
    && s[l.a..l.b - 1] == p && s[l.c..l.r2] == t && s[l.d..l.r3] == e && s[l.e + 1..l.end] == x
    && s[o] == '&' && s[l.b - 1] == '-' && s[l.b] == ',' && s[l.r2] == ',' && s[l.r3] == ',' && s[l.e] == '-'
  }

  /** Encoded text followed by a character outside C (or the end) is a
      maximal run. */
  lemma RunOver(s: string, i: nat, w: string)
    requires Encoded(w) && i + |w| <= |s| && s[i..i + |w|] == w
    requires i + |w| == |s| || !IsTextContent(s[i + |w|])
    ensures Run(s, i) == i + |w|
  {
    EncodedIsContent(w);
    RunUnique(s, i, i + |w|);
  }

  /** Encoded parts written at `o` and followed by `&` or the end put the
      scanner exactly at the positions of `SpelledPos`. */
  lemma SpelledScanned(s: string, o: nat, p: string, t: string, e: string, x: string)
    requires Encoded(p) && Encoded(t) && Encoded(e) && Encoded(x)
    requires SpelledAt(s, o, p, t, e, x)
    requires var l := SpelledPos(o, p, t, e, x); l.end == |s| || s[l.end] == '&'
    ensures Scanned(s, o, SpelledPos(o, p, t, e, x))
  {
    var l := SpelledPos(o, p, t, e, x);
    RunOver(s, l.a, p);
    RunOver(s, l.c, t);
    RunOver(s, l.d, e);
    RunOver(s, l.e + 1, x);
  }

  /** The match built on those positions captures the encoded parts. */
  lemma SpelledMatchOf(s: string, o: nat, p: string, t: string, e: string, x: string)
    requires SpelledAt(s, o, p, t, e, x)
    ensures Ordered(o, SpelledPos(o, p, t, e, x), |s|)
    ensures MatchOf(s, o, SpelledPos(o, p, t, e, x)) == SpelledMatch(o, p, t, e, x)
  {
    var l := SpelledPos(o, p, t, e, x);
    SpelledGroup(s, l.a, p, '-');
    SpelledSuffix(s, l.e, x);
    assert |Spell(p, t, e, x)| == 11 + |p| + |t| + |e| + |x|;
  }

  lemma SpelledGroup(s: string, i: nat, w: string, c: char)
    requires i + |w| < |s| && s[i..i + |w|] == w && s[i + |w|] == c
    ensures s[i..i + |w| + 1] == w + [c]
  {
    assert s[i..i + |w| + 1] == s[i..i + |w|] + [s[i + |w|]];
  }

  lemma SpelledSuffix(s: string, i: nat, w: string)
    requires i + 1 + |w| <= |s| && s[i] == '-' && s[i + 1..i + 1 + |w|] == w
    ensures s[i..i + 1 + |w|] == "-" + w
  {
    assert s[i..i + 1 + |w|] == [s[i]] + s[i + 1..i + 1 + |w|];
  }

  /** The grammar's match at `o` is `SpelledMatch(o, p, t, e, x)`. */
  lemma SpellMatched(s: string, o: nat, p: string, t: string, e: string, x: string)
    requires Encoded(p) && Encoded(t) && Encoded(e) && Encoded(x)
    requires o + |Spell(p, t, e, x)| <= |s| && s[o..o + |Spell(p, t, e, x)|] == Spell(p, t, e, x)
    requires o + |Spell(p, t, e, x)| == |s| || s[o + |Spell(p, t, e, x)|] == '&'
    ensures DirectiveStartsAt(s, o) && MatchAt(s, o) == SpelledMatch(o, p, t, e, x)
  {
    var l := SpelledPos(o, p, t, e, x);
    SpellPieces(s, o, p, t, e, x);
    assert LitAt(s, o + 1, Keyword) by {
      forall k | 0 <= k < |Keyword| ensures s[o + 1 + k] == Keyword[k] {
        assert s[o + 1..l.a][k] == s[o + 1 + k];
      }
    }
    SpelledScanned(s, o, p, t, e, x);
    SpelledMatchOf(s, o, p, t, e, x);
    ScannedUnique(s, o, l);
  }

  /** The parts of `f` as the directive writes them. */
  function Encode(f: TextFragment): Parts {
    Parts(Uri.PercentEncode(f.prefix), Uri.PercentEncode(f.textStart),
      Uri.PercentEncode(f.textEnd), Uri.PercentEncode(f.suffix))
  }

  function EncodeAll(fs: seq<TextFragment>): (qs: seq<Parts>)
    ensures |qs| == |fs| && forall j :: 0 <= j < |fs| ==> qs[j] == Encode(fs[j])
  {
    if fs == [] then [] else [Encode(fs[0])] + EncodeAll(fs[1..])
  }

  predicate EncodedParts(q: Parts) {
    Encoded(q.p) && Encoded(q.t) && Encoded(q.e) && Encoded(q.x)
  }

  function SpellOf(q: Parts): string {
    Spell(q.p, q.t, q.e, q.x)
  }

  function SpellAll(qs: seq<Parts>): string {
    if qs == [] then [] else SpellOf(qs[0]) + SpellAll(qs[1..])
  }

  /** The groups a match captures from the directive written for `q`. */
  predicate HasGroups(m: DirectiveMatch, q: Parts) {
    && m.prefix == Some(q.p + "-") && m.textStart == Some(q.t)
    && m.textEnd == (if q.e == [] then None else Some(q.e)) && m.suffix == Some("-" + q.x)
  }

  lemma {:induction false} DirectivesSpelled(fs: seq<TextFragment>)
    ensures Directives(fs) == SpellAll(EncodeAll(fs))
    decreases fs
  {
    if fs != [] {
      DirectivesSpelled(fs[1..]);
      assert EncodeAll(fs)[1..] == EncodeAll(fs[1..]);
    }
  }

  /** Decoding the groups captured from `Directive(f)` gives `f` back. */
  lemma GroupsDecode(m: DirectiveMatch, f: TextFragment)
    requires HasGroups(m, Encode(f))
    ensures FromMatch(m) == Ok(f)
  {
    var q := Encode(f);
    Uri.DecodeEncode(f.prefix);
    Uri.DecodeEncode(f.textStart);
    Uri.DecodeEncode(f.textEnd);
    Uri.DecodeEncode(f.suffix);
    Uri.EncodeEmpty(f.textEnd);
    Uri.DecodeAppendPlain(q.p, '-');
    assert ("-" + q.x)[1..] == q.x;
    assert (f.prefix + "-")[..|f.prefix|] == f.prefix;
  }

  lemma SpellHead(qs: seq<Parts>)
    ensures qs != [] ==> |SpellAll(qs)| > 0 && SpellAll(qs)[0] == '&'
  {
    if qs != [] {
      assert SpellOf(qs[0])[0] == '&';
    }
  }

  lemma SplitRest(s: string, o: nat, a: string, b: string)
    requires o <= |s| && s[o..] == a + b
    ensures o + |a| <= |s| && s[o..o + |a|] == a && s[o + |a|..] == b
  {
    assert s[o..o + |a|] == s[o..][..|a|];
    assert s[o + |a|..] == s[o..][|a|..];
  }

  /** One directive at `o`, the rest after it. */
  lemma SpellStep(s: string, o: nat, qs: seq<Parts>) returns (n: nat)
    requires qs != [] && EncodedParts(qs[0]) && o <= |s| && s[o..] == SpellAll(qs)
    ensures n == o + |SpellOf(qs[0])| <= |s| && s[n..] == SpellAll(qs[1..])
    ensures DirectiveStartsAt(s, o) && AllMatches(s, o) == [MatchAt(s, o)] + AllMatches(s, n)
    ensures HasGroups(MatchAt(s, o), qs[0])
  {
    var q := qs[0];
    n := o + |SpellOf(q)|;
    SplitRest(s, o, SpellOf(q), SpellAll(qs[1..]));
    SpellHead(qs[1..]);
    if n < |s| {
      assert s[n] == s[n..][0];
    }
    SpellMatched(s, o, q.p, q.t, q.e, q.x);
    assert FirstStart(s, o) == Some(o);
  }

  lemma NoMatchesAtEnd(s: string, o: nat)
    requires o <= |s| && s[o..] == []
    ensures AllMatches(s, o) == []
  {
    assert !DirectiveStartsAt(s, o);
  }

  /** The matches of a run of directives written from `o` to the end are
      one per directive, each with the groups of its directive. */
  lemma {:induction false} SpelledMatches(s: string, o: nat, qs: seq<Parts>)
    requires o <= |s| && s[o..] == SpellAll(qs)
    requires forall j :: 0 <= j < |qs| ==> EncodedParts(qs[j])
    decreases qs
    ensures var ms := AllMatches(s, o);
      |ms| == |qs| && forall j :: 0 <= j < |qs| ==> HasGroups(ms[j], qs[j])
  {
    if qs == [] {
      NoMatchesAtEnd(s, o);
    } else {
      var n := SpellStep(s, o, qs);
      SpelledMatches(s, n, qs[1..]);
      ConsGroups(AllMatches(s, o), MatchAt(s, o), AllMatches(s, n), qs);
    }
  }

  lemma ConsGroups(ms: seq<DirectiveMatch>, m: DirectiveMatch, rest: seq<DirectiveMatch>, qs: seq<Parts>)
    requires qs != [] && ms == [m] + rest && HasGroups(m, qs[0])
    requires |rest| == |qs| - 1 && forall j :: 0 <= j < |rest| ==> HasGroups(rest[j], qs[1..][j])
    ensures |ms| == |qs| && forall j :: 0 <= j < |qs| ==> HasGroups(ms[j], qs[j])
  {
    forall j | 0 < j < |qs| ensures HasGroups(ms[j], qs[j]) {
      assert ms[j] == rest[j - 1];
      assert qs[j] == qs[1..][j - 1];
    }
  }

  lemma SpellNoColon(q: Parts)
    requires EncodedParts(q)
    ensures forall k :: 0 <= k < |SpellOf(q)| ==> SpellOf(q)[k] != ':'
  {
  }

  /** No `:` is ever written into a run of directives. */
  lemma {:induction false} NoColon(qs: seq<Parts>)
    requires forall j :: 0 <= j < |qs| ==> EncodedParts(qs[j])
    ensures forall k :: 0 <= k < |SpellAll(qs)| ==> SpellAll(qs)[k] != ':'
    decreases qs
  {
    if qs != [] {
      NoColon(qs[1..]);
      SpellNoColon(qs[0]);
    }
  }

  lemma EncodeAllEncoded(fs: seq<TextFragment>)
    ensures forall j :: 0 <= j < |fs| ==> EncodedParts(EncodeAll(fs)[j])
  {
    forall j | 0 <= j < |fs| ensures EncodedParts(EncodeAll(fs)[j]) {
      var f := fs[j];
      Uri.EncodedAlphabet(f.prefix);
      Uri.EncodedAlphabet(f.textStart);
      Uri.EncodedAlphabet(f.textEnd);
      Uri.EncodedAlphabet(f.suffix);
    }
  }

  /** The matches of the directives written for `fs` decode to `fs`. */
  lemma DirectivesDecode(fs: seq<TextFragment>)
    ensures var ms := AllMatches(Directives(fs), 0);
      |ms| == |fs| && forall j :: 0 <= j < |fs| ==> FromMatch(ms[j]) == Ok(fs[j])
  {
    var body := Directives(fs);
    var qs := EncodeAll(fs);
    DirectivesSpelled(fs);
    EncodeAllEncoded(fs);
    assert body[0..] == body;
    SpelledMatches(body, 0, qs);
    var ms := AllMatches(body, 0);
    forall j | 0 <= j < |fs| ensures FromMatch(ms[j]) == Ok(fs[j]) {
      GroupsDecode(ms[j], fs[j]);
    }
  }

  /** Reading back the hash written for `fs` gives exactly `fs`: the
      tokenizer undoes the directive syntax and percent-decoding undoes
      the encoding. */
  lemma TokenizeDirectives(fs: seq<TextFragment>)
    ensures TextFragmentsOf(HashOf(fs)) == Ok(fs)
  {
    var body := Directives(fs);
    DirectivesSpelled(fs);
    EncodeAllEncoded(fs);
    NoColon(EncodeAll(fs));
    MarkedPieces("#", body);
    DirectivesDecode(fs);
    CollectDecoded(AllMatches(body, 0), fs);
  }

  /** Matches that each decode to the fragment at the same place collect
      to those fragments. */
  lemma CollectDecoded(ms: seq<DirectiveMatch>, fs: seq<TextFragment>)
    requires |ms| == |fs| && forall j :: 0 <= j < |fs| ==> FromMatch(ms[j]) == Ok(fs[j])
    ensures Collect(ms) == Ok(fs)
  {
    CollectPointwise(ms);
    assert Collect(ms).value == fs;
  }
}
