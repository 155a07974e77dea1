/**
 * Cases of src/scraper.test.ts worked through the model: the hashes of the
 * tokenizer test and their fragments, and one fragment located in a page
 * text.
 */
module Examples {
  import opened Wrappers
  import opened Seqs
  import opened JsString
  import opened FragmentGrammar
  import opened TextFragments
  import FragmentDirectives
  import Uri
  import Locator
  import OlebSpelling

  ghost predicate SlicesAtLayout(s: string, m: DirectiveMatch) {
    var l := LayoutOf(m);
    && m.end == l.end <= |s|
    && s[m.start..l.kw] == Flag(m.ampersand, '&')
    && s[l.kw..l.a] == Keyword
    && s[l.a..l.b] == Part(m.prefix)
    && s[l.b..l.c] == Flag(m.comma1, ',')
    && s[l.c..l.r2] == Part(m.textStart)
    && s[l.r2..l.d] == Flag(m.comma2, ',')
    && s[l.d..l.r3] == Part(m.textEnd)
    && s[l.r3..l.e] == Flag(m.comma3, ',')
    && s[l.e..l.end] == Part(m.suffix)
  }

  lemma SlicesSpellPieces(s: string, m: DirectiveMatch)
    requires SlicesAtLayout(s, m)
    ensures SpellsPieces(s, m)
  {
    var l := LayoutOf(m);
    assert LitAt(s, l.kw, Keyword) by {
      forall k | 0 <= k < |Keyword| ensures s[l.kw + k] == Keyword[k] {
        assert s[l.kw..l.a][k] == s[l.kw + k];
      }
    }
  }

  lemma PeelNine(s: string, o: nat, a1: string, a2: string, a3: string, a4: string, a5: string,
                 a6: string, a7: string, a8: string, a9: string)
    requires var w := a1 + a2 + a3 + a4 + a5 + a6 + a7 + a8 + a9;
      o + |w| <= |s| && s[o..o + |w|] == w
    ensures var p1 := o + |a1|; var p2 := p1 + |a2|; var p3 := p2 + |a3|; var p4 := p3 + |a4|;
      var p5 := p4 + |a5|; var p6 := p5 + |a6|; var p7 := p6 + |a7|; var p8 := p7 + |a8|;
      && s[o..p1] == a1 && s[p1..p2] == a2 && s[p2..p3] == a3 && s[p3..p4] == a4
      && s[p4..p5] == a5 && s[p5..p6] == a6 && s[p6..p7] == a7 && s[p7..p8] == a8
      && s[p8..p8 + |a9|] == a9
  {
    var t5 := a1 + a2 + a3 + a4 + a5;
    var t6 := t5 + a6;
    var t7 := t6 + a7;
    var t8 := t7 + a8;
    FragmentDirectives.Peel(s, o, t8, a9);
    FragmentDirectives.Peel(s, o, t7, a8);
    FragmentDirectives.Peel(s, o, t6, a7);
    FragmentDirectives.Peel(s, o, t5, a6);
    PeelFive(s, o, a1, a2, a3, a4, a5);
  }

  lemma PeelFive(s: string, o: nat, a1: string, a2: string, a3: string, a4: string, a5: string)
    requires var w := a1 + a2 + a3 + a4 + a5;
      o + |w| <= |s| && s[o..o + |w|] == w
    ensures var p1 := o + |a1|; var p2 := p1 + |a2|; var p3 := p2 + |a3|; var p4 := p3 + |a4|;
      && s[o..p1] == a1 && s[p1..p2] == a2 && s[p2..p3] == a3 && s[p3..p4] == a4
      && s[p4..p4 + |a5|] == a5
  {
    var t1 := a1;
    var t2 := t1 + a2;
    var t3 := t2 + a3;
    var t4 := t3 + a4;
    FragmentDirectives.Peel(s, o, t4, a5);
    FragmentDirectives.Peel(s, o, t3, a4);
    FragmentDirectives.Peel(s, o, t2, a3);
    FragmentDirectives.Peel(s, o, t1, a2);
  }

  /** A directive whose nine pieces stand at `o` one after the other, the
      pieces being those of `m` in text order, spells the pieces of `m`. */
  lemma NinePieces(s: string, o: nat, m: DirectiveMatch, a1: string, a2: string, a3: string, a4: string,
                   a5: string, a6: string, a7: string, a8: string, a9: string)
    requires var p1 := o + |a1|; var p2 := p1 + |a2|; var p3 := p2 + |a3|; var p4 := p3 + |a4|;
      var p5 := p4 + |a5|; var p6 := p5 + |a6|; var p7 := p6 + |a7|; var p8 := p7 + |a8|;
      && p8 + |a9| <= |s| && m.start == o && m.end == p8 + |a9|
      && s[o..p1] == a1 && s[p1..p2] == a2 && s[p2..p3] == a3 && s[p3..p4] == a4
      && s[p4..p5] == a5 && s[p5..p6] == a6 && s[p6..p7] == a7 && s[p7..p8] == a8
      && s[p8..p8 + |a9|] == a9
    requires a1 == Flag(m.ampersand, '&') && a2 == Keyword && a3 == Part(m.prefix)
      && a4 == Flag(m.comma1, ',') && a5 == Part(m.textStart) && a6 == Flag(m.comma2, ',')
      && a7 == Part(m.textEnd) && a8 == Flag(m.comma3, ',') && a9 == Part(m.suffix)
    ensures SpellsPieces(s, m)
  {
    NineLayout(o, m, a1, a2, a3, a4, a5, a6, a7, a8, a9);
    SlicesSpellPieces(s, m);
  }

  lemma NineLayout(o: nat, m: DirectiveMatch, a1: string, a2: string, a3: string, a4: string,
                   a5: string, a6: string, a7: string, a8: string, a9: string)
    requires m.start == o
    requires a1 == Flag(m.ampersand, '&') && a2 == Keyword && a3 == Part(m.prefix)
      && a4 == Flag(m.comma1, ',') && a5 == Part(m.textStart) && a6 == Flag(m.comma2, ',')
      && a7 == Part(m.textEnd) && a8 == Flag(m.comma3, ',') && a9 == Part(m.suffix)
    ensures var p1 := o + |a1|; var p2 := p1 + |a2|; var p3 := p2 + |a3|; var p4 := p3 + |a4|;
      var p5 := p4 + |a5|; var p6 := p5 + |a6|; var p7 := p6 + |a7|; var p8 := p7 + |a8|;
      LayoutOf(m) == Layout(p1, p2, p3, p4, p5, p6, p7, p8, p8 + |a9|)
  {
  }

  /** The characters the words of the examples are made of: letters,
      digits, parentheses and the full stop, all in C. */
  predicate WordChar(c: char) {
    ('A' <= c <= 'Z') || ('a' <= c <= 'z') || ('0' <= c <= '9') || c == '(' || c == ')' || c == '.'
  }

  predicate Word(w: string) {
    forall k :: 0 <= k < |w| ==> WordChar(w[k])
  }

  /** `e` is a run of C without `:` that decodes to `d`. */
  ghost predicate Phrase(e: string, d: string) {
    && AllContent(e)
    && (forall k :: 0 <= k < |e| ==> e[k] != ':')
    && Uri.Decode(e) == Some(d)
  }

  lemma WordPhrase(w: string)
    requires Word(w)
    ensures forall k :: 0 <= k < |w| ==> w[k] != '%'
    ensures Phrase(w, w)
  {
    Uri.DecodePlain(w);
  }

  /** The match of `text=p-,t,e,-x`: all four groups present. */
  function FourPartsMatch(p: string, t: string, e: string, x: string): DirectiveMatch {
    DirectiveMatch(0, |Keyword| + |p| + 2 + |t| + 1 + |e| + 2 + |x|,
      false, Some(p + "-"), true, Some(t), true, Some(e), true, Some("-" + x))
  }

  lemma FourPartsParse(s: string, p: string, t: string, e: string, x: string)
    requires s == Keyword + (p + "-") + "," + t + "," + e + "," + ("-" + x)
    requires e != [] && AllContent(p) && AllContent(t) && AllContent(e) && AllContent(x)
    ensures GreedyParse(s, FourPartsMatch(p, t, e, x))
  {
    FourPartsPieces(s, p, t, e, x);
    DashedShapes(p, x);
    FourPartsChoices(s, p, t, e, x);
  }

  lemma FourPartsPieces(s: string, p: string, t: string, e: string, x: string)
    requires s == Keyword + (p + "-") + "," + t + "," + e + "," + ("-" + x)
    ensures SpellsPieces(s, FourPartsMatch(p, t, e, x))
    ensures var b := |Keyword| + |p| + 1; var r2 := b + 1 + |t|; var r3 := r2 + 1 + |e|;
      && s[0] == Keyword[0] && s[b] == ',' && s[r2] == ',' && s[r3] == ',' && s[r3 + 1] == '-'
  {
    var m := FourPartsMatch(p, t, e, x);
    PeelNine(s, 0, "", Keyword, p + "-", ",", t, ",", e, ",", "-" + x);
    NinePieces(s, 0, m, "", Keyword, p + "-", ",", t, ",", e, ",", "-" + x);
    var b := |Keyword| + |p| + 1;
    assert s[b] == s[b..b + 1][0];
  }

  /** The choices of the four-part match hold in any text with its
      delimiters in the same places. */
  lemma FourPartsChoices(s: string, p: string, t: string, e: string, x: string)
    requires |s| == |Keyword| + |p| + 2 + |t| + 1 + |e| + 2 + |x|
    requires var b := |Keyword| + |p| + 1; var r2 := b + 1 + |t|; var r3 := r2 + 1 + |e|;
      && s[0] == Keyword[0] && s[b] == ',' && s[r2] == ',' && s[r3] == ',' && s[r3 + 1] == '-'
    ensures GreedyChoices(s, FourPartsMatch(p, t, e, x))
  {
  }

  /** A prefix group `w-` and a suffix group `-x` have their shapes when
      `w` and `x` are runs of C. */
  lemma DashedShapes(w: string, x: string)
    requires AllContent(w) && AllContent(x)
    ensures var p := w + "-"; AllContent(p[..|p| - 1]) && p[|p| - 1] == '-'
    ensures var q := "-" + x; q[0] == '-' && AllContent(q[1..])
  {
    assert (w + "-")[..|w|] == w;
    assert ("-" + x)[1..] == x;
  }

  /** A parse that covers the whole text is its only match. */
  lemma SoleMatch(s: string, m: DirectiveMatch)
    requires GreedyParse(s, m) && m.start == 0 && m.end == |s|
    ensures AllMatches(s, 0) == [m]
  {
    GreedyParseIsMatchAt(s, m);
    assert FirstStart(s, 0) == Some(0);
    AllMatchesUnfold(s, 0);
    assert FirstStart(s, |s|) == None;
    AllMatchesUnfold(s, |s|);
  }

  function GiveUsText(): string {
    Keyword + ("Give" + "-") + "," + "us" + "," + "Product" + "," + ("-" + "Forums.")
  }

  function GiveUsMatch(): DirectiveMatch {
    FourPartsMatch("Give", "us", "Product", "Forums.")
  }

  lemma GiveUsMatched()
    ensures AllMatches(GiveUsText(), 0) == [GiveUsMatch()]
  {
    var p, t, e, x := "Give", "us", "Product", "Forums.";
    assert Word(p) && Word(t) && Word(e) && Word(x);
    WordPhrase(p);
    WordPhrase(t);
    WordPhrase(e);
    WordPhrase(x);
    FourPartsParse(GiveUsText(), p, t, e, x);
    SoleMatch(GiveUsText(), GiveUsMatch());
  }

  lemma GiveUsFragment()
    ensures FromMatch(GiveUsMatch()) == Ok(TextFragment("Give", "Forums.", "us", "Product"))
  {
    var p, t, e, x := "Give", "us", "Product", "Forums.";
    assert Word(p) && Word(t) && Word(e) && Word(x);
    FragmentOf(FourPartsMatch(p, t, e, x), TextFragment(p, x, t, e));
  }

  /** A match whose groups are the parts of `f`, the prefix and suffix with
      their `-`, and whose parts are words, yields `f`. */
  lemma FragmentOf(m: DirectiveMatch, f: TextFragment)
    requires m.prefix == (if f.prefix == [] then None else Some(f.prefix + "-"))
    requires m.textStart == Some(f.textStart)
    requires m.textEnd == (if f.textEnd == [] then None else Some(f.textEnd))
    requires m.suffix == (if f.suffix == [] then None else Some("-" + f.suffix))
    requires Word(f.prefix) && Word(f.textStart) && Word(f.textEnd) && Word(f.suffix)
    ensures FromMatch(m) == Ok(f)
  {
    WordPhrase(f.prefix);
    WordPhrase(f.textStart);
    WordPhrase(f.textEnd);
    WordPhrase(f.suffix);
    Uri.DecodeAppendPlain(f.prefix, '-');
    Uri.DecodePlainPrefix("-", f.suffix);
    assert (f.prefix + "-")[..|f.prefix|] == f.prefix;
    assert ("-" + f.suffix)[1..] == f.suffix;
  }

  lemma CollectOne(m: DirectiveMatch, f: TextFragment)
    requires FromMatch(m) == Ok(f)
    ensures Collect([m]) == Ok([f])
  {
    var ms := [m];
    assert ms[..|ms| - 1] == [];
    assert Collect(ms[..|ms| - 1]) == Ok([]);
    assert [] + [f] == [f];
  }

  lemma GiveUsHash()
    ensures TextFragmentsOf("#HTML1" + Marker + GiveUsText())
      == Ok([TextFragment("Give", "Forums.", "us", "Product")])
  {
    MarkedPieces("#HTML1", GiveUsText());
    GiveUsMatched();
    GiveUsFragment();
    CollectOne(GiveUsMatch(), TextFragment("Give", "Forums.", "us", "Product"));
  }

  /** src/scraper.test.ts:32-39: prefix `Give`, textStart `us`, textEnd
      `Product`, suffix `Forums.`. */
  lemma GiveUsProductForums()
    ensures TextFragmentsOf("#HTML1:~:text=Give-,us,Product,-Forums.")
      == Ok([TextFragment("Give", "Forums.", "us", "Product")])
  {
    assert "#HTML1:~:text=Give-,us,Product,-Forums." == "#HTML1" + Marker + GiveUsText();
    GiveUsHash();
  }

  // ---------------------------------------------------------------------
  // src/scraper.test.ts:23-31: two directives, the second with a suffix.

  /** A run of text with no `-` up to a character outside C that is not
      `-` either leaves the prefix group empty. */
  lemma NoPrefixDash(s: string, a: nat, r: nat)
    requires a <= r < |s| && AllContent(s[a..r]) && !IsTextContent(s[r]) && s[r] != '-'
    requires forall k :: 0 <= k < r - a ==> s[a..r][k] != '-'
    ensures forall j :: a <= j < |s| && AllContent(s[a..j]) ==> s[j] != '-'
  {
    RunUnique(s, a, r);
    forall j | a <= j < |s| && AllContent(s[a..j]) ensures s[j] != '-' {
      RunBound(s, a, j);
      assert j < r ==> s[j] == s[a..r][j - a];
    }
  }

  function UrlFragmentsEscaped(): string {
    "Text" + "%20" + "URL" + "%20" + "Fragments"
  }

  function UrlFragmentsText(): string {
    "" + "text=" + "" + "" + UrlFragmentsEscaped() + "" + "" + "" + ""
  }

  function ParameterText(): string {
    "&" + "text=" + "" + "" + "text" + "," + "" + "" + "-parameter"
  }

  function TwoDirectives(): string {
    UrlFragmentsText() + ParameterText()
  }

  function UrlFragmentsMatch(): DirectiveMatch {
    DirectiveMatch(0, 27, false, None, false, Some(UrlFragmentsEscaped()), false, None, false, None)
  }

  function ParameterMatch(): DirectiveMatch {
    DirectiveMatch(27, 48, true, None, false, Some("text"), true, None, false, Some("-parameter"))
  }

  lemma TwoDirectivesSlices()
    ensures |TwoDirectives()| == 48
    ensures TwoDirectives()[0..27] == UrlFragmentsText()
    ensures TwoDirectives()[27..48] == ParameterText()
  {
    var s, t1, t2 := TwoDirectives(), UrlFragmentsText(), ParameterText();
    assert s[..|t1|] == t1;
    assert s[|t1|..] == t2;
  }

  lemma UrlFragmentsParse()
    ensures GreedyParse(TwoDirectives(), UrlFragmentsMatch())
  {
    var s, m := TwoDirectives(), UrlFragmentsMatch();
    TwoDirectivesSlices();
    PeelNine(s, 0, "", "text=", "", "", UrlFragmentsEscaped(), "", "", "", "");
    NinePieces(s, 0, m, "", "text=", "", "", UrlFragmentsEscaped(), "", "", "", "");
    assert s[5..27] == UrlFragmentsEscaped();
    assert s[0] == 't' && s[5] == 'T' && s[27] == '&';
    NoPrefixDash(s, 5, 27);
    assert GroupShapes(m);
    assert GreedyChoices(s, m);
  }

  lemma ParameterParse()
    ensures GreedyParse(TwoDirectives(), ParameterMatch())
  {
    var s, m := TwoDirectives(), ParameterMatch();
    TwoDirectivesSlices();
    PeelNine(s, 27, "&", "text=", "", "", "text", ",", "", "", "-parameter");
    NinePieces(s, 27, m, "&", "text=", "", "", "text", ",", "", "", "-parameter");
    ParameterShapes();
    assert s[27] == '&' && s[37] == ',' && s[38] == '-';
    ParameterChoices(s);
  }

  lemma ParameterShapes()
    ensures GroupShapes(ParameterMatch())
  {
    assert "-parameter" == "-" + "parameter";
    assert AllContent("text") && AllContent("parameter");
    DashedShapes("", "parameter");
  }

  /** The choices of `ParameterMatch` hold in any text with its delimiters
      in the same places. */
  lemma ParameterChoices(s: string)
    requires |s| == 48 && s[27] == '&' && s[33..37] == "text" && s[37] == ',' && s[38] == '-'
    ensures GreedyChoices(s, ParameterMatch())
  {
    assert AllContent(s[33..37]);
    assert forall k :: 0 <= k < 4 ==> s[33..37][k] != '-';
    NoPrefixDash(s, 33, 37);
  }

  lemma ParameterMatched()
    ensures AllMatches(TwoDirectives(), 27) == [ParameterMatch()]
  {
    var s, m2 := TwoDirectives(), ParameterMatch();
    TwoDirectivesSlices();
    ParameterParse();
    GreedyParseIsMatchAt(s, m2);
    assert FirstStart(s, 27) == Some(27);
    assert FirstStart(s, 48) == None;
  }

  lemma TwoDirectivesMatched()
    ensures AllMatches(TwoDirectives(), 0) == [UrlFragmentsMatch(), ParameterMatch()]
  {
    var s, m1 := TwoDirectives(), UrlFragmentsMatch();
    TwoDirectivesSlices();
    UrlFragmentsParse();
    GreedyParseIsMatchAt(s, m1);
    assert FirstStart(s, 0) == Some(0);
    ParameterMatched();
  }

  /** `%20` decodes to a space in front of whatever follows. */
  lemma SpaceEscape(t: string)
    ensures Uri.Decode("%20" + t) == if Uri.Decode(t).Some? then Some(" " + Uri.Decode(t).value) else None
  {
    assert Uri.Utf8Encode(' ') == [32];
    assert Uri.EscapeBytes([32]) == Uri.EscapeByte(32) + Uri.EscapeBytes([]);
    assert Uri.EncodeChar(' ') == "%20";
    Uri.DecodeEncodeChar(' ', t);
  }

  /** Two words without `%`, joined by `%20`, decode to the words joined
      by a space. */
  lemma TwoWords(a: string, b: string)
    requires forall k :: 0 <= k < |a| ==> a[k] != '%'
    requires forall k :: 0 <= k < |b| ==> b[k] != '%'
    ensures Uri.Decode(a + "%20" + b) == Some(a + " " + b)
  {
    Uri.DecodePlain(b);
    SpaceEscape(b);
    Uri.DecodePlainPrefix(a, "%20" + b);
    Assoc(a, "%20", b);
    Assoc(a, " ", b);
  }

  lemma ThreeWords(a: string, b: string, c: string)
    requires forall k :: 0 <= k < |a| ==> a[k] != '%'
    requires forall k :: 0 <= k < |b| ==> b[k] != '%'
    requires forall k :: 0 <= k < |c| ==> c[k] != '%'
    ensures Uri.Decode(a + "%20" + b + "%20" + c) == Some(a + " " + b + " " + c)
  {
    var t := b + "%20" + c;
    var u := b + " " + c;
    TwoWords(b, c);
    SpaceEscape(t);
    Uri.DecodePlainPrefix(a, "%20" + t);
    assert Uri.Decode(a + ("%20" + t)) == Some(a + (" " + u));
    EscapedWords(a, b, c);
    SpacedThree(a, b, c);
  }

  lemma EscapedWords(a: string, b: string, c: string)
    ensures a + "%20" + b + "%20" + c == a + ("%20" + (b + "%20" + c))
  {
    Assoc(a + "%20" + b, "%20", c);
    Assoc(a + "%20", b, "%20" + c);
    Assoc(a, "%20", b + ("%20" + c));
    Assoc(b, "%20", c);
  }

  lemma SpacedThree(a: string, b: string, c: string)
    ensures a + " " + b + " " + c == a + (" " + (b + " " + c))
  {
    Assoc(a + " " + b, " ", c);
    Assoc(a + " ", b, " " + c);
    Assoc(a, " ", b + (" " + c));
    Assoc(b, " ", c);
  }

  /** A match holding only a textStart gives a fragment of its decoding. */
  lemma TextStartOnly(m: DirectiveMatch, d: string)
    requires m.prefix.None? && m.textEnd.None? && m.suffix.None?
    requires m.textStart.Some? && Uri.Decode(m.textStart.value) == Some(d)
    ensures FromMatch(m) == Ok(TextFragment("", "", d, ""))
  {
  }

  lemma UrlFragmentsFragment()
    ensures FromMatch(UrlFragmentsMatch()) == Ok(TextFragment("", "", "Text" + " " + "URL" + " " + "Fragments", ""))
  {
    ThreeWords("Text", "URL", "Fragments");
    TextStartOnly(UrlFragmentsMatch(), "Text" + " " + "URL" + " " + "Fragments");
  }

  lemma ParameterFragment()
    ensures FromMatch(ParameterMatch()) == Ok(TextFragment("", "parameter", "text", ""))
  {
    assert "-parameter" == "-" + "parameter";
    FragmentOf(ParameterMatch(), TextFragment("", "parameter", "text", ""));
  }

  lemma CollectTwo(m1: DirectiveMatch, m2: DirectiveMatch, f1: TextFragment, f2: TextFragment)
    requires FromMatch(m1) == Ok(f1) && FromMatch(m2) == Ok(f2)
    ensures Collect([m1, m2]) == Ok([f1, f2])
  {
    var ms := [m1, m2];
    assert ms[..|ms| - 1] == [m1];
    CollectOne(m1, f1);
    assert [f1] + [f2] == [f1, f2];
  }

  lemma TwoDirectivesHash()
    ensures TextFragmentsOf("#" + Marker + TwoDirectives())
      == Ok([TextFragment("", "", "Text" + " " + "URL" + " " + "Fragments", ""), TextFragment("", "parameter", "text", "")])
  {
    MarkedPieces("#", TwoDirectives());
    TwoDirectivesMatched();
    UrlFragmentsFragment();
    ParameterFragment();
    CollectTwo(UrlFragmentsMatch(), ParameterMatch(),
      TextFragment("", "", "Text" + " " + "URL" + " " + "Fragments", ""), TextFragment("", "parameter", "text", ""));
  }

  // Proof helpers: the hash spelled out in pieces, one literal equality
  // per lemma so that each stays small. They state nothing about the
  // library.

  lemma UrlFragmentsSpelled()
    ensures UrlFragmentsText() == "text=Text%20URL%20Fragments"
  {
  }

  lemma TwoDirectivesSpelled()
    ensures TwoDirectives() == "text=Text%20URL%20Fragments" + "&text=text,-parameter"
  {
    UrlFragmentsSpelled();
  }

  lemma HashSpelled()
    ensures "#" + Marker + ("text=Text%20URL%20Fragments" + "&text=text,-parameter")
         == "#:~:text=Text%20URL%20Fragments&text=text,-parameter"
  {
    HashMarker();
    HashFirst();
    HashSecond();
  }

  lemma HashMarker()
    ensures "#" + Marker == "#:~:"
  {
  }

  lemma HashFirst()
    ensures "#:~:" + "text=Text%20URL%20Fragments" == "#:~:text=Text%20URL%20Fragments"
  {
  }

  lemma HashSecond()
    ensures "#:~:text=Text%20URL%20Fragments" + "&text=text,-parameter"
         == "#:~:text=Text%20URL%20Fragments&text=text,-parameter"
  {
  }

  lemma SpacedWords()
    ensures "Text" + " " + "URL" + " " + "Fragments" == "Text URL Fragments"
  {
  }

  /** src/scraper.test.ts:23-31: `Text URL Fragments` alone, then `text`
      with suffix `parameter`. */
  lemma TextUrlFragmentsParameter(h: string)
    requires h == "#:~:text=Text%20URL%20Fragments&text=text,-parameter"
    ensures TextFragmentsOf(h)
      == Ok([TextFragment("", "", "Text URL Fragments", ""), TextFragment("", "parameter", "text", "")])
  {
    TwoDirectivesSpelled();
    HashSpelled();
    TwoDirectivesHash();
    SpacedWords();
  }

  // ---------------------------------------------------------------------
  // src/scraper.test.ts:15-22: one directive with a textStart and a
  // textEnd, both holding escaped spaces.

  /** A word, `%20` and a phrase decode to the word, a space and the
      phrase's decoding. */
  lemma JoinPhrase(w: string, e: string, d: string)
    requires Word(w) && Phrase(e, d)
    ensures Phrase(w + ("%20" + e), w + (" " + d))
  {
    WordPhrase(w);
    SpaceEscape(e);
    Uri.DecodePlainPrefix(w, "%20" + e);
    var j := w + ("%20" + e);
    forall k | 0 <= k < |j| ensures IsTextContent(j[k]) && j[k] != ':' {
      if k >= |w| + 3 {
        assert j[k] == e[k - |w| - 3];
      }
    }
  }

  /** The match of `text=e1,e2`: a textStart and a textEnd, nothing else. */
  lemma HashAssoc(h: string, k: string, e1: string, e2: string)
    ensures h + k + e1 + "," + e2 == h + (k + e1 + "," + e2)
  {
    Assoc(h + k + e1, ",", e2);
    Assoc(h + k, e1, "," + e2);
    Assoc(h, k, e1 + ("," + e2));
    Assoc(k, e1, "," + e2);
    Assoc(k + e1, ",", e2);
  }

  function StartEndMatch(e1: string, e2: string): DirectiveMatch {
    DirectiveMatch(0, |Keyword| + |e1| + 1 + |e2|, false, None, false, Some(e1), true, Some(e2), false, None)
  }

  lemma StartEndParse(s: string, e1: string, e2: string)
    requires s == Keyword + e1 + "," + e2
    requires e1 != [] && e2 != [] && AllContent(e1) && AllContent(e2)
    ensures GreedyParse(s, StartEndMatch(e1, e2))
  {
    var m := StartEndMatch(e1, e2);
    var r := |Keyword| + |e1|;
    PeelNine(s, 0, "", Keyword, "", "", e1, ",", e2, "", "");
    NinePieces(s, 0, m, "", Keyword, "", "", e1, ",", e2, "", "");
    assert s[0] == Keyword[0] && s[5] == e1[0] && s[r] == ',';
    assert forall k :: 0 <= k < |e1| ==> s[5..r][k] != '-';
    NoPrefixDash(s, 5, r);
    assert GreedyChoices(s, m);
  }

  lemma StartEndMatched(s: string, e1: string, e2: string)
    requires s == Keyword + e1 + "," + e2
    requires e1 != [] && e2 != [] && AllContent(e1) && AllContent(e2)
    ensures AllMatches(s, 0) == [StartEndMatch(e1, e2)]
  {
    StartEndParse(s, e1, e2);
    SoleMatch(s, StartEndMatch(e1, e2));
  }

  /** A hash `#:~:text=e1,e2` of two phrases gives the one fragment of
      their decodings. */
  lemma StartEndHash(e1: string, d1: string, e2: string, d2: string)
    requires e1 != [] && e2 != [] && Phrase(e1, d1) && Phrase(e2, d2) && d2 != []
    ensures TextFragmentsOf("#" + Marker + Keyword + e1 + "," + e2) == Ok([TextFragment("", "", d1, d2)])
  {
    var s := Keyword + e1 + "," + e2;
    HashAssoc("#" + Marker, Keyword, e1, e2);
    forall k | 0 <= k < |s| ensures s[k] != ':' {
      if 5 <= k < 5 + |e1| {
        assert s[k] == e1[k - 5];
      } else if 5 + |e1| < k {
        assert s[k] == e2[k - 6 - |e1|];
      }
    }
    MarkedPieces("#", s);
    StartEndMatched(s, e1, e2);
    CollectOne(StartEndMatch(e1, e2), TextFragment("", "", d1, d2));
  }

  /** Five words joined by `%20` decode to the words joined by spaces. */
  lemma FiveWords(w1: string, w2: string, w3: string, w4: string, w5: string)
    requires Word(w1) && Word(w2) && Word(w3) && Word(w4) && Word(w5)
    ensures Phrase(w1 + ("%20" + (w2 + ("%20" + (w3 + ("%20" + (w4 + ("%20" + w5))))))),
                   w1 + (" " + (w2 + (" " + (w3 + (" " + (w4 + (" " + w5))))))))
  {
    WordPhrase(w5);
    JoinPhrase(w4, w5, w5);
    FourWords(w2, w3, w4, w5);
    JoinPhrase(w1, w2 + ("%20" + (w3 + ("%20" + (w4 + ("%20" + w5))))),
                   w2 + (" " + (w3 + (" " + (w4 + (" " + w5))))));
  }

  /** Four words joined by `%20` decode to the words joined by spaces. */
  lemma FourWords(w1: string, w2: string, w3: string, w4: string)
    requires Word(w1) && Word(w2) && Word(w3) && Word(w4)
    ensures Phrase(w1 + ("%20" + (w2 + ("%20" + (w3 + ("%20" + w4))))),
                   w1 + (" " + (w2 + (" " + (w3 + (" " + w4))))))
  {
    WordPhrase(w4);
    JoinPhrase(w3, w4, w4);
    JoinPhrase(w2, w3 + ("%20" + w4), w3 + (" " + w4));
    JoinPhrase(w1, w2 + ("%20" + (w3 + ("%20" + w4))), w2 + (" " + (w3 + (" " + w4))));
  }

  lemma OlebWords(w1: string, w2: string, w3: string, w4: string, w5: string,
                  v1: string, v2: string, v3: string, v4: string)
    requires w1 == "Text" && w2 == "fragments" && w3 == "are" && w4 == "a" && w5 == "way"
    requires v1 == "(released" && v2 == "in" && v3 == "February" && v4 == "2020)."
    ensures Word(w1) && Word(w2) && Word(w3) && Word(w4) && Word(w5)
    ensures Word(v1) && Word(v2) && Word(v3) && Word(v4)
  {
  }

  /** src/scraper.test.ts:15-22: textStart `Text fragments are a way`,
      textEnd `(released in February 2020).`, no prefix and no suffix. */
  lemma TextFragmentsAreAWay(h: string)
    requires h == "#:~:text=Text%20fragments%20are%20a%20way,(released%20in%20February%202020)."
    ensures TextFragmentsOf(h) == Ok([TextFragment("", "", "Text fragments are a way", "(released in February 2020).")])
  {
    var w1, w2, w3, w4, w5 := "Text", "fragments", "are", "a", "way";
    var v1, v2, v3, v4 := "(released", "in", "February", "2020).";
    OlebWords(w1, w2, w3, w4, w5, v1, v2, v3, v4);
    FiveWords(w1, w2, w3, w4, w5);
    FourWords(v1, v2, v3, v4);
    var e1 := w1 + ("%20" + (w2 + ("%20" + (w3 + ("%20" + (w4 + ("%20" + w5)))))));
    var d1 := w1 + (" " + (w2 + (" " + (w3 + (" " + (w4 + (" " + w5)))))));
    var e2 := v1 + ("%20" + (v2 + ("%20" + (v3 + ("%20" + v4)))));
    var d2 := v1 + (" " + (v2 + (" " + (v3 + (" " + v4)))));
    OlebSpelling.StartSpelled(w1, w2, w3, w4, w5);
    OlebSpelling.EndSpelled(v1, v2, v3, v4);
    OlebSpelling.HashHead();
    OlebSpelling.HashTail();
    OlebSpelling.Decoded(d1, d2, w1, w2, w3, w4, w5, v1, v2, v3, v4);
    StartEndHash(e1, d1, e2, d2);
  }

  // ---------------------------------------------------------------------
  // The marker alone, and an escape that does not decode.

  /** A marker with nothing after it gives no fragments either: an empty
      result does not mean the marker is missing. */
  lemma MarkerAlone(h: string)
    requires h == "#:~:"
    ensures exists q :: OccursAt(h, Marker, q)
    ensures TextFragmentsOf(h) == Ok([])
  {
    assert h == "#" + Marker + "";
    MarkedPieces("#", "");
    assert OccursAt(h, Marker, 1);
  }

  function BadEscapeMatch(): DirectiveMatch {
    DirectiveMatch(0, 6, false, None, false, Some("%"), false, None, false, None)
  }

  lemma BadEscapeParse()
    ensures GreedyParse("" + "text=" + "%", BadEscapeMatch())
  {
    var s, m := "" + "text=" + "%", BadEscapeMatch();
    PeelNine(s, 0, "", "text=", "", "", "%", "", "", "", "");
    NinePieces(s, 0, m, "", "text=", "", "", "%", "", "", "", "");
    assert s[5] == '%';
    assert forall j :: 5 <= j < |s| ==> s[j] == '%';
    assert GroupShapes(m);
    assert GreedyChoices(s, m);
  }

  lemma BadEscapeMatched()
    ensures AllMatches("" + "text=" + "%", 0) == [BadEscapeMatch()]
  {
    BadEscapeParse();
    SoleMatch("" + "text=" + "%", BadEscapeMatch());
  }

  lemma BadEscapeFails()
    ensures Collect([BadEscapeMatch()]) == Err(URIError)
  {
    var ms := [BadEscapeMatch()];
    assert Uri.Decode("%") == None;
    assert ms[..|ms| - 1] == [];
  }

  /** A `%` that starts no escape makes `decodeURIComponent` throw, and the
      `URIError` leaves `extractTextFragments`. */
  lemma BadEscape(h: string)
    requires h == "#:~:text=%"
    ensures TextFragmentsOf(h) == Err(URIError)
  {
    var s := "" + "text=" + "%";
    assert h == "#" + Marker + s;
    MarkedPieces("#", s);
    BadEscapeMatched();
    BadEscapeFails();
  }

  // ---------------------------------------------------------------------
  // src/scraper.test.ts:64-66: the fragment `Give-,us,Product,-Forums`
  // located in a text holding "Give us feedback in our Product Forums",
  // here with an earlier `Give` that starts no match and with two spaces
  // on either side of the group.

  function ForumsBody(): string {
    "Give" + " it a try. " + "Give" + "  " + "us" + " feedback in our " + "Product" + "  " + "Forums"
  }

  function ForumsFragment(): TextFragment {
    TextFragment("Give", "Forums", "us", "Product")
  }

  lemma ForumsSlices()
    ensures |ForumsBody()| == 55
    ensures ForumsBody()[0..4] == "Give" && ForumsBody()[4..15] == " it a try. "
    ensures ForumsBody()[15..19] == "Give" && ForumsBody()[19..21] == "  " && ForumsBody()[21..23] == "us"
    ensures ForumsBody()[23..40] == " feedback in our " && ForumsBody()[40..47] == "Product"
    ensures ForumsBody()[47..49] == "  " && ForumsBody()[49..55] == "Forums"
  {
    PeelNine(ForumsBody(), 0, "Give", " it a try. ", "Give", "  ", "us", " feedback in our ", "Product", "  ", "Forums");
  }

  /** The pattern matches at 15, its group at 21 and its textEnd at 40. */
  lemma ForumsOccurrence()
    ensures Locator.Occurrence(ForumsFragment(), ForumsBody(), 15, 21, 40)
  {
    var f, b := ForumsFragment(), ForumsBody();
    ForumsSlices();
    assert LitAt(b, 15, f.prefix) by {
      forall k | 0 <= k < 4 ensures b[15 + k] == b[15..19][k] {}
    }
    assert Locator.Spaces(b, 19, 21) by {
      forall k | 19 <= k < 21 ensures b[k] == b[19..21][k - 19] {}
    }
    assert LitAt(b, 21, f.textStart) by {
      forall k | 0 <= k < 2 ensures b[21 + k] == b[21..23][k] {}
    }
    assert LitAt(b, 40, f.textEnd) by {
      forall k | 0 <= k < 7 ensures b[40 + k] == b[40..47][k] {}
    }
    assert Locator.Spaces(b, 47, 49) by {
      forall k | 47 <= k < 49 ensures b[k] == b[47..49][k - 47] {}
    }
    assert LitAt(b, 49, f.suffix) by {
      forall k | 0 <= k < 6 ensures b[49 + k] == b[49..55][k] {}
    }
    assert Locator.SuffixFollows(b, 47, f.suffix);
  }

  /** The `Give` at 0 is followed by ` i`, so no textStart can follow it. */
  lemma ForumsNotAtZero()
    ensures forall g, h :: !Locator.Occurrence(ForumsFragment(), ForumsBody(), 0, g, h)
  {
    var f, b := ForumsFragment(), ForumsBody();
    ForumsSlices();
    assert b[4] == ' ' && b[5] == 'i' by {
      assert b[4] == b[4..15][0] && b[5] == b[4..15][1];
    }
    assert Canonicalize(f.textStart[0]) == 'U';
    forall g | Locator.Spaces(b, 4, g) ensures !LitAt(b, g, f.textStart) {
      assert g <= 5;
      assert Canonicalize(b[g]) != 'U';
    }
  }

  /** No other `G` or `g` stands before 15. */
  lemma ForumsNoOtherG(i: int)
    requires 0 < i < 15
    ensures Canonicalize(ForumsBody()[i]) != 'G'
  {
    var b := ForumsBody();
    ForumsSlices();
    if i < 4 {
      assert b[i] == b[0..4][i];
    } else {
      assert b[i] == b[4..15][i - 4];
    }
  }

  lemma ForumsNoOtherGive()
    ensures forall i :: 0 < i < 15 ==> !LitAt(ForumsBody(), i, ForumsFragment().prefix)
  {
    forall i | 0 < i < 15 ensures !LitAt(ForumsBody(), i, ForumsFragment().prefix) {
      ForumsNoOtherG(i);
      assert Canonicalize(ForumsFragment().prefix[0]) == 'G';
    }
  }

  /** Only the `Give` at 15 starts a match. */
  lemma ForumsNoEarlierStart()
    ensures forall i, g, h :: i < 15 ==> !Locator.Occurrence(ForumsFragment(), ForumsBody(), i, g, h)
  {
    ForumsNotAtZero();
    ForumsNoOtherGive();
  }

  /** No `P` or `p` can start textEnd before 40. */
  lemma ForumsNoEarlierEnd()
    ensures forall h :: h < 40 ==> !Locator.Occurrence(ForumsFragment(), ForumsBody(), 15, 21, h)
  {
    var f, b := ForumsFragment(), ForumsBody();
    ForumsSlices();
    var gap := " feedback in our ";
    assert forall k :: 0 <= k < |gap| ==> Canonicalize(gap[k]) != 'P';
    assert Canonicalize(f.textEnd[0]) == 'P';
    forall h | h < 40 ensures !Locator.Occurrence(f, b, 15, 21, h) {
      if 23 <= h {
        assert b[h] == b[23..40][h - 23];
      }
    }
  }

  /** The greedy ` *` takes both spaces: textStart cannot start after 21. */
  lemma ForumsMostSpaces()
    ensures forall g, h :: 21 < g ==> !Locator.Occurrence(ForumsFragment(), ForumsBody(), 15, g, h)
  {
    var b := ForumsBody();
    ForumsSlices();
    assert b[21] == b[21..23][0];
  }

  lemma ForumsFirst()
    ensures Locator.FirstOccurrence(ForumsFragment(), ForumsBody(), 15, 21, 40)
  {
    ForumsOccurrence();
    ForumsNoEarlierStart();
    ForumsMostSpaces();
    ForumsNoEarlierEnd();
  }

  lemma ForumsGroupSlice()
    ensures ForumsBody()[21..47] == "us" + " feedback in our " + "Product"
  {
    var b := ForumsBody();
    ForumsSlices();
    FragmentDirectives.Join(b, 21, "us", " feedback in our ");
    FragmentDirectives.Join(b, 21, "us" + " feedback in our ", "Product");
  }

  lemma ForumsGroupWords()
    ensures "us" + " feedback in our " + "Product" == "us feedback in our Product"
  {
  }

  lemma ForumsGroup()
    ensures Trim(ForumsBody()[21..47]) == "us feedback in our Product"
  {
    var g := ForumsBody()[21..47];
    ForumsGroupSlice();
    ForumsGroupWords();
    assert g[0] == 'u' && g[|g| - 1] == 't';
    TrimUnchanged(g);
  }

  /** `extract` of the fragment returns `us feedback in our Product`: the
      match starts at the second `Give`, and the spaces after the prefix
      and before the suffix are not part of the group. */
  lemma ForumsExtract()
    ensures Locator.ExtractsTo(ForumsFragment(), ForumsBody(), Some("us feedback in our Product"))
  {
    ForumsFirst();
    ForumsGroup();
    assert Locator.GroupEnd(ForumsFragment(), 21, 40) == 47;
  }
}

/**
 * Proof helpers: the hash of src/scraper.test.ts:15-22 spelled out piece by
 * piece, apart from the rest of the model so that only sequence reasoning
 * is in scope. They state nothing about the library.
 */
module OlebSpelling {
  import opened Seqs

  lemma StartSpelled(w1: string, w2: string, w3: string, w4: string, w5: string)
    requires w1 == "Text" && w2 == "fragments" && w3 == "are" && w4 == "a" && w5 == "way"
    ensures w1 + ("%20" + (w2 + ("%20" + (w3 + ("%20" + (w4 + ("%20" + w5)))))))
         == "Text%20fragments%20are%20a%20way"
  {
    assert w4 + ("%20" + w5) == "a%20way";
    assert w3 + ("%20" + "a%20way") == "are%20a%20way";
    assert w2 + ("%20" + "are%20a%20way") == "fragments%20are%20a%20way";
    StartGlued();
  }

  lemma StartGlued()
    ensures "Text" + ("%20" + "fragments%20are%20a%20way") == "Text%20fragments%20are%20a%20way"
  {
    assert "%20" + "fragments%20are%20a%20way" == "%20fragments%20are%20a%20way";
  }

  lemma EndSpelled(v1: string, v2: string, v3: string, v4: string)
    requires v1 == "(released" && v2 == "in" && v3 == "February" && v4 == "2020)."
    ensures v1 + ("%20" + (v2 + ("%20" + (v3 + ("%20" + v4))))) == "(released%20in%20February%202020)."
  {
    assert v3 + ("%20" + v4) == "February%202020).";
    assert v2 + ("%20" + "February%202020).") == "in%20February%202020).";
  }

  lemma HashHead()
    ensures "#" + ":~:" + "text=" + "Text%20fragments%20are%20a%20way"
         == "#:~:text=Text%20fragments%20are%20a%20way"
  {
    assert "#" + ":~:" + "text=" == "#:~:text=";
  }

  lemma HashTail()
    ensures "#:~:text=Text%20fragments%20are%20a%20way" + "," + "(released%20in%20February%202020)."
         == "#:~:text=Text%20fragments%20are%20a%20way,(released%20in%20February%202020)."
  {
    assert "#:~:text=Text%20fragments%20are%20a%20way" + "," == "#:~:text=Text%20fragments%20are%20a%20way,";
    HashEnd();
  }

  lemma HashEnd()
    ensures "#:~:text=Text%20fragments%20are%20a%20way," + "(released%20in%20February%202020)."
         == "#:~:text=Text%20fragments%20are%20a%20way,(released%20in%20February%202020)."
  {
    EndHalves();
    Assoc("#:~:text=Text%20fragments%20are%20a%20way,", "(released%20in", "%20February%202020).");
    HashEndLeft();
    HashEndRight();
  }

  lemma EndHalves()
    ensures "(released%20in" + "%20February%202020)." == "(released%20in%20February%202020)."
  {
  }

  lemma HashEndLeft()
    ensures "#:~:text=Text%20fragments%20are%20a%20way," + "(released%20in"
         == "#:~:text=Text%20fragments%20are%20a%20way,(released%20in"
  {
  }

  lemma HashEndRight()
    ensures "#:~:text=Text%20fragments%20are%20a%20way,(released%20in" + "%20February%202020)."
         == "#:~:text=Text%20fragments%20are%20a%20way,(released%20in%20February%202020)."
  {
  }

  lemma Decoded(d1: string, d2: string, w1: string, w2: string, w3: string, w4: string, w5: string,
                    v1: string, v2: string, v3: string, v4: string)
    requires w1 == "Text" && w2 == "fragments" && w3 == "are" && w4 == "a" && w5 == "way"
    requires v1 == "(released" && v2 == "in" && v3 == "February" && v4 == "2020)."
    requires d1 == w1 + (" " + (w2 + (" " + (w3 + (" " + (w4 + (" " + w5)))))))
    requires d2 == v1 + (" " + (v2 + (" " + (v3 + (" " + v4)))))
    ensures d1 == "Text fragments are a way" && d2 == "(released in February 2020)."
  {
  }
}
