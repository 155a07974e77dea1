/**
 * `extractTextFragments` of src/scraper.ts and the `TextFragment`
 * constructor: the hash is split on `:~:`, the piece after the first marker
 * is tokenized by the directive grammar, every captured group is
 * percent-decoded and one fragment is built per match.
 */
module TextFragments {
  import opened Wrappers
  import opened JsString
  import opened FragmentGrammar
  import Uri

  /** The four parts a `TextFragment` holds once constructed. */
  datatype TextFragment = TextFragment(prefix: string, suffix: string, textStart: string, textEnd: string)

  /** What `extractTextFragments` can throw: the `URIError` of
      `decodeURIComponent` and the `TypeError` for a missing textStart. */
  datatype Error = URIError | StartingTextMissing

  const Marker: string := ":~:"

  /** The constructor: an absent textEnd is stored as the empty string, the
      prefix loses its last character (the `-`) and the suffix its first;
      `slice` on an empty or absent part gives the empty string. */
  function NewTextFragment(textStart: string, textEnd: Option<string>, prefix: Option<string>, suffix: Option<string>)
    : (f: TextFragment)
    ensures f.textStart == textStart
    ensures f.textEnd == (if textEnd.Some? then textEnd.value else [])
    ensures Part(prefix) != [] ==> f.prefix + [Part(prefix)[|Part(prefix)| - 1]] == Part(prefix)
    ensures Part(prefix) == [] ==> f.prefix == []
    ensures Part(suffix) != [] ==> [Part(suffix)[0]] + f.suffix == Part(suffix)
    ensures Part(suffix) == [] ==> f.suffix == []
  {
    var p, x := Part(prefix), Part(suffix);
    TextFragment(
      if p == [] then [] else p[..|p| - 1],
      if x == [] then [] else x[1..],
      textStart,
      Part(textEnd))
  }

  /** `decodeURIComponent` applied to a group that may be `undefined`:
      only `URIError` is thrown, a group without `%` comes back as it is,
      and a decoded group is never longer than the group. */
  function DecodeGroup(g: Option<string>): (r: Result<Option<string>, Error>)
    ensures r.Err? ==> r.error == URIError && g.Some?
    ensures g.Some? && Uri.NoPercent(g.value) ==> r == Ok(g)
    ensures r.Ok? ==> (r.value.Some? <==> g.Some?)
    ensures r.Ok? && g.Some? ==> |r.value.value| <= |g.value|
  {
    match g
    case None => Ok(None)
    case Some(t) =>
      Uri.DecodePlainIfPlain(t);
      match Uri.Decode(t)
      case None => Err(URIError)
      case Some(d) => Uri.DecodeShrinks(t); Ok(Some(d))
  }

  /** The body of the loop in `extractTextFragments` for one match: decode
      the four groups in order, refuse a missing textStart, construct. */
  function FromMatch(m: DirectiveMatch): Result<TextFragment, Error> {
    var prefix :- DecodeGroup(m.prefix);
    var textStart :- DecodeGroup(m.textStart);
    var textEnd :- DecodeGroup(m.textEnd);
    var suffix :- DecodeGroup(m.suffix);
    if textStart.None? then Err(StartingTextMissing)
    else Ok(NewTextFragment(textStart.value, textEnd, prefix, suffix))
  }

  /** The fragments built from `ms` in order, or the first error. */
  function Collect(ms: seq<DirectiveMatch>): Result<seq<TextFragment>, Error> {
    if ms == [] then Ok([])
    else
      var init :- Collect(ms[..|ms| - 1]);
      var f :- FromMatch(ms[|ms| - 1]);
      Ok(init + [f])
  }

  /** What `extractTextFragments` returns or throws for a hash. */
  function TextFragmentsOf(hash: string): Result<seq<TextFragment>, Error> {
    var pieces := SplitAtMost2(hash, Marker);
    if |pieces| != 2 then Ok([])
    else Collect(AllMatches(pieces[1], 0))
  }

  /** `extractTextFragments`: a loop over the matches that pushes one
      fragment per match and stops at the first decoding error. */
  method ExtractTextFragments(hash: string) returns (r: Result<seq<TextFragment>, Error>)
    ensures r == TextFragmentsOf(hash)
  {
    var pieces := SplitAtMost2(hash, Marker);
    if |pieces| != 2 {
      return Ok([]);
    }
    var ms := AllMatches(pieces[1], 0);
    var fragments: seq<TextFragment> := [];
    for i := 0 to |ms|
      invariant Collect(ms[..i]) == Ok(fragments)
    {
      assert ms[..i + 1][..i] == ms[..i];
      var f := FromMatch(ms[i]);
      if f.Err? {
        CollectKeepsFirstError(ms, i + 1);
        return Err(f.error);
      }
      fragments := fragments + [f.value];
    }
    assert ms[..|ms|] == ms;
    return Ok(fragments);
  }

  /** An error met in the first `n` matches is the error of the whole list. */
  lemma {:induction false} CollectKeepsFirstError(ms: seq<DirectiveMatch>, n: nat)
    requires n <= |ms| && Collect(ms[..n]).Err?
    ensures Collect(ms) == Collect(ms[..n])
    decreases |ms| - n
  {
    if n < |ms| {
      assert ms[..n + 1][..n] == ms[..n];
      CollectKeepsFirstError(ms, n + 1);
    } else {
      assert ms[..n] == ms;
    }
  }

  /** `Collect` succeeds exactly when every match yields a fragment, and
      then gives one fragment per match, in the same order. */
  lemma {:induction false} CollectPointwise(ms: seq<DirectiveMatch>)
    ensures Collect(ms).Ok? <==> forall j :: 0 <= j < |ms| ==> FromMatch(ms[j]).Ok?
    ensures Collect(ms).Ok? ==>
      |Collect(ms).value| == |ms|
      && forall j :: 0 <= j < |ms| ==> Collect(ms).value[j] == FromMatch(ms[j]).value
  {
    if ms != [] {
      var init := ms[..|ms| - 1];
      var last := FromMatch(ms[|ms| - 1]);
      CollectPointwise(init);
      assert forall k :: 0 <= k < |init| ==> init[k] == ms[k];
      if Collect(init).Ok? && last.Ok? {
        var fs := Collect(init).value + [last.value];
        assert Collect(ms) == Ok(fs);
        assert forall j :: 0 <= j < |ms| - 1 ==> fs[j] == FromMatch(ms[j]).value;
      }
    }
  }

  /** When `Collect` fails, it fails with the error of one of the matches. */
  lemma {:induction false} CollectError(ms: seq<DirectiveMatch>)
    requires Collect(ms).Err?
    ensures exists j :: 0 <= j < |ms| && FromMatch(ms[j]).Err? && FromMatch(ms[j]).error == Collect(ms).error
  {
    var init := ms[..|ms| - 1];
    if Collect(init).Err? {
      CollectError(init);
      var j :| 0 <= j < |init| && FromMatch(init[j]).Err? && FromMatch(init[j]).error == Collect(init).error;
      assert init[j] == ms[j];
    } else {
      assert FromMatch(ms[|ms| - 1]).error == Collect(ms).error;
    }
  }

  /** The prefix group without its `-`. */
  function PrefixStem(g: string): string {
    if g == [] then [] else g[..|g| - 1]
  }

  /** The suffix group without its `-`. */
  function SuffixStem(g: string): string {
    if g == [] then [] else g[1..]
  }

  /** Decoding a group ending in `-` decodes what comes before it. */
  lemma DecodePrefixGroup(g: string)
    requires |g| >= 1 && g[|g| - 1] == '-'
    ensures Uri.Decode(g).Some? <==> Uri.Decode(PrefixStem(g)).Some?
    ensures Uri.Decode(g).Some? ==> Uri.Decode(g).value == Uri.Decode(PrefixStem(g)).value + ['-']
  {
    var t := g[..|g| - 1];
    assert t + ['-'] == g;
    Uri.DecodeAppendPlain(t, '-');
  }

  /** Decoding a group starting with `-` decodes what comes after it. */
  lemma DecodeSuffixGroup(g: string)
    requires |g| >= 1 && g[0] == '-'
    ensures Uri.Decode(g).Some? <==> Uri.Decode(SuffixStem(g)).Some?
    ensures Uri.Decode(g).Some? ==> Uri.Decode(g).value == ['-'] + Uri.Decode(SuffixStem(g)).value
  {
  }

  /** One match, one fragment: it is built exactly when every present group
      decodes, the missing-textStart error never arises, and each field is
      the percent-decoding of its group, the prefix and suffix without
      their `-` (an absent group gives the empty string). */
  lemma FromMatchFields(s: string, p: nat)
    requires DirectiveStartsAt(s, p)
    ensures var m := MatchAt(s, p); var r := FromMatch(m);
      && r != Err(StartingTextMissing)
      && (r.Ok? <==>
            && Uri.Decode(m.textStart.value).Some?
            && (m.prefix.Some? ==> Uri.Decode(PrefixStem(m.prefix.value)).Some?)
            && (m.textEnd.Some? ==> Uri.Decode(m.textEnd.value).Some?)
            && (m.suffix.Some? ==> Uri.Decode(SuffixStem(m.suffix.value)).Some?))
      && (r.Ok? ==>
            && r.value.textStart == Uri.Decode(m.textStart.value).value
            && r.value.prefix == (if m.prefix.Some? then Uri.Decode(PrefixStem(m.prefix.value)).value else [])
            && r.value.textEnd == (if m.textEnd.Some? then Uri.Decode(m.textEnd.value).value else [])
            && r.value.suffix == (if m.suffix.Some? then Uri.Decode(SuffixStem(m.suffix.value)).value else []))
  {
    var m := MatchAt(s, p);
    GroupAlphabet(s, p);
    if m.prefix.Some? {
      DecodePrefixGroup(m.prefix.value);
    }
    if m.suffix.Some? {
      DecodeSuffixGroup(m.suffix.value);
    }
  }

  /** The `TypeError` for a missing textStart is never thrown: group 2 of
      the grammar always participates in a match. */
  lemma StartingTextNeverMissing(hash: string)
    ensures TextFragmentsOf(hash) != Err(StartingTextMissing)
  {
    var pieces := SplitAtMost2(hash, Marker);
    if |pieces| == 2 {
      CollectOfMatches(pieces[1], TextFragmentsOf(hash));
    }
  }

  /** A hash without `:~:` has no fragments. */
  lemma NoMarkerNoFragments(hash: string)
    requires forall q :: !OccursAt(hash, Marker, q)
    ensures TextFragmentsOf(hash) == Ok([])
  {
    assert |SplitAtMost2(hash, Marker)| == 1;
  }

  /** Every occurrence of the marker begins with `:`. */
  lemma MarkerStartsWithColon(s: string)
    ensures forall q :: OccursAt(s, Marker, q) ==> s[q] == ':'
  {
    forall q | OccursAt(s, Marker, q) ensures s[q] == ':' {
      assert s[q] == s[q..q + |Marker|][0];
    }
  }

  /** When neither the text before a marker nor the text after it holds a
      `:`, splitting gives exactly those two texts. */
  lemma MarkedPieces(head: string, body: string)
    requires forall k :: 0 <= k < |head| ==> head[k] != ':'
    requires forall k :: 0 <= k < |body| ==> body[k] != ':'
    ensures SplitAtMost2(head + Marker + body, Marker) == [head, body]
  {
    var hash := head + Marker + body;
    var n := |head|;
    assert hash[n..n + |Marker|] == Marker;
    var pieces := SplitAtMost2(hash, Marker);
    MarkerStartsWithColon(hash);
    assert forall k :: 0 <= k < n ==> hash[k] == head[k];
    assert forall k :: n + 3 <= k < |hash| ==> hash[k] == body[k - n - 3];
    assert OccursAt(hash, Marker, n);
    assert |pieces| == 2;
    var p0 := |pieces[0]|;
    assert p0 == n;
    assert hash[..n] == head;
    var end := n + 3 + |pieces[1]|;
    assert hash[n + 3..end] == body;
  }

  /** What a failing or succeeding `Collect` over matches of a text says
      about each match. */
  lemma CollectOfMatches(s: string, r: Result<seq<TextFragment>, Error>)
    requires r == Collect(AllMatches(s, 0))
    ensures var ms := AllMatches(s, 0);
      && (r.Ok? <==> forall j :: 0 <= j < |ms| ==> FromMatch(ms[j]).Ok?)
      && (r.Ok? ==> |r.value| == |ms| && forall j :: 0 <= j < |ms| ==> FromMatch(ms[j]) == Ok(r.value[j]))
      && (r.Err? ==> r.error == URIError)
  {
    var ms := AllMatches(s, 0);
    CollectPointwise(ms);
    if r.Err? {
      MatchesAreScans(s, 0);
      CollectError(ms);
      var j :| 0 <= j < |ms| && FromMatch(ms[j]).Err? && FromMatch(ms[j]).error == Collect(ms).error;
      FromMatchFields(s, ms[j].start);
    }
  }

  /** With a marker, the fragments are those of the matches in the text
      between the first marker and the next one (or the end), one per match
      and in text order, and any failure is a `URIError` of one of those
      matches. */
  lemma FragmentsOfHash(hash: string)
    requires exists q :: OccursAt(hash, Marker, q)
    ensures var pieces := SplitAtMost2(hash, Marker);
      |pieces| == 2
      && var ms := AllMatches(pieces[1], 0);
        var r := TextFragmentsOf(hash);
        && (r.Ok? <==> forall j :: 0 <= j < |ms| ==> FromMatch(ms[j]).Ok?)
        && (r.Ok? ==> |r.value| == |ms| && forall j :: 0 <= j < |ms| ==> FromMatch(ms[j]) == Ok(r.value[j]))
        && (r.Err? ==> r.error == URIError)
  {
    var pieces := SplitAtMost2(hash, Marker);
    CollectOfMatches(pieces[1], TextFragmentsOf(hash));
  }
}
