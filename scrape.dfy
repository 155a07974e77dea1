/**
 * The decisions `scrapeURL` of src/scraper.ts makes once the fragments are
 * known. The browser is not modelled: the text the page would show is a
 * parameter, and `fetched` says whether the source would have opened the
 * page to read it.
 */
module Scrape {
  import opened Wrappers
  import opened TextFragments
  import Locator

  /** Every fragment has a non-empty textEnd: only then is the page read. */
  predicate NeedsPage(fs: seq<TextFragment>) {
    forall j :: 0 <= j < |fs| ==> fs[j].textEnd != []
  }

  /** The answer without the page: each textStart as it was decoded. */
  function TextStarts(fs: seq<TextFragment>): (r: seq<Option<string>>)
    ensures |r| == |fs| && forall j :: 0 <= j < |fs| ==> r[j] == Some(fs[j].textStart)
  {
    if fs == [] then [] else [Some(fs[0].textStart)] + TextStarts(fs[1..])
  }

  /** `textFragments.map((f) => f.extract(pageText))`: each fragment located
      in the page text, in order. */
  method ExtractEach(fs: seq<TextFragment>, pageText: string) returns (results: seq<Option<string>>)
    ensures |results| == |fs|
    ensures forall j :: 0 <= j < |fs| ==> Locator.ExtractsTo(fs[j], pageText, results[j])
  {
    results := [];
    for j := 0 to |fs|
      invariant |results| == j
      invariant forall k :: 0 <= k < j ==> Locator.ExtractsTo(fs[k], pageText, results[k])
    {
      var found := Locator.Extract(fs[j], pageText);
      results := results + [found];
    }
  }

  /** `scrapeURL` for a URL whose hash is `hash`, on a page whose body text
      is `pageText`: the tokenizer's error is thrown on; no fragment gives no
      result; a fragment without textEnd makes every result its raw
      textStart; otherwise each fragment is located in the page text, in
      order. */
  method ScrapeURL(hash: string, pageText: string) returns (r: Result<seq<Option<string>>, Error>, fetched: bool)
    ensures TextFragmentsOf(hash).Err? ==> r == Err(TextFragmentsOf(hash).error) && !fetched
    ensures TextFragmentsOf(hash).Ok? ==>
      var fs := TextFragmentsOf(hash).value;
      && r.Ok? && (fetched <==> fs != [] && NeedsPage(fs))
      && (fs == [] ==> r.value == [])
      && (fs != [] && !NeedsPage(fs) ==> r.value == TextStarts(fs))
      && (fetched ==>
            (|r.value| == |fs| && forall j :: 0 <= j < |fs| ==> Locator.ExtractsTo(fs[j], pageText, r.value[j])))
  {
    var fragments := ExtractTextFragments(hash);
    if fragments.Err? {
      return Err(fragments.error), false;
    }
    var fs := fragments.value;
    if |fs| == 0 {
      return Ok([]), false;
    }
    if !NeedsPage(fs) {
      return Ok(TextStarts(fs)), false;
    }
    var results := ExtractEach(fs, pageText);
    return Ok(results), true;
  }
}
