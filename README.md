# Text fragment scraper, modelled in Dafny

This is a model of the core of `text-fragment-scraper`. The library reads
the text-fragment directive of a URL hash,
`#:~:text=[prefix-,]textStart[,textEnd][,-suffix]`, and finds the text
each directive points at in a page. The model has four parts:

- **The tokenizer.** This is `extractTextFragments` with its grammar
  `TEXT_FRAGMENT_REGEX` and the `TextFragment` constructor.
  - The hash is split on `:~:`.
  - The piece after the first marker is scanned for matches, left to right.
  - Every captured group is decoded with `decodeURIComponent`.
  - One fragment is built per match.

  Modules `JsString`, `Uri`, `FragmentGrammar` and `TextFragments` model it.
  `FragmentDirectives` proves the tokenizer against its inverse: the hash
  written for any list of fragments reads back as that list.
  `Examples` works through every hash of the tokenizer test.
- **The locator.** This is `TextFragment.extract`, modelled in module
  `Locator`.
  - Every part is escaped.
  - The pattern is `prefix *(textStart.*?textEnd) *suffix` with flags `gis`.
  - The result is the trimmed group of the first match.

  `Lex` and `PatternAtoms` show which atoms the escaped pattern consists of.
  `ExtractsTo` says what the first match of those atoms is: the leftmost
  start, then the most leading spaces, then the shortest gap before textEnd.
  The method `Extract` is proved to find exactly that.
- **`scrapeURL`.** This covers the decisions the function makes once the
  fragments are known, in module `Scrape`.
- **`waitTillHTMLRendered`.** This is the sampling loop that waits for a
  page's HTML to stop changing size, in module `RenderWait`.

Strings are Dafny strings: sequences of Unicode scalar values. A failing
`decodeURIComponent` (its `URIError`) is `None` in `Uri.Decode` and
`Err(URIError)` in `TextFragments`. An `undefined` group is `None`.

Some behaviours of the code are easy to miss, and the model keeps them:

- When some fragment has no textEnd, `scrapeURL` returns each
  `textStart` as it was decoded, without trimming it (src/scraper.ts:101).
- With more than one `:~:`, `split(':~:', 2)` keeps only the text between
  the first and the second marker, so directives after the second marker
  are never read (src/scraper.ts:59).
- `extractTextFragments` also returns `[]` when the hash has a marker but
  no directive (`Examples.MarkerAlone`). So a hash without a marker gives
  no fragments, but a hash with no fragments may still hold a marker
  (`TextFragments.NoMarkerNoFragments`).

## Model

| member | source | states |
|---|---|---|
| TextFragments.NewTextFragment | src/scraper.ts:21-26 | textStart is stored as given and an absent textEnd becomes the empty string. The prefix loses exactly its last character and the suffix exactly its first; an absent or empty part becomes the empty string. |
| TextFragments.DecodeGroup | src/scraper.ts:68 | `decodeURIComponent` of a group that may be `undefined`: the only error is `URIError`, and only for a present group. An absent group stays absent and a present one stays present. A group without `%` comes back unchanged (`Uri.NoPercent`), and a decoded group is never longer than the group. |
| TextFragments.ExtractTextFragments | src/scraper.ts:55-76 | The loop over the matches returns exactly what the function `TextFragmentsOf` defines: no marker gives `[]`, otherwise `Collect` of the matches after the first marker, i.e. their fragments in order or the first decoding error. |
| TextFragments.CollectKeepsFirstError | src/scraper.ts:64-75 | Once a match fails, later matches do not change the result: the first error is the one thrown. |
| TextFragments.CollectPointwise | src/scraper.ts:64-75 | `Collect`, the loop's accumulation of `FromMatch` results: collecting succeeds exactly when every match yields a fragment. It then gives one fragment per match, the j-th built from the j-th match. |
| TextFragments.CollectError | src/scraper.ts:64-75 | A failure is the error of one of the matches. |
| TextFragments.DecodePrefixGroup | src/scraper.ts:24 | Decoding a prefix group and then dropping its `-` is the same as decoding the group without its `-`. |
| TextFragments.DecodeSuffixGroup | src/scraper.ts:25 | The same holds for the suffix and its leading `-`. |
| TextFragments.FromMatchFields | src/scraper.ts:66-72 | `FromMatch`, one loop iteration: a match yields a fragment exactly when every present group decodes. Each field is the decoding of its group, with the prefix and suffix `-` removed and an absent group giving the empty string. The missing-textStart error never arises. |
| TextFragments.StartingTextNeverMissing | src/scraper.ts:69-70 | `extractTextFragments` never throws the missing-textStart `TypeError`, because group 2 always takes part in a match. |
| TextFragments.NoMarkerNoFragments | src/scraper.ts:59-60 | A hash without `:~:` gives no fragments. |
| TextFragments.MarkedPieces | src/scraper.ts:59-61 | With no `:` before or after the marker, the split gives exactly the text before it and the text after it. |
| TextFragments.CollectOfMatches | src/scraper.ts:64-75 | For the matches of a text: success exactly when every match decodes, one fragment per match in order, and every failure is a `URIError`. |
| TextFragments.FragmentsOfHash | src/scraper.ts:59-75 | For a hash with a marker, the result is built from the matches in the piece between the first marker and the next one (or the end). It has one fragment per match in text order, and any failure is a `URIError`. |
| FragmentGrammar.RunIsAllContent | src/utils.ts:4-7 | `Run` is the scanner's `[C]*` over the content class `IsTextContent` (the class `C` of the grammar). The maximal run from a position: every character in it is in the class and the next one is not. |
| FragmentGrammar.ScanLayout | src/utils.ts:6-9 | The scanner's positions for a match keep text order and stay inside the text. |
| FragmentGrammar.MatchAt | src/utils.ts:6-9 | A match starting at `p` spans at least the keyword and ends inside the text. |
| FragmentGrammar.RunBound | src/utils.ts:4-7 | No run of content characters from `i` goes past the maximal run. |
| FragmentGrammar.RunUnique | src/utils.ts:4-7 | A run of content characters that stops at a non-content character is the maximal run. |
| FragmentGrammar.MatchAtIsGreedyParse | src/utils.ts:6-9 | `MatchAt`, the scanner one match at a time (`ScanLayout` finds its positions): the scanner's match has the pieces, group shapes and greedy choices of the declarative reading of the pattern. |
| FragmentGrammar.GreedyParseIsMatchAt | src/utils.ts:6-9 | Any match with those pieces, shapes and choices is the scanner's match at its start. Scanner and grammar reading agree both ways. |
| FragmentGrammar.GroupAlphabet | src/utils.ts:4-7 | No group holds `&` or `,`. textStart is always present. The prefix group ends in its only `-` and the suffix group starts with its only `-`. |
| FragmentGrammar.FirstStart | src/utils.ts:6-9 | The search finds the leftmost position where a match can begin, or says none exists. |
| FragmentGrammar.MatchesAreScans | src/scraper.ts:65 | `AllMatches` models `matchAll`: every match it reports starts where the keyword stands and is the scanner's match there. |
| FragmentGrammar.AllMatchesUnfold | src/scraper.ts:65 | The first match is the leftmost one, the search resumes where it ends, and there are no matches exactly when no start exists. |
| FragmentGrammar.MatchesInOrder | src/scraper.ts:65 | The matches do not overlap and come in text order. |
| FragmentGrammar.MatchesLeaveNoGap | src/scraper.ts:65 | No match could start before the first match, between two matches, or after the last one. |
| FragmentDirectives.TokenizeDirectives | src/scraper.ts:55-76 | Reading the hash written for any list of fragments gives that list back. The tokenizer undoes the directive syntax and decoding undoes percent-encoding. |
| FragmentDirectives.DirectivesDecode | src/scraper.ts:64-72 | The matches of the written directives are one per fragment, and each decodes to its fragment. |
| FragmentDirectives.SpelledMatches | src/utils.ts:6-9 | A run of written directives is matched one match per directive, each capturing that directive's groups. |
| FragmentDirectives.SpellPieces | src/utils.ts:6-9 | A written directive stands in the text piece by piece: `&`, the keyword, the prefix and its `-`, the commas, textStart, textEnd, the `-` and the suffix, each at its computed position. |
| FragmentDirectives.SpellMatched | src/utils.ts:6-9 | One written directive is matched from its `&` to its end, with the encoded parts as groups and an empty textEnd group absent. |
| FragmentDirectives.CollectDecoded | src/scraper.ts:64-75 | When the j-th match decodes to the j-th fragment for every j, collecting gives exactly that list. |
| FragmentDirectives.GroupsDecode | src/scraper.ts:66-72 | The groups captured from a written directive decode to the fragment it was written for. |
| FragmentDirectives.NoColon | src/scraper.ts:59 | Written directives contain no `:`, so the marker split leaves them whole. |
| Uri.DecodePlain | src/scraper.ts:68 | Text without `%` decodes to itself. |
| Uri.DecodePlainPrefix | src/scraper.ts:68 | Text without `%` in front of anything passes through decoding unchanged. |
| Uri.DecodeShrinks | src/scraper.ts:68 | Decoding never lengthens a string. |
| Uri.DecodeAppendPlain | src/scraper.ts:68 | A character that is neither `%` nor a hex digit, added at the end, survives decoding and changes nothing before it. |
| Uri.Utf8Decode | src/scraper.ts:68 | A run of escapes that decodes gives a scalar value of at least U+0080 (a surrogate or a value above U+10FFFF is never produced). |
| Uri.Utf8DecodeExactly | src/scraper.ts:68 | A run of 2 to 4 escapes whose first octet announces its length decodes to `v` exactly when it is the UTF-8 encoding of the non-ASCII scalar value `v`, so overlong forms, surrogates, values above U+10FFFF and bad continuation octets are rejected. |
| Uri.DecodeNeedsEscapes | src/scraper.ts:68 | If `decodeURIComponent` succeeds, every `%` in the input is followed by two hex digits. A `%` without them always throws `URIError`. |
| Uri.DecodeEncode | src/scraper.ts:68 | `Uri.Decode` models `decodeURIComponent` and `Uri.PercentEncode` percent-encodes. Round trip: decoding the percent-encoding of any string gives the string back. |
| Uri.DecodeEncodeChar | src/scraper.ts:68 | One encoded character, whether plain or escaped UTF-8, decodes to that character in front of the decoding of the rest. |
| Uri.EncodedAlphabet | src/utils.ts:4 | Percent-encoding writes only letters, digits and `%`. `FragmentDirectives.EncodedIsContent` then places them all in the grammar's content class. |
| JsString.Trim | src/scraper.ts:46 | `trim` gives the slice of its input between the leading and the trailing white space, with no white space left at either end. |
| JsString.TrimUnchanged | src/scraper.ts:46 | A string without white space at its ends is its own trim. |
| JsString.IndexOf | src/scraper.ts:59 | The position found is an occurrence with none before it, and `None` means there is no occurrence. |
| JsString.SplitAtMost2 | src/scraper.ts:59-61 | There is one piece exactly when there is no separator. Otherwise the pieces are the text before the first separator and the text after it, up to the next separator or the end. |
| Locator.Literals | src/scraper.ts:34-37 | Each character of a part becomes one literal atom, in order. |
| Locator.LexEscaped | src/scraper.ts:34-37 | `EscapeRegExp` puts `\` before every character of `IsEscaped` (the replacement's character class). An escaped brace-free part then reads back as its own characters, each matched literally, whatever follows it. |
| Locator.LexEscapedAll | src/scraper.ts:34-37 | An escaped brace-free part, read on its own, is exactly one literal atom per character of the part. |
| Locator.PatternAtoms | src/scraper.ts:34-43 | For brace-free parts, the pattern consists of these atoms, in order: the literal prefix, ` *`, `(`, the literal textStart, then `.*?` and the literal textEnd when textEnd is not empty, then `)`, ` *` and the literal suffix. |
| Locator.OccurrenceBounds | src/scraper.ts:40-45 | A match sits inside the text: prefix, spaces, textStart and textEnd in that order. |
| Locator.FirstOccurrenceUnique | src/scraper.ts:45 | There is only one first match. |
| Locator.ExtractsToUnique | src/scraper.ts:45-46 | The specification of `extract` determines its result. |
| Locator.SpaceRun | src/scraper.ts:41 | The run of spaces from a position is maximal. |
| Locator.SuffixSearch | src/scraper.ts:41 | Reports exactly whether some spaces and then the suffix follow a position. |
| Locator.TailSearch | src/scraper.ts:38-41 | From a group start it finds the nearest textEnd that spaces and the suffix follow, or shows that none exists. |
| Locator.MatchFrom | src/scraper.ts:40-45 | From a match start it finds the match with the most leading spaces and then the shortest gap, or shows that none exists. |
| Locator.Extract | src/scraper.ts:33-47 | `extract` returns the trimmed group of the first match (leftmost start, most leading spaces, shortest gap), and `undefined` exactly when the pattern matches nowhere. |
| Scrape.TextStarts | src/scraper.ts:101 | One result per fragment, in order: its untrimmed textStart. |
| Scrape.ExtractEach | src/scraper.ts:119 | `textFragments.map(f => f.extract(pageText))`: one result per fragment, the j-th being what `extract` specifies for the j-th fragment on the page text. |
| Scrape.ScrapeURL | src/scraper.ts:93-119 | A tokenizer error is thrown on without reading the page. No fragment gives `[]`. The page is read exactly when there are fragments and every one has a textEnd (`NeedsPage`, the check `every(f => f.textEnd)`). A fragment with an empty textEnd makes the result every raw textStart. Otherwise the page is read and each fragment is located in its text, one result per fragment, in order. |
| RenderWait.StableIsRun | src/utils.ts:17-33 | The stability counter after a sample is at least `n` exactly when the last `n + 1` samples are equal and non-zero. |
| RenderWait.SettledIsStable | src/utils.ts:25-31 | The counter reaches 2 exactly when three samples in a row have the same non-zero size. |
| RenderWait.WaitTillHTMLRendered | src/utils.ts:11-37 | The loop takes between 1 and 30 samples and stops at the first sample that settles. It then has waited once after each earlier sample. If nothing settles, it has taken 30 samples and waited 30 times. |
| Examples.GiveUsProductForums | src/scraper.test.ts:32-39 | `#HTML1:~:text=Give-,us,Product,-Forums.` has prefix `Give`, textStart `us`, textEnd `Product` and suffix `Forums.`. |
| Examples.TextUrlFragmentsParameter | src/scraper.test.ts:23-31 | `#:~:text=Text%20URL%20Fragments&text=text,-parameter` has two fragments: `Text URL Fragments` alone, then `text` with suffix `parameter`. |
| Examples.MarkerAlone | src/scraper.ts:59-60 | A hash with a marker and nothing after it gives no fragments. |
| Examples.BadEscape | src/scraper.ts:68 | `#:~:text=%` throws the `URIError` of `decodeURIComponent`. |
| Examples.ForumsExtract | src/scraper.test.ts:64-66 | Fragment `Give-,us,Product,-Forums` in the text `Give it a try. Give  us feedback in our Product  Forums` gives `us feedback in our Product`: the first `Give` starts no match, and the spaces next to the group are not part of it. |
| Examples.TextFragmentsAreAWay | src/scraper.test.ts:15-22 | `#:~:text=Text%20fragments%20are%20a%20way,(released%20in%20February%202020).` has one fragment, with textStart `Text fragments are a way` and textEnd `(released in February 2020).`. |
| Examples.StartEndHash | src/scraper.ts:59-72 | A hash `#:~:text=e1,e2` whose two parts are non-empty, hold only content characters other than `:`, and decode (textEnd to a non-empty string) gives one fragment, with textStart and textEnd those decodings and no prefix or suffix. |

## Left out

- The browser is not modelled: `puppeteer.launch`, `newPage`, `goto`, `waitForTimeout`, `page.evaluate`, `page.content` and `browser.close`. The page's body text is a parameter of `Scrape.ScrapeURL`, and its `fetched` result says whether the page would have been opened.
- `pageWaitMs` and `waitTillRendered` only choose between waits, so they are not modelled.
- In `RenderWait`, the size of the HTML at each sample is a function `content` from the sample index. The one-second waits are counted, not performed.
- URL parsing (`new URL`, normalising `url.hash`) is not modelled. The tokenizer takes the hash string itself.
- `async` control flow is not modelled.
- JavaScript strings are UTF-16 code units, while the model's strings are Unicode scalar values. A character outside the Basic Multilingual Plane is one character in the model and two units in JavaScript. That makes a difference only for the width of `.` steps in `extract`, which does not change the text it returns.
- The `i` flag is modelled for ASCII letters only. For any other character, case-insensitive matching is plain equality.
- A general regular-expression engine is not modelled. `Locator` models the one pattern shape `extract` builds, and `FragmentGrammar` the one grammar the tokenizer uses.
- Locator.Extract: reads every part as literal text. `extract` does not escape `{` and `}`, so a part holding a brace quantifier such as `a{2}` means something else to JavaScript. `Locator.PatternAtoms` therefore requires brace-free parts, and for parts with braces the model does not follow the source.
- The scraping tests in src/scraper.test.ts:53-86 depend on live web pages. Only the `Give-,us,Product,-Forums` case is worked through, on a text that holds the expected sentence (`Examples.ForumsExtract`).
