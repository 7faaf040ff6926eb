# Video search: a Dafny model of `search.js`

`search.js` is the client-side search of a static video index. At load time it
reads the index and extends every video record with the normalized form of
its title and body fragments. On every keystroke, and on every change of the
scope and liveness radio buttons, it runs `doSearch`:

- trim the query;
- do nothing when the query is blank;
- split the query on white space, normalize each piece and drop empty tokens;
- keep, in store order, the videos that the liveness filter admits and that
  contain every token in the chosen field(s).

The results show each video's duration, rendered by `formatDuration`.

This project models that core as pure functions and proves what the search
promises. The modules are:

- `Seqs`: `Option`, `Map`, `Filter` and the subsequence relation, with
  lemmas about filtering: multiplicity, order, monotonicity, concatenation.
- `Text`: the JavaScript string primitives the search relies on:
  - the ECMAScript white-space class, which `trim` and `\s` share;
  - `trim`;
  - `split(/\s+/)`, with the white-space runs it cuts at, so the split can be
    shown to lose nothing;
  - `includes`, against a reference "occurs at some offset" definition.
- `Normalizer`: `normalize`, which is NFD, then the removal of the combining
  marks U+0300..U+036F, then lower-casing. The two Unicode tables (NFD and
  lower-casing) are the host's and stay abstract: they are a parameter
  `UnicodeTables` of two string functions. The mark removal is modelled
  exactly.
- `DocumentStore`: the raw record, the loaded record and the load step.
- `QueryEngine`:
  - the query's tokens;
  - the filter callback;
  - `Search`, where `None` is the early return for a blank query and
    `Some(results)` is what is displayed;
  - a reference definition `Selected` of which videos a query selects,
    proved equal to what the filter keeps;
  - the properties of a search: order preserved, liveness respected, scope
    `all` widening `title` and `body`, more words narrowing.
- `Duration`: `formatDuration`, plus a parser for the `H:MM:SS` / `M:SS`
  format it produces. Formatting, then parsing, gives back the number of
  seconds.
- `Scenario`: worked examples on a one-video store with small stand-in
  Unicode tables:
  - "Café" normalizes to "cafe";
  - "go" is found with scope `all` and with scope `body`;
  - "go" with `onlyLive` finds nothing;
  - "café" with scope `all` finds nothing, since "cafe" occurs in neither field;
  - "intro basics" is found when its two words match in different fields.

## Model

| member | source | states |
|---|---|---|
| Seqs.Map | search.js:31-32 | `map` keeps the length and puts the image of the i-th element at position i. |
| Seqs.Filter | search.js:60-73 | `filter` never lengthens, and an element is in the result exactly when it is in the input and satisfies the predicate. |
| Seqs.FilterMultiplicity | search.js:60-73 | Filtering keeps every copy of a kept element and no copy of a dropped one. |
| Seqs.FilterIsSubsequence | search.js:60-73 | Filtering never reorders: the result is a subsequence of the input. |
| Normalizer.StripMarks | search.js:9 | The result contains no combining mark of U+0300..U+036F; a string without such marks is returned unchanged; the result is never longer. |
| Normalizer.StripMarksMultiplicity | search.js:9 | Every code point outside the mark block keeps its exact number of occurrences; every mark occurs zero times. |
| Normalizer.StripMarksConcat | search.js:9 | The global replace acts piecewise: stripping a concatenation concatenates the stripped parts. |
| Normalizer.Normalize | search.js:6-11 | Under the host tables' facts about U+0130 (NFD decomposes it; lower-casing brings in a combining mark only through it), the normalized string contains no combining mark of U+0300..U+036F. |
| Normalizer.NormalizeIdempotent | search.js:6-11 | Under the same host-table facts, normalizing a normalized string changes nothing, provided NFD and lower-casing leave that string as it is. |
| Normalizer.NormalizeAll | search.js:31-32 | Mapping the normalizer over a field keeps the fragment count and normalizes each fragment in place. |
| DocumentStore.LoadDoc | search.js:29-33 | A loaded record keeps its raw fields unchanged and carries one normalized fragment per title and per body fragment, in order. |
| DocumentStore.Load | search.js:29-33 | Loading keeps the number and order of records, and every loaded record satisfies the normalization invariant. |
| Duration.ClockOf | search.js:15-18 | Minutes and seconds are below 60, and hours, minutes and seconds add back to the duration. |
| Duration.ClockUnique | search.js:16-18 | That split into hours, minutes and seconds is the only one with minutes and seconds below 60. |
| Duration.Decimal | search.js:19 | `toString` of a whole number is a non-empty string of digits without a leading zero, one digit exactly when the number is below 10. |
| Duration.DecimalRoundTrip | search.js:19 | Reading the numeral back gives the number. |
| Duration.Pad2 | search.js:19 | `padStart(2, '0')` yields digits only, exactly two of them for numbers below 100. |
| Duration.Pad2RoundTrip | search.js:19 | Reading the padded numeral back gives the number. |
| Duration.FormatDuration | search.js:14-24 | Three colon-separated fields from one hour on and two below; the first field has no leading zero; the others are exactly two digits; parsing the rendered duration gives back the number of seconds. |
| Duration.FormatDurationInjective | search.js:14-24 | Distinct durations never render alike. |
| Duration.FormatDurationExamples | search.js:20-23 | 59 renders as "0:59", 60 as "1:00", 3600 as "1:00:00" and 3661 as "1:01:01". |
| Text.Trim | search.js:51 | The result is empty exactly when the query is all white space; otherwise it neither starts nor ends with white space, and it is the query with only white space removed before and after. |
| Text.TrimOfPadded | search.js:51 | A core that neither starts nor ends with white space is recovered from any white-space padding. |
| Text.TrimAppendWord | search.js:51 | Trimming a non-blank query followed by a space and a word yields the trimmed query, its trailing white space, the space and the word. |
| Text.Split | search.js:55 | Splitting yields at least one piece, and no piece contains white space. |
| Text.SplitRoundTrip | search.js:55 | Splitting loses nothing: the runs cut at are non-empty white space, there is one fewer run than pieces, and interleaving pieces and runs rebuilds the string. |
| Text.SplitTrimmedPiecesNonEmpty | search.js:51-55 | A trimmed, non-empty query splits into non-empty pieces only. |
| Text.SplitAtRun | search.js:55 | Splitting at a white-space run between two non-space ends splits each side on its own. |
| Text.SplitWord | search.js:55 | A string without white space is its own single piece. |
| Text.Includes | search.js:67-68 | `includes` holds exactly when the token occurs at some offset of the fragment. |
| QueryEngine.QueryTokens | search.js:51-55 | A string is a token of the raw query exactly when it is non-empty and the normalization of some piece of the trimmed query. |
| QueryEngine.Tokenize | search.js:55 | Every token is non-empty. |
| QueryEngine.QueryTokensSpec | search.js:51-55 | For a non-blank query, the pieces are non-empty and free of white space, and a string is a token exactly when it is non-empty and the normalization of some piece. |
| QueryEngine.QueryTokensOfWord | search.js:51-55 | A one-word query has the word's normalization as its only token, or no token when that is empty. |
| QueryEngine.Search | search.js:49-52 | No result update happens exactly when the query is blank; otherwise the results are never more than the stored videos. |
| QueryEngine.PassesLive | search.js:62-63 | The liveness test passes exactly when the filter admits the video: `onlyLive` refuses non-live videos, `noLive` refuses live ones, any other value admits all. |
| QueryEngine.SomeIncludes | search.js:67-68 | The `some(... includes ...)` test holds exactly when some fragment of the field contains the token. |
| QueryEngine.TokenMatches | search.js:66-71 | A token matches exactly when it occurs in the title for scope `title`, in the body for `body`, and in either for `all`. |
| QueryEngine.EveryToken | search.js:66-72 | The `every` test holds exactly when every token occurs in the scope's field(s); it holds for no tokens at all. |
| QueryEngine.Keep | search.js:60-73 | The filter callback keeps a video exactly when the reference definition selects it. |
| QueryEngine.FilterDocs | search.js:60-73 | The filtered store is never longer than the store, and a video is in it exactly when it is stored and selected. |
| QueryEngine.SearchSelects | search.js:60-73 | A non-blank query returns exactly the selected videos, in store order, each as often as it is stored. |
| QueryEngine.SelectedIsFound | search.js:60-73 | Every stored video that the reference definition selects is among the results. |
| QueryEngine.SearchLiveness | search.js:62-63 | `onlyLive` returns live videos only; `noLive` returns non-live ones only; the default lets every matching video through. |
| QueryEngine.ScopeAnyFieldWidens | search.js:69-71 | The results for scope `title` and for scope `body` are each a subsequence of the results for scope `all`. |
| QueryEngine.MoreTokensNarrow | search.js:66-72 | Requiring a superset of the tokens returns a subsequence of the results. |
| QueryEngine.NoTokensKeepsLivenessOnly | search.js:52-73 | A non-blank query that leaves no token, such as one made only of combining marks, returns every video the liveness filter admits. |
| QueryEngine.TokenizeAppendWord | search.js:55 | Tokenizing a query, a white-space run and a word gives the query's tokens followed by the word's. |
| QueryEngine.QueryTokensAppendWord | search.js:51-55 | Appending a space and a word to a non-blank query appends the word's tokens to the query's tokens. |
| QueryEngine.AddingWordNarrows | search.js:49-73 | Typing one more word after a non-blank query still updates the results, and the new results are a subsequence of the old ones. |
| Scenario.NormalizeCafe | search.js:6-11 | Under the stand-in tables, "Café" normalizes to "cafe". |
| Scenario.GoVideoFields | search.js:29-33 | The loaded example video has title "intro to go" and body "learn golang basics" after normalization. |
| Scenario.SearchGoAnyField | search.js:60-73 | "go" with scope `all` finds the example video. |
| Scenario.SearchGoBody | search.js:66-70 | "go" with scope `body` finds the video, through "golang". |
| Scenario.SearchGoOnlyLive | search.js:62 | "go" with `onlyLive` finds nothing, because the video is not live. |
| Scenario.IntroBasicsTokens | search.js:51-55 | "intro basics" has the two tokens "intro" and "basics". |
| Scenario.CafeTokens | search.js:51-55 | Under the stand-in tables, "café" has the single token "cafe". |
| Scenario.SearchCafeNothing | search.js:51-73 | With scope `all`, "café" finds nothing in the example store: the search still updates, with no results, because "cafe" occurs in neither the title nor the body. |
| Scenario.SearchIntroBasics | search.js:66-71 | With scope `all`, "intro basics" finds the video although each word matches in a different field. |

## Left out

- Fetching and parsing `data/index-min.json` (search.js:28) is I/O. The model's store starts from the already parsed records.
- The three event listeners (search.js:36-42), the initial `doSearch()` call (search.js:45), and the reads of the query box and the checked radio buttons (search.js:50, 57-58) are left out. They become the parameters of `Search`.
- `display` (search.js:79-108) is not modelled: DOM building, video and thumbnail URLs, and the `fr-FR` date formatting. Only its use of `formatDuration` is.
- The NFD and `toLowerCase` tables of the host are not modelled. They are the abstract parameter `UnicodeTables`.
- Normalizer.Normalize: states mark-freeness only under `HostTables`, because the tables stay abstract. `toLowerCase` maps U+0130 to `i` followed by the combining dot U+0307, so lower-casing can bring in a mark. The model therefore assumes two facts of the host's tables: NFD decomposes U+0130, and lower-casing brings in a combining mark only through U+0130.
- Normalizer.NormalizeIdempotent: holds only under `HostTables` and its two further assumptions that NFD and lower-casing leave the normalized string as it is. The unconditional version is false of the real `normalize`. On "a\u0591\u034F\u05B0", removing the combining grapheme joiner U+034F leaves the two Hebrew marks out of canonical order, and a second NFD reorders them.
- Duration.FormatDuration: covers whole, non-negative numbers of seconds only. `Number(sec)` of a non-numeric, negative or fractional value (NaN, a minus sign, a decimal point) is not modelled. The model's integers are unbounded, so it is exact only for safe integers (below 2^53 seconds). Above that bound JavaScript numbers lose precision, and from 10^21 hours on `h.toString()` switches to exponent form ("1e+21").
- JavaScript strings are sequences of UTF-16 code units, while the model's strings are sequences of code points. Every character class involved (white space, the mark block) lies in the Basic Multilingual Plane, so trimming, splitting and the marks removal agree. `includes` agrees on well-formed strings.
- Radio values other than `title`/`body` for the scope, and other than `onlyLive`/`noLive` for the liveness filter, behave like `all` in the source. The model has exactly one constructor for each such default (`AnyField`, `AllDocs`).
- The mutable module-level `docs` array (search.js:3) is not modelled; the store is an immutable parameter. Nothing is lost by this: `init` assigns `docs` (search.js:29) before it attaches the listeners (search.js:36-42) and makes the initial `doSearch()` call (search.js:45), so no search reads the empty initial array. If the fetch fails, `init` rejects before any listener exists, and no search runs at all.
