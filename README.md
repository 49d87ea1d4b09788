# Manual search widget: a Dafny model of its search, highlight, navigation and loading logic

The widget is a single browser script, `app.js`, that searches three technical manuals (建築編 for building works, 電気編 for electrical works, 機械編 for mechanical works). On page load it reads three JSON index files. As the user types, it filters the index by keyword and manual and lists up to fifty hits, each with a highlighted snippet. A click on a hit or on a header button opens the right PDF at the right page, with the keyword passed to the viewer.

This project models the logic of that script in Dafny and proves what each part promises:

- `text.dfy` (module `Text`): `trim` (with the exact ECMAScript white-space set), `toLowerCase` as a per-character fold, `includes`, and `substring(0, n)`.
- `escape.dfy` (module `RegExpEscape`): `escapeRegExp`, and a reading of its output as a regular expression made only of literals. Escaping followed by that reading gives back the keyword.
- `search.dfy` (module `Search`): the index item, and the hit computation of `search` (trim, filter, slice). It has the "no query" and "no results" outcomes.
- `highlight.dfy` (module `Highlight`): the 80-character snippet and the global, case-insensitive `<mark>` replace. The output is a list of pieces: a plain character or a marked run. Dropping the marks gives back the snippet, and the marking is proved to be the unique leftmost, non-overlapping one.
- `uri.dfy` (module `Uri`): `encodeURI` and `encodeURIComponent` as UTF-8 percent-encoding, and the decimal form of the page number.
- `navigator.dfy` (module `Navigator`): the file and page `openPdf` picks for a header kind or an item, the URL it builds, and a parser showing where each part sits in that URL.
- `loader.dfy` (module `Loader`): `loadIndex` over a given sequence of fetch outcomes, one per index file.
- `session.dfy` (module `App`): class `Session` with the script's two globals, `currentKeyword` and `indexData`. Its methods `LoadIndex`, `Search` and `OpenPdf` update or read them, and each is proved against the functions above.

Two behaviours of the code differ from what a reader might expect, and the model follows the code:

- Page numbers. One might expect a navigation page to be at least 1. The code only replaces a falsy page (missing, or 0) by 1, so a negative page reaches the URL. `Search.PageOf` keeps it.
- Partial index. One might expect readers to see either an empty or a fully loaded index. The code reassigns `indexData` after every file, so a search run while a later file is still being fetched sees a partial index. The model runs `LoadIndex` as one step; see "Left out".

## Model

| member | source | states |
|---|---|---|
| Text.SkipSpaces | app.js:109 | the result is the first index at or after the start whose character is not white space; everything skipped is white space |
| Text.SkipSpacesBack | app.js:109 | the result is the index just past the last character that is not white space, not below the lower bound; everything skipped is white space |
| Text.Trim | app.js:109 | no contract of its own; `trim` is the part between the two skips, characterised by Text.TrimIsInfix, Text.TrimEmptyIff and Text.TrimIdempotent |
| Text.TrimIsInfix | app.js:109 | the trimmed query is the infix between the leading and trailing white space, all of which is white space, and it neither starts nor ends with white space |
| Text.TrimEmptyIff | app.js:109 | the trimmed query is empty if and only if every character of the raw query is white space |
| Text.TrimIdempotent | app.js:109 | trimming an already trimmed query changes nothing |
| Text.FoldChar | app.js:120 | the fold changes exactly the capitals A-Z, each to a lower-case letter |
| Text.Lower | app.js:120 | lower-casing keeps the length and folds every character independently |
| Text.Contains | app.js:125 | no contract of its own; `includes` tries each start position from the left, characterised by Text.ContainsIff |
| Text.ContainsIff | app.js:125 | `includes` holds if and only if the needle occurs at some start index of the text |
| Text.Prefix | app.js:141 | `substring(0, n)` is a prefix of the text of length min(n, length) |
| RegExpEscape.EscapeRegExp | app.js:7-9 | no contract of its own; the global replace that puts a backslash before each of the 14 syntax characters, characterised by RegExpEscape.EscapeIsLiteral, RegExpEscape.EscapeLength, RegExpEscape.EscapeIdentity, RegExpEscape.EscapeInjective and RegExpEscape.EscapeAppend |
| RegExpEscape.EscapeIsLiteral | app.js:7-9 | the escaped keyword is a regular expression made only of literals and escaped syntax characters, and it denotes exactly the keyword: removing the inserted backslashes gives the input back |
| RegExpEscape.EscapeInjective | app.js:7-9 | two keywords with the same escaped pattern are equal |
| RegExpEscape.EscapeLength | app.js:7-9 | the output is as long as the input plus one backslash per regular-expression syntax character it holds |
| RegExpEscape.EscapeIdentity | app.js:7-9 | a keyword with no syntax character is left unchanged |
| RegExpEscape.EscapeAppend | app.js:7-9 | escaping works character by character: it distributes over concatenation |
| Search.TextOf | app.js:140 | the item's text when it is present, and the empty string when it is missing |
| Search.PageOf | app.js:72 | the item's page when it is present and non-zero, otherwise 1, so the result is never 0 |
| Search.Passes | app.js:123-126 | no contract of its own; the filter callback (a non-empty part must equal the item's part, and the lower-cased text must contain the keyword), characterised by Search.Filter and App.PassesIffMatch |
| Search.Filter | app.js:122-126 | every kept item passes the part and text test, every passing item is kept, and the kept items are a subsequence of the index in index order |
| Search.FilterIsLongest | app.js:122-126 | no subsequence of the index made of passing items is longer than the filter's result |
| Search.FilterUnique | app.js:122-126 | the filter's result is the only subsequence of passing items of that length, so the hits are exactly the passing items in their original order |
| Search.FilterAppend | app.js:122-126 | filtering a concatenation filters each part in turn |
| Search.SearchOutcome | app.js:109-132 | no contract of its own; trim, the empty-query return, filter, slice and the zero-hits return, characterised by Search.SearchNoQueryIff, Search.SearchNoResultsIff and Search.SearchHits |
| Search.SearchNoQueryIff | app.js:109-118 | the "no query" placeholder is shown if and only if the query is white space only |
| Search.SearchNoResultsIff | app.js:120-132 | the "no results" message is shown if and only if the query is not blank and no item of the index passes the filter |
| Search.SearchHits | app.js:120-127 | the hits are the first min(50, n) of the n passing items: between 1 and 50 of them, each passing, a subsequence of the index; with fewer than 50 hits no passing item was dropped |
| Search.DotIsLiteral | app.js:120-125 | the keyword "a.b" is matched as text and does not find "aXb" |
| Highlight.HighlightMatches | app.js:144-146 | dropping the marks from the highlighted snippet gives the snippet back |
| Highlight.PlainText | app.js:141 | the unhighlighted snippet spells the text with no marks |
| Highlight.HighlightMarksMatches | app.js:144-146 | a piece is marked exactly when the keyword occurs, up to case, where the piece starts, and every marked run equals the keyword up to case: the scan is leftmost and non-overlapping |
| Highlight.HighlightUnique | app.js:144-146 | any marking that spells the snippet and marks exactly where the keyword starts is the one the replace builds |
| Highlight.Render | app.js:146 | no contract of its own; each marked run wrapped in `<mark>` and `</mark>`, characterised by Highlight.StripMarksRender |
| Highlight.StripMarksRender | app.js:146 | deleting the `<mark>` and `</mark>` tags from the rendered snippet gives back its text |
| Highlight.Snippet | app.js:140-147 | no contract of its own; the first 80 characters, highlighted only when the keyword is non-empty, characterised by Highlight.SnippetText and Highlight.SnippetRoundTrip |
| Highlight.SnippetText | app.js:140-144 | the snippet spells the first min(80, length) characters of the item's text (missing text is empty), and with an empty keyword nothing is marked |
| Highlight.SnippetRoundTrip | app.js:140-146 | with a keyword, deleting the tags from the rendered snippet restores the truncated text, and every marked run equals the keyword up to case |
| Highlight.DotMarksNothing | app.js:144-146 | highlighting "a.b" in "aXb" marks nothing |
| App.PassesIffMatch | app.js:120-125 | an item passes the text test exactly when the query occurs in its text up to case, the same notion of match the highlighter uses |
| Uri.Utf8 | app.js:82 | a character becomes one to four bytes, one exactly when it is below U+0080 |
| Uri.Percent | app.js:82 | every byte becomes three characters, `%` and two hexadecimal digits |
| Uri.EncodeChar | app.js:80-82 | a kept character stays itself; any other becomes a percent-encoded run of 3 to 12 characters |
| Uri.EncodeURIComponent | app.js:82 | the encoded keyword uses only characters `encodeURIComponent` keeps and `%` (so never `&` or `#`), is at least as long as the keyword, and is empty exactly when the keyword is |
| Uri.EncodeURI | app.js:80 | `encodeURI` never shortens its input |
| Uri.EncodeURIIdentity | app.js:80 | `encodeURI` leaves a string of characters it keeps unchanged |
| Uri.EncodeComponentAppend | app.js:82 | `encodeURIComponent` encodes character by character |
| Uri.NatToString | app.js:80 | a natural number prints as a non-empty run of decimal digits with no leading zero |
| Uri.IntToString | app.js:80 | an integer page prints as decimal digits with an optional leading minus sign |
| Uri.IntToStringRoundTrip | app.js:80 | the printed page number reads back as the same number |
| Navigator.FileNameEncoded | app.js:80 | the three PDF file names need no encoding and contain no `#` |
| Navigator.ParseUrlPlain | app.js:80 | a URL without a search fragment splits into its file and page |
| Navigator.ParseUrlSearch | app.js:80-84 | a URL with a search fragment splits into its file, page and search value |
| Navigator.BuildUrlParses | app.js:80-84 | the URL is `file#page=N`, followed by `&search=<encoded keyword>` if and only if the keyword is non-empty, and the page reads back as the resolved number |
| Navigator.ManualOfKind | app.js:53-59 | no contract of its own; the kind-string if/else chain, characterised by Navigator.ResolveHeader |
| Navigator.ManualOfPart | app.js:65-71 | no contract of its own; the part-label if/else chain, characterised by Navigator.ResolveItem |
| Navigator.Resolve | app.js:52-73 | no contract of its own; the file and page chosen for a header kind or an item, characterised by Navigator.ResolveHeader, Navigator.ResolveItem and Navigator.HeaderAndItemAgree |
| Navigator.BuildUrl | app.js:80-84 | no contract of its own; the viewer URL, characterised by Navigator.BuildUrlParses |
| Navigator.NavigationFor | app.js:75-84 | no contract of its own; no navigation when no file was chosen, otherwise the built URL, characterised by Navigator.NavigationIff |
| Navigator.ResolveHeader | app.js:52-60 | a header kind resolves exactly when it is `kenchiku`, `denki` or `kikai`, to that manual's file at page 1 |
| Navigator.ResolveItem | app.js:61-73 | an item resolves exactly when its part is 建築編, 電気編 or 機械編, to that manual's file at the item's page, or page 1 when the page is falsy |
| Navigator.HeaderAndItemAgree | app.js:52-73 | a header button and an item of the same manual open the same file |
| Navigator.NavigationIff | app.js:75-84 | there is no navigation exactly when the target does not resolve; otherwise the URL names the resolved file and page and carries a search value exactly when the keyword is non-empty |
| Navigator.OpenKenchikuHeader | app.js:52-84 | the kenchiku header with no keyword navigates to a URL that reads back as file `kenchiku.pdf`, page `1` and no search term |
| Navigator.OpenDenkiItem | app.js:61-84 | a 電気編 item on page 42 with a non-empty keyword navigates to a URL that reads back as file `denki.pdf`, page `42` and the encoded keyword as search term |
| Navigator.UnknownPartFails | app.js:61-78 | an item whose part names no manual gives no navigation, whatever the current keyword |
| Loader.Contribution | app.js:25-37 | no contract of its own; what one file adds to the index, characterised by Loader.ContributionIff |
| Loader.Accumulate | app.js:16-38 | no contract of its own; the index after the files were fetched in order, characterised by Loader.AccumulateAppend, Loader.FailedFileSkipped, Loader.AccumulateSources and Loader.OneOfThreeMissing |
| Loader.ContributionIff | app.js:25-37 | a file adds items only when its response was ok and its body held an `items` list, and then it adds exactly that list |
| Loader.AccumulateAppend | app.js:24-38 | the index is built in file-list order: loading two lists of files one after the other concatenates their indexes |
| Loader.FailedFileSkipped | app.js:24-38 | a file that threw, answered a non-ok status or held no items leaves the index as if it were not in the list |
| Loader.AccumulateSources | app.js:24-38 | every item of the index comes from a file that loaded |
| Loader.OneOfThreeMissing | app.js:18-38 | two files that load and one that answers a non-ok status (such as 404) give the items of the two, in file-list order |
| App.RowOf | app.js:136-147 | no contract of its own; a result row keeps its item and the item's snippet, characterised by App.ResultRows |
| App.ViewOf | app.js:115-147 | no contract of its own; the placeholder, the no-results message or one row per hit, characterised by App.ResultRows |
| App.ResultRows | app.js:136-147 | each hit becomes one row, in hit order, that keeps the hit and whose snippet spells the first min(80, length) characters of its text |
| App.Session.constructor | app.js:4-12 | the session starts with an empty keyword and an empty index |
| App.Session.LoadIndex | app.js:15-38 | the old index is dropped and replaced by the concatenation, in file-list order, of what each file contributed |
| App.Session.Search | app.js:108-156 | the keyword becomes the trimmed query, including when that is empty; the view is the placeholder, the "no results" message, or one row per hit with its snippet |
| App.Session.ChooseFile | app.js:48-73 | the two if/else chains pick a file exactly when the target resolves, and then the resolved manual's file and page |
| App.Session.OpenPdf | app.js:46-84 | the navigation is the one the resolved file, page and current keyword determine, or none when no file was chosen |

## Left out

- Network I/O: `fetch`, `res.json()` and the awaits are replaced by a given outcome per index file (`Loader.FetchOutcome`). `LoadIndex` runs as one step, so the partial index a concurrent search could see while a later file is still loading is not modelled.
- An `items` field that is truthy but not an array is not modelled. `concat` would append it as one element.
- The DOM: element lookups, `innerHTML`, `createElement`, `onclick`, `appendChild`, and the `DOMContentLoaded` and `input`/`change` listeners. A result row keeps its item so that a click can open it, and the view is returned instead of written into the page.
- The result header template and the trailing `…` (app.js:149-153) are presentation only.
- The viewer frame: clearing `frame.src`, the 50 ms `setTimeout`, and the `onload` handler's `focus`/`find` (app.js:88-102). These depend on timing and on the host.
- `alert` and every `console` call. The alert path is the `NoPdf` navigation.
- Text.FoldChar: folds only A-Z. The full Unicode lower-casing of `toLowerCase`, which can change string lengths (for example İ becomes two code points), and the case canonicalisation of the regular expression's `i` flag, which maps each code unit to one code unit, are not modelled. Both are read as this one fold.
- Text.Prefix: counts Unicode code points. `substring(0, 80)` counts UTF-16 code units, so a character outside the Basic Multilingual Plane counts twice in the script.
- The regular-expression engine is not modelled. Highlighting is a literal scan, and `RegExpEscape.EscapeIsLiteral` shows that the escaped pattern is a pure literal.
- Highlight.StripMarksRender: requires that the snippet contain no `<`. The script does no HTML escaping, so a snippet that already holds `<mark>` text cannot be told apart from an inserted tag. The piece-level round trip (`Highlight.HighlightMatches`) holds for every snippet.
- Highlight.SnippetRoundTrip: requires that the first min(80, length) characters of the text, the part that reaches the snippet, contain no `<`, for the same reason.
- Percent-decoding (`decodeURIComponent`) is not modelled. The URL lemmas say the search value is `EncodeURIComponent(keyword)` rather than decoding it back. Lone surrogates, on which `encodeURIComponent` throws, cannot occur in Dafny strings.
- Uri.IntToString: pages are unbounded integers printed in plain decimal. In the script a page is a JavaScript number: `res.json()` rounds a page above 2^53, and `${page}` prints a page of 10^21 or more in exponent form (`1e+21`). So Uri.IntToStringRoundTrip, Navigator.BuildUrlParses and Navigator.NavigationIff describe the script's URL only for pages of magnitude below 2^53.
- Navigator.OpenDenkiItem: holds for any non-empty keyword rather than computing the bytes of 配線.
- Item fields of other JSON types (a numeric `text`, a string or fractional `page`) are not modelled. `page` is an unbounded integer (see the `Uri.IntToString` line), and a missing `part` reads as the empty string, which the script treats the same way in the filter and in `openPdf`.
