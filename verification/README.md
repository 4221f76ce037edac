# Pagination of the GitHub repository lister, in Dafny

`travis-pyversion.py` lists a GitHub user's repositories. It fetches the first
page of `/users/<name>/repos` and reads the response's `Link` header with
`parse_last_page`. That function finds the entry marked `rel="last"`. From
that entry's URL it extracts the last page number and a URL template: the URL
with `page=<last>` replaced by `page={}`. The caller then requests pages
2..last, filling the template with `url.format(page)`.

This project models that pagination core:

- `wrappers.dfy` holds `Option` and `Result`. A Python `None` return becomes
  `Ok(None)`, and a raised exception becomes `Err(..)`.
- `py_strings.dfy` holds the string operations the parser uses: `strip()`
  (Python's `isspace` set), `split(sep)` with a one-character separator,
  `startswith` and the slice `s[1:-1]`.
- `py_int.dfy` holds `int(text)` on digit strings and `str(n)`.
- `py_format.dfy` holds `str.count`, `str.replace`, and `str.format` with one
  positional argument. A second `{}` raises IndexError, `{{` and `}}` are
  escapes, and a lone brace raises ValueError.
- `pagination.dfy` holds the parser and its specification:
  - `Pagination.ParseLastPage` is the parser as an imperative method. It keeps
    the two nested loops, the early `return` and the `break`.
  - `Pagination.LastPageOf` is a functional specification that the method is
    proved equal to, built from `ScanFrom` (the outer loop) and `ParseUrl`
    (what happens to the chosen entry).
  - Lemmas state the properties of that specification.
  - `ExtraPages`, `PageUrls` and `FollowUpUrls` model how `all_repos` and
    `repos_page` use the result.

The parser's four failures are values of `Pagination.ParseError`. Each names
the Python exception it stands for:

- `parts[1]` on an entry without `;` raises IndexError.
- `split('?')[1]` on a URL without `?` raises IndexError.
- `int()` on a page value that is not a number raises ValueError.
- A URL with no `page=` parameter leaves `last_page` unbound, which raises
  UnboundLocalError.

The entry and URL texts that `MissingParameters`, `MissingQuery` and
`PageUnbound` hold are diagnostic payloads of the model. Python's IndexError
and UnboundLocalError do not carry them.

A header without a `rel="last"` entry does not default to a last page of 1.
The loop runs out and the function returns `None`, and the caller's unpacking
`url, last_page = ...` then fails. In the model:

- `LastPageOf` is `Ok(None)` in that case.
- `FollowUpUrls` gives `Err(NotUnpackable)`.

The round trip "filling the template with the last page gives back the URL"
needs two conditions: the URL holds no braces, and `page=<last>` occurs in it
at most once. `PagePatternAtMostOnce` shows that `Count(url, page=<last>) <= 1`
means "at one offset of the URL at most". Canonical page digits are not needed
for the round trip.

Canonical digits guarantee that the template holds a placeholder
(`CanonicalPageLeavesPlaceholder`). Non-canonical digits do not rule one out:
`replace` then looks for text other than the parameter itself
(`PatternIsParamTextIffCanonical`), and that text may occur elsewhere. For
`a?page=07&per_page=7` the template is `a?page=07&per_page={}`, so the
follow-up requests change `per_page` and keep `page=07`. Either way, no
`page=<last>` is left in the template (`TemplateHoldsNoPagePattern`).

If `page=<last>` occurs twice, for example inside `per_page=100` when the last
page is 10, the template gets two `{}`. Formatting any page then raises
IndexError (see `SecondPlaceholderFails` and
`FollowUpUrlsSecondPlaceholderFails`).

## Model

| member | source | states |
|---|---|---|
| Pagination.ParseLastPage | travis-pyversion.py:42-54 | The nested-loop procedure returns exactly `LastPageOf(header)`: the same tuple, `None` or exception for every header. |
| Pagination.FirstLastEntryDecides | travis-pyversion.py:43-54 | The first entry whose second `;`-part is `rel="last"` decides the result, provided every entry before it has a `;`. The outcome is that entry's URL parsed. |
| Pagination.MissingParametersRaise | travis-pyversion.py:45-47 | An entry without `;` reached before any `rel="last"` entry raises IndexError. The model's error also holds the stripped entry as a diagnostic payload; Python's IndexError does not carry it. |
| Pagination.NoneIffNoLastEntry | travis-pyversion.py:44-54 | `None` is returned exactly when every entry (from the starting point on) has a `;` and none is `rel="last"`. |
| Pagination.ScanConcat | travis-pyversion.py:44-54 | Entries are examined in header order. A second list of entries is reached only when the first yields `None`. Otherwise the first list's result stands. |
| Pagination.LaterEntriesIgnored | travis-pyversion.py:43-54 | For headers joined with a comma, the result is the first header's unless that one yields `None`. Entries after the deciding one are never examined. |
| Pagination.TargetUrlBetweenDelimiters | travis-pyversion.py:45-48 | For a space-padded entry `<open>u<close>;...`, the entry has parameters and its URL is `u`, whatever the two delimiter characters are. |
| PyStrings.DropEndsAnyDelimiters | travis-pyversion.py:48 | `s[1:-1]` drops the first and last characters without checking that they are `<` and `>`. |
| PyStrings.DropEnds | travis-pyversion.py:48 | `s[1:-1]` is the middle of `s` between its end characters, and empty when `s` has fewer than two. |
| Pagination.QueryRequired | travis-pyversion.py:49 | Parsing the URL raises IndexError for a missing query exactly when the URL holds no `?`. |
| Pagination.PageParamRequired | travis-pyversion.py:49-53 | For a URL with a query, `last_page` is unbound exactly when no `&`-parameter starts with `page=`. |
| Pagination.FindPageParam | travis-pyversion.py:49-52 | The index found is a `page=` parameter and none before it is one; no index is found exactly when no parameter from the start point on is a `page=` parameter. |
| Pagination.FirstPageParamDecides | travis-pyversion.py:49-53 | The first `page=` parameter decides. A non-numeric value raises ValueError, and only then. Otherwise the last page is its value, and the template is the URL with `page=<value>` replaced by `page={}`. |
| Pagination.PageTextIsValue | travis-pyversion.py:51 | The page text of `page=v...` is `v`, up to the next `=` or the end of the parameter. |
| Pagination.PageTextFollowsPrefix | travis-pyversion.py:50-51 | A `page=` parameter begins with `page=` followed by its page text. |
| Pagination.CanonicalPageLeavesPlaceholder | travis-pyversion.py:51-53 | When the page value has no leading zero, `f'page={last_page}'` occurs in the URL, the function returns a tuple, and its template holds `page={}`. |
| Pagination.ParseUrl | travis-pyversion.py:49-54 | Once a `rel="last"` entry is reached, the function never returns `None`: it returns a tuple or raises. |
| Pagination.TemplateFillsPage | travis-pyversion.py:53 | For a brace-free URL with at most one `page=<last>`, `template.format(p)` is the URL with `page=<last>` turned into `page=<p>` (filled as line 25 fills it). With two or more occurrences it raises IndexError. |
| Pagination.TemplateRoundTrip | travis-pyversion.py:53 | Filling the template with the last page gives back the URL the header named, under the same two conditions. |
| Pagination.SecondPlaceholderFails | travis-pyversion.py:25 | When `page=<last>` occurs twice in the URL and there are pages to request, formatting the template raises IndexError. |
| Pagination.ExtraPages | travis-pyversion.py:37-38 | The pages requested after the first: `last - 1` of them when `last > 1` and none otherwise; entry `i` is page `i + 2`. |
| Pagination.ExtraPagesCoverRange | travis-pyversion.py:37-38 | Every page from 2 to the last is requested exactly once, in strictly increasing order, and no other page is requested. |
| Pagination.PageUrls | travis-pyversion.py:25 | When all succeed, there is one URL per page, each the template formatted with that page's number. |
| Pagination.PageUrlsFailAtFirstError | travis-pyversion.py:38-39 | A failure carries the error of the first page whose URL cannot be formatted; every earlier page formatted. |
| Pagination.PageUrlsWalkPages | travis-pyversion.py:37-39 | For a brace-free URL with one `page=<last>` at most, every extra page's URL formats. Page `p` is the URL with `page=<p>`, and the last request is the URL the header named. |
| Pagination.NoLastEntryCannotUnpack | travis-pyversion.py:36 | The caller's unpacking fails exactly when the header has no `rel="last"` entry and every entry has a `;`. |
| Pagination.ScanSkipsPassedOver | travis-pyversion.py:44-47 | Entries that have a `;` and are not `rel="last"` are passed over without effect. |
| PyStrings.StripRemovesOuterSpace | travis-pyversion.py:45 | `strip()` leaves a substring with only whitespace on either side, and its own end characters are not whitespace. |
| PyStrings.StripPadded | travis-pyversion.py:45 | Stripping whitespace-padded text whose ends are not whitespace gives back exactly that text. |
| PyStrings.SplitJoin | travis-pyversion.py:43 | The pieces of `split(sep)` hold no separator and join back to the string. There is more than one piece exactly when the separator occurs. |
| PyStrings.SplitConcat | travis-pyversion.py:43 | Splitting `a + sep + b` gives the pieces of `a` followed by the pieces of `b`. |
| PyStrings.SplitAfterFirst | travis-pyversion.py:51 | A separator-free prefix followed by the separator is the first piece, and the rest is split on its own. |
| PyStrings.SplitFirstPiece | travis-pyversion.py:51 | The first piece runs up to the first separator or the end. |
| PyStrings.PieceAt | travis-pyversion.py:49 | Each piece of a split stands, unchanged, at some offset of the string that was split. |
| PyInt.DecimalString | travis-pyversion.py:53 | `str(n)` has no leading zero and reads back as `n`. |
| PyInt.CanonicalRoundTrip | travis-pyversion.py:51-53 | `str(int(s)) == s` holds exactly for digit strings without a leading zero. |
| PyFormat.ReplaceAllLength | travis-pyversion.py:53 | `replace` changes the length by the difference in lengths once for each counted occurrence. |
| PyFormat.ReplaceAll | travis-pyversion.py:53 | With no occurrence of the pattern, `replace` returns the string unchanged. `ReplaceAllSkipsPrefix` and `ReplaceAllAtPattern` give the rest of its description. |
| PyFormat.ReplaceBySelf | travis-pyversion.py:53 | Replacing the pattern by itself leaves the string unchanged. |
| PyFormat.OccurrenceCounted | travis-pyversion.py:53 | An occurrence of the pattern anywhere in the string means `count` is at least one. |
| PyFormat.FormatLiteralPrefix | travis-pyversion.py:25 | Text without braces passes through `format` unchanged. |
| PyFormat.FormatFilledTemplate | travis-pyversion.py:25 | Formatting a brace-free string whose occurrences of a pattern became `pre{}` puts the argument in place of each `{}` when at most one is left to fill. Otherwise it raises IndexError. |
| Pagination.PatternIsParamTextIffCanonical | travis-pyversion.py:51-53 | The text `replace` searches for, `page=<int(value)>`, is the page parameter's own text exactly when the value has no leading zero. |
| Pagination.LastPageOf | travis-pyversion.py:42-54 | The whole function on a header: a tuple, `None` or an exception. Characterized by `NoneIffNoLastEntry`, `FirstLastEntryDecides`, `MissingParametersRaise` and `ScanConcat`, and implemented by `ParseLastPage`. |
| Pagination.ScanFrom | travis-pyversion.py:44-47 | The outer loop from a given entry on. Characterized by `ScanSkipsPassedOver`, `FirstLastEntryDecides` and `NoneIffNoLastEntry`. |
| Pagination.FollowUpUrls | travis-pyversion.py:36-39 | The caller's use of the parse: unpacking fails exactly when the parse returns `None`. A parse exception is passed on, unchanged, exactly when the parse raises. A `format` failure is reported exactly when the parse gives a tuple and some extra page's URL cannot be formatted, and it is that first failing page's own error. On success there is one URL per extra page, each the template formatted with that page's number. |
| Pagination.FollowUpUrlsWalkPages | travis-pyversion.py:37-39 | When the deciding entry's URL is brace-free with `page=<last>` at most once, every extra page's URL is that URL with `page=<p>`, and the last one is the URL itself. |
| PyFormat.Format | travis-pyversion.py:25 | `url.format(page)` with one positional argument. Characterized by `FormatLiteralPrefix` and `FormatFilledTemplate`. |
| PyFormat.FormatFrom | travis-pyversion.py:25 | The left-to-right walk of `format` after some fields were filled. Characterized by `FormatFilledTemplate`. |
| PyStrings.Strip | travis-pyversion.py:45 | `strip()`. Characterized by `StripRemovesOuterSpace` and `StripPadded`. |
| PyStrings.Split | travis-pyversion.py:43 | `split(sep)` always gives at least one piece. Characterized by `SplitJoin` and `SplitConcat`. |
| PyInt.DecimalValue | travis-pyversion.py:51 | `int()` on ASCII digits. Characterized by `DecimalString` and `CanonicalRoundTrip`. |
| PyFormat.Count | travis-pyversion.py:53 | Non-overlapping occurrences counted left to right, as `replace` finds them. Characterized by `OccurrenceCounted`, `FirstOccurrence`, `CountZeroIffAbsent`, `TwoOccurrencesCounted` and `CountAtMostOnce`. |
| Pagination.FollowUpUrlsSecondPlaceholderFails | travis-pyversion.py:36-39 | When the deciding entry's brace-free URL holds `page=<last>` twice or more and the last page is at least 2, the caller's first extra request fails with IndexError. |
| PyFormat.FirstOccurrence | travis-pyversion.py:53 | A positive `count` starts at the first offset where the pattern stands, and the count goes on right after that occurrence. |
| PyFormat.CountZeroIffAbsent | travis-pyversion.py:53 | `count` is zero exactly when the pattern stands at no offset. |
| PyFormat.OccurrenceThenRest | travis-pyversion.py:53 | An occurrence is counted together with everything counted after it. |
| PyFormat.TwoOccurrencesCounted | travis-pyversion.py:53 | Two occurrences that do not overlap make `count` at least two. |
| PyFormat.CountAtMostOnce | travis-pyversion.py:53 | For a pattern whose first character does not recur in it, `count` is at most one exactly when the pattern stands at one offset at most. |
| PyFormat.ReplaceAllSkipsPrefix | travis-pyversion.py:53 | `replace` copies unchanged a stretch at which no occurrence starts. |
| PyFormat.ReplaceAllAtPattern | travis-pyversion.py:53 | An occurrence at the front becomes the replacement, and `replace` goes on after it. |
| PyFormat.ReplaceAtFirstOccurrence | travis-pyversion.py:53 | `replace` keeps everything before the first occurrence, puts the replacement in its place, and goes on with the rest. |
| PyFormat.ReplacementInserted | travis-pyversion.py:53 | When the pattern occurs, the result of `replace` holds the replacement. |
| PyFormat.ReplaceKeepsHeadFreePrefix | travis-pyversion.py:53 | When the replacement starts with the pattern's first character, a result starting with text free of that character comes from input starting with the same text. |
| PyFormat.ReplaceLeavesNoOccurrence | travis-pyversion.py:53 | A replacement that cannot start a new occurrence leaves no occurrence of the pattern in the result. |
| Pagination.PagePatternShape | travis-pyversion.py:53 | `f'page={n}'` has its `p` only in front and a digit at the offset where `page={}` has `{`. |
| Pagination.PagePatternAtMostOnce | travis-pyversion.py:53 | The round trip's condition `Count(url, page=<n>) <= 1` holds exactly when `page=<n>` stands at one offset of the URL at most. |
| Pagination.TemplateHoldsNoPagePattern | travis-pyversion.py:53 | The template holds no `page=<last>` at all: every occurrence became `page={}`. |
| PyStrings.PlainStripOf | travis-pyversion.py:45 | `strip()` leaves text whose end characters are not whitespace unchanged. |
| Pagination.Entries | travis-pyversion.py:43 | `header.split(',')`. Pinned down by `SplitJoin`, and its order by `LaterEntriesIgnored`. |
| Pagination.Parts | travis-pyversion.py:45-46 | `link.strip().split(';')`. Pinned down by `StripRemovesOuterSpace`, `SplitJoin` and `FirstPartBeforeSemicolon`. |
| Pagination.HasParams | travis-pyversion.py:47 | `parts[1]` exists. Its absence raises IndexError, as `MissingParametersRaise` states. |
| Pagination.IsLastEntry | travis-pyversion.py:47 | `parts[1].strip() == 'rel="last"'`. Its role is stated by `FirstLastEntryDecides` and `NoneIffNoLastEntry`. |
| Pagination.TargetUrl | travis-pyversion.py:48 | `parts[0].strip()[1:-1]`. Pinned down by `TargetUrlBetweenDelimiters`. |
| Pagination.QueryParams | travis-pyversion.py:49 | `url.split('?')[1].split('&')`. Pinned down by `QueryRequired` and `QueryParamAt`. |
| Pagination.IsPageParam | travis-pyversion.py:50 | `param.startswith('page=')`. Its role is stated by `PageParamRequired` and `FindPageParam`. |
| PyStrings.StartsWith | travis-pyversion.py:50 | `s.startswith(prefix)`. Used through `PageTextFollowsPrefix`. |
| Pagination.PageText | travis-pyversion.py:51 | `param.split('=')[1]`. Pinned down by `PageTextIsValue` and `PageTextFollowsPrefix`. |
| Pagination.PagePattern | travis-pyversion.py:53 | `f'page={last_page}'`. Compared with the parameter's own text by `PatternIsParamTextIffCanonical`. |

## Left out

- Network I/O in `fetch` (travis-pyversion.py:13-17) is not modelled: the GET request, the 10-second timeout, `raise_for_status` and JSON decoding. The `Link` header is a parameter.
- `process_repo` (travis-pyversion.py:20-21) and the loops that hand repositories to it (26-27, 34-35) are not modelled: they print names and take no part in pagination.
- asyncio scheduling (travis-pyversion.py:27, 39, 71-73) is not modelled. The extra pages are modelled as the ordered list of URLs requested, and the interleaving of `process_repo` tasks is out of scope.
- The command-line interface, the prompts and `PY_VERSION` (travis-pyversion.py:10, 57-70) are not modelled; `--version` and `--token` are not used by the code.
- The initial URL built from the user name (travis-pyversion.py:32) is not modelled; the parser sees only the header.
- The KeyError raised by `headers['Link']` (travis-pyversion.py:36) when the response has no `Link` header is not modelled: `FollowUpUrls` takes the header text.
- Pagination.ParseLastPage: `int()` also accepts surrounding whitespace, a sign, `_` between digits and non-ASCII decimal digits. The model accepts only non-empty runs of ASCII digits, and any other page text raises `InvalidPage` (ValueError).
- PyFormat.Format: a replacement field other than `{}` (such as `{0}`, `{name}` or `{:>3}`) is reported as `UnsupportedField` and its own rules are not modelled. A URL with no braces, which the round-trip lemmas assume, never contains one.
