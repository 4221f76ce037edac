/**
 * The pagination logic of the repository lister: `parse_last_page` reads an
 * HTTP `Link` header (a simplified RFC 8288, section 3, reading) and returns
 * a page-URL template with the last page number; `url.format(page)` fills
 * the template; pages 2..last are requested after the first.
 */
module Pagination {
  import opened Wrappers
  import opened PyStrings
  import opened PyInt
  import opened PyFormat

  const RelLast: string := "rel=\"last\""
  const PagePrefix: string := "page="
  const Placeholder: string := PagePrefix + "{}"

  /** `f'page={n}'`: the text `replace` looks for. */
  function PagePattern(n: nat): string {
    PagePrefix + DecimalString(n)
  }

  /** A page-URL template (one `page={}` where the last page number stood) and the last page. */
  datatype PageSet = PageSet(template: string, lastPage: nat)

  /**
   * The exceptions `parse_last_page` can raise. The entry and URL texts are
   * diagnostic payloads of the model: Python's IndexError and
   * UnboundLocalError do not carry them.
   */
  datatype ParseError =
    | MissingParameters(entry: string)  // `parts[1]` of an entry without `;`: IndexError
    | MissingQuery(url: string)         // `url.split('?')[1]` of a URL without `?`: IndexError
    | InvalidPage(text: string)         // `int(...)` of a page value that is not a number: ValueError
    | PageUnbound(url: string)          // no `page=` parameter, so `last_page` is unbound: UnboundLocalError

  /** What `parse_last_page` returns: `Ok(Some(..))` for a tuple, `Ok(None)` for `None`. */
  type Parsed = Result<Option<PageSet>, ParseError>

  /** The comma-separated entries of a header. */
  function Entries(header: string): seq<string> {
    Split(header, ',')
  }

  /** The `;`-separated parts of an entry, after the entry is trimmed. */
  function Parts(entry: string): seq<string> {
    Split(Strip(entry), ';')
  }

  predicate HasParams(entry: string) {
    |Parts(entry)| >= 2
  }

  /** The second part, trimmed, is exactly `rel="last"`. */
  predicate IsLastEntry(entry: string) {
    HasParams(entry) && Strip(Parts(entry)[1]) == RelLast
  }

  /** The first part, trimmed, with its first and last characters dropped. */
  function TargetUrl(entry: string): string {
    DropEnds(Strip(Parts(entry)[0]))
  }

  /** The `&`-separated parameters between the first and the second `?`. */
  function QueryParams(url: string): seq<string>
    requires '?' in url
  {
    SplitJoin(url, '?');
    Split(Split(url, '?')[1], '&')
  }

  predicate IsPageParam(param: string) {
    StartsWith(param, PagePrefix)
  }

  /** `param.split('=')[1]`: the text after `page=` up to the next `=`. */
  function PageText(param: string): string
    requires IsPageParam(param)
  {
    assert param[4] == PagePrefix[4];
    SplitJoin(param, '=');
    Split(param, '=')[1]
  }

  /** The index of the first parameter at or after `from` that starts with `page=`. */
  function FindPageParam(params: seq<string>, from: nat): (k: Option<nat>)
    requires from <= |params|
    ensures k.Some? ==> from <= k.value < |params| && IsPageParam(params[k.value])
    ensures k.Some? ==> forall j :: from <= j < k.value ==> !IsPageParam(params[j])
    ensures k.None? <==> forall j :: from <= j < |params| ==> !IsPageParam(params[j])
    decreases |params| - from
  {
    if from == |params| then None
    else if IsPageParam(params[from]) then Some(from)
    else FindPageParam(params, from + 1)
  }

  /** `k` is the parameter the inner loop breaks at. */
  predicate IsFirstPageParam(params: seq<string>, k: int) {
    0 <= k < |params| && IsPageParam(params[k])
    && forall j :: 0 <= j < k ==> !IsPageParam(params[j])
  }

  /** What happens once the `rel="last"` entry is found and its URL extracted. */
  function ParseUrl(url: string): (r: Parsed)
    ensures r != Ok(None)
  {
    var query := Split(url, '?');
    if |query| < 2 then Err(MissingQuery(url))
    else
      SplitJoin(url, '?');
      var params := QueryParams(url);
      match FindPageParam(params, 0)
      case None => Err(PageUnbound(url))
      case Some(k) =>
        var text := PageText(params[k]);
        if !IsDecimal(text) then Err(InvalidPage(text))
        else
          var n := DecimalValue(text);
          Ok(Some(PageSet(ReplaceAll(url, PagePattern(n), Placeholder), n)))
  }

  /** The outer loop from entry `i` on: the first entry it stops at decides. */
  function ScanFrom(links: seq<string>, i: nat): Parsed
    requires i <= |links|
    decreases |links| - i
  {
    if i == |links| then Ok(None)
    else if !HasParams(links[i]) then Err(MissingParameters(Strip(links[i])))
    else if IsLastEntry(links[i]) then ParseUrl(TargetUrl(links[i]))
    else ScanFrom(links, i + 1)
  }

  /** The result `parse_last_page(header)` specifies. */
  function LastPageOf(header: string): Parsed {
    ScanFrom(Entries(header), 0)
  }

  /** `parse_last_page`: two nested loops, an early return and a `break`. */
  method ParseLastPage(header: string) returns (r: Parsed)
    ensures r == LastPageOf(header)
  {
    var links := Split(header, ',');
    var i := 0;
    while i < |links|
      invariant 0 <= i <= |links|
      invariant PassedOver(links, i)
    {
      var link := Strip(links[i]);
      var parts := Split(link, ';');
      if |parts| < 2 {
        ScanSkipsPassedOver(links, 0, i);
        return Err(MissingParameters(link));
      }
      if Strip(parts[1]) == RelLast {
        var url := DropEnds(Strip(parts[0]));
        var query := Split(url, '?');
        if |query| < 2 {
          FirstLastEntryDecides(links, i);
          return Err(MissingQuery(url));
        }
        var params := Split(query[1], '&');
        var lastPage: Option<nat> := None;
        var j := 0;
        while j < |params|
          invariant 0 <= j <= |params|
          invariant lastPage.None?
          invariant FindPageParam(params, j) == FindPageParam(params, 0)
        {
          if IsPageParam(params[j]) {
            var text := PageText(params[j]);
            if !IsDecimal(text) {
              FirstLastEntryDecides(links, i);
              return Err(InvalidPage(text));
            }
            lastPage := Some(DecimalValue(text));
            break;
          }
          j := j + 1;
        }
        FirstLastEntryDecides(links, i);
        if lastPage.None? {
          return Err(PageUnbound(url));
        }
        var n := lastPage.value;
        url := ReplaceAll(url, PagePattern(n), Placeholder);
        return Ok(Some(PageSet(url, n)));
      }
      i := i + 1;
    }
    ScanSkipsPassedOver(links, 0, i);
    return Ok(None);
  }

  /** Every entry before `i` has parameters and is not marked `rel="last"`. */
  predicate PassedOver(links: seq<string>, i: int) {
    0 <= i <= |links| && forall j :: 0 <= j < i ==> HasParams(links[j]) && !IsLastEntry(links[j])
  }

  /** The outer loop passes over entries that have parameters and are not `rel="last"`. */
  lemma {:induction false} ScanSkipsPassedOver(links: seq<string>, from: nat, i: nat)
    requires from <= i <= |links|
    requires forall j :: from <= j < i ==> HasParams(links[j]) && !IsLastEntry(links[j])
    ensures ScanFrom(links, from) == ScanFrom(links, i)
    decreases i - from
  {
    if from < i {
      ScanSkipsPassedOver(links, from + 1, i);
    }
  }

  /** The first entry marked `rel="last"`, after entries that all have parameters, decides the outcome. */
  lemma FirstLastEntryDecides(links: seq<string>, i: nat)
    requires PassedOver(links, i) && i < |links| && IsLastEntry(links[i])
    ensures ScanFrom(links, 0) == ParseUrl(TargetUrl(links[i]))
  {
    ScanSkipsPassedOver(links, 0, i);
  }

  /** The first entry without a `;`, before any `rel="last"` entry, raises IndexError. */
  lemma MissingParametersRaise(links: seq<string>, i: nat)
    requires PassedOver(links, i) && i < |links| && !HasParams(links[i])
    ensures ScanFrom(links, 0) == Err(MissingParameters(Strip(links[i])))
  {
    ScanSkipsPassedOver(links, 0, i);
  }

  /** `None` comes back exactly when every entry from `from` on has parameters and none is `rel="last"`. */
  lemma {:induction false} NoneIffNoLastEntry(links: seq<string>, from: nat)
    requires from <= |links|
    ensures ScanFrom(links, from) == Ok(None) <==>
      forall j :: from <= j < |links| ==> HasParams(links[j]) && !IsLastEntry(links[j])
    decreases |links| - from
  {
    if from < |links| {
      NoneIffNoLastEntry(links, from + 1);
    }
  }

  lemma {:induction false} ScanShift(xs: seq<string>, ys: seq<string>, k: nat)
    requires k <= |ys|
    ensures ScanFrom(xs + ys, |xs| + k) == ScanFrom(ys, k)
    decreases |ys| - k
  {
    if k < |ys| {
      assert (xs + ys)[|xs| + k] == ys[k];
      ScanShift(xs, ys, k + 1);
    }
  }

  /** Entries are examined in order: the second list is reached only when the first yields `None`. */
  lemma {:induction false} ScanConcat(xs: seq<string>, ys: seq<string>, from: nat)
    requires from <= |xs|
    ensures ScanFrom(xs + ys, from) ==
      if ScanFrom(xs, from) == Ok(None) then ScanFrom(ys, 0) else ScanFrom(xs, from)
    decreases |xs| - from
  {
    if from == |xs| {
      ScanShift(xs, ys, 0);
    } else {
      assert (xs + ys)[from] == xs[from];
      ScanConcat(xs, ys, from + 1);
    }
  }

  /** Entries after the one that decides are never examined, whatever they hold. */
  lemma LaterEntriesIgnored(h1: string, h2: string)
    ensures LastPageOf(h1 + [','] + h2) ==
      if LastPageOf(h1) == Ok(None) then LastPageOf(h2) else LastPageOf(h1)
  {
    SplitConcat(h1, ',', h2);
    ScanConcat(Entries(h1), Entries(h2), 0);
  }

  /** The URL is what stands between the entry's first and last characters, whichever they are. */
  lemma TargetUrlBetweenDelimiters(lead: string, open: char, u: string, close: char, rest: string, trail: string)
    requires AllSpace(lead) && AllSpace(trail)
    requires !IsSpace(open) && !IsSpace(close) && ';' !in [open] + u + [close]
    requires |rest| >= 1 && rest[0] == ';' && !IsSpace(rest[|rest| - 1])
    ensures HasParams(lead + [open] + u + [close] + rest + trail)
    ensures TargetUrl(lead + [open] + u + [close] + rest + trail) == u
  {
    var w := [open] + u + [close];
    var entry := lead + [open] + u + [close] + rest + trail;
    assert entry == lead + (w + rest) + trail;
    StripPadded(lead, w + rest, trail);
    FirstPartBeforeSemicolon(w, rest);
    PlainStripOf(w);
    DropEndsAnyDelimiters(open, u, close);
  }

  lemma FirstPartBeforeSemicolon(w: string, rest: string)
    requires ';' !in w && |rest| >= 1 && rest[0] == ';'
    ensures |Split(w + rest, ';')| >= 2 && Split(w + rest, ';')[0] == w
  {
    SplitFirstPiece(w, ';', rest);
    SplitJoin(w + rest, ';');
    assert (w + rest)[|w|] == ';';
  }

  /** A URL without `?` raises IndexError, and only such a URL does. */
  lemma QueryRequired(url: string)
    ensures ParseUrl(url) == Err(MissingQuery(url)) <==> '?' !in url
  {
    SplitJoin(url, '?');
  }

  /** With a query, `last_page` stays unbound exactly when no parameter starts with `page=`. */
  lemma PageParamRequired(url: string)
    requires '?' in url
    ensures ParseUrl(url) == Err(PageUnbound(url)) <==>
      forall j :: 0 <= j < |QueryParams(url)| ==> !IsPageParam(QueryParams(url)[j])
  {
    SplitJoin(url, '?');
    var params := QueryParams(url);
    assert FindPageParam(params, 0).None? <==> forall j :: 0 <= j < |params| ==> !IsPageParam(params[j]);
  }

  /** The first `page=` parameter, and no later one, decides the page number or the ValueError. */
  lemma FirstPageParamDecides(url: string, k: nat)
    requires '?' in url && IsFirstPageParam(QueryParams(url), k)
    ensures var text := PageText(QueryParams(url)[k]);
      && (ParseUrl(url) == Err(InvalidPage(text)) <==> !IsDecimal(text))
      && (IsDecimal(text) ==>
            ParseUrl(url) == Ok(Some(PageSet(ReplaceAll(url, PagePattern(DecimalValue(text)), Placeholder), DecimalValue(text)))))
  {
    SplitJoin(url, '?');
    assert FindPageParam(QueryParams(url), 0) == Some(k);
  }

  /** The page text is what follows `page=`, up to the next `=` or the end of the parameter. */
  lemma PageTextIsValue(v: string, rest: string)
    requires '=' !in v && (rest == [] || rest[0] == '=')
    ensures IsPageParam(PagePrefix + v + rest)
    ensures PageText(PagePrefix + v + rest) == v
  {
    var param := PagePrefix + v + rest;
    assert param == "page" + ['='] + (v + rest);
    assert param[..|PagePrefix|] == PagePrefix;
    SplitAfterFirst("page", '=', v + rest);
    SplitFirstPiece(v, '=', rest);
  }

  /** A `page=` parameter begins with `page=` followed by its page text. */
  lemma PageTextFollowsPrefix(param: string)
    requires IsPageParam(param)
    ensures |PagePrefix| + |PageText(param)| <= |param|
    ensures param[..|PagePrefix| + |PageText(param)|] == PagePrefix + PageText(param)
  {
    var text := PageText(param);
    var tail := param[|PagePrefix|..];
    assert param == "page" + ['='] + tail;
    SplitAfterFirst("page", '=', tail);
    SplitJoin(tail, '=');
    var o := JoinPieceAt(Split(tail, '='), '=', 0);
    assert tail[..|text|] == text;
  }

  /** Query parameter `k` stands at offset `o` of the URL. */
  lemma QueryParamAt(url: string, k: nat) returns (o: nat)
    requires '?' in url && k < |QueryParams(url)|
    ensures o + |QueryParams(url)[k]| <= |url|
    ensures url[o..o + |QueryParams(url)[k]|] == QueryParams(url)[k]
  {
    var query := Split(url, '?');
    var params := QueryParams(url);
    var o1 := QueryAt(url);
    var o2;
    o2 := PieceAt(query[1], '&', k);
    o := o1 + o2;
    SliceOfSlice(url, o1, o1 + |query[1]|, o2, o2 + |params[k]|);
  }

  /** The query stands at offset `o` of the URL. */
  lemma QueryAt(url: string) returns (o: nat)
    requires '?' in url
    ensures |Split(url, '?')| >= 2
    ensures o + |Split(url, '?')[1]| <= |url| && url[o..o + |Split(url, '?')[1]|] == Split(url, '?')[1]
  {
    SplitJoin(url, '?');
    o := JoinPieceAt(Split(url, '?'), '?', 1);
  }

  /**
   * A page number written as `str` writes it (no leading zero) is found again
   * by `replace`, so the template holds a placeholder (the page number is the
   * one `FirstPageParamDecides` names).
   */
  lemma CanonicalPageLeavesPlaceholder(url: string, k: nat)
    requires '?' in url && IsFirstPageParam(QueryParams(url), k)
    requires IsCanonical(PageText(QueryParams(url)[k]))
    ensures Count(url, PagePattern(DecimalValue(PageText(QueryParams(url)[k])))) >= 1
    ensures ParseUrl(url).Ok? && ParseUrl(url).value.Some?
    ensures Count(ParseUrl(url).value.value.template, Placeholder) >= 1
  {
    var text := PageText(QueryParams(url)[k]);
    var o := PageParamAt(url, k);
    CanonicalRoundTrip(text);
    assert PagePattern(DecimalValue(text)) == PagePrefix + text;
    OccurrenceCounted(url, PagePrefix + text, o);
    FirstPageParamDecides(url, k);
    ReplacementInserted(url, PagePattern(DecimalValue(text)), Placeholder);
  }

  /**
   * `replace` looks for the page parameter's own text exactly when its digits
   * are canonical. Otherwise it looks for some other text, which may still
   * occur elsewhere in the URL: in `a?page=07&per_page=7` it is `page=7`,
   * found inside `per_page=7`.
   */
  lemma PatternIsParamTextIffCanonical(text: string)
    requires IsDecimal(text)
    ensures PagePattern(DecimalValue(text)) == PagePrefix + text <==> IsCanonical(text)
  {
    CanonicalRoundTrip(text);
    var ds := DecimalString(DecimalValue(text));
    if PagePrefix + ds == PagePrefix + text {
      assert (PagePrefix + ds)[|PagePrefix|..] == ds;
      assert (PagePrefix + text)[|PagePrefix|..] == text;
    }
  }

  /** `page=<n>` has its `p` only in front, and a digit where `page={}` has `{`. */
  lemma PagePatternShape(n: nat)
    ensures HeadUnique(PagePattern(n))
    ensures |PagePattern(n)| > 5 && IsDigit(PagePattern(n)[5])
  {
    var pat := PagePattern(n);
    var ds := DecimalString(n);
    forall i | 0 < i < |pat| ensures pat[i] != pat[0] {
      if i >= |PagePrefix| {
        assert pat[i] == ds[i - |PagePrefix|];
      }
    }
    assert pat[5] == ds[0];
  }

  /**
   * `Count(url, page=<n>) <= 1`, the condition of the round trip, says that
   * `page=<n>` stands at one offset of the URL at most.
   */
  lemma PagePatternAtMostOnce(url: string, n: nat)
    ensures Count(url, PagePattern(n)) <= 1 <==>
      forall i: nat, j: nat :: OccursAt(url, PagePattern(n), i) && OccursAt(url, PagePattern(n), j) ==> i == j
  {
    PagePatternShape(n);
    CountAtMostOnce(url, PagePattern(n));
  }

  /** The template no longer holds `page=<last>`: every occurrence became `page={}`. */
  lemma TemplateHoldsNoPagePattern(url: string, ps: PageSet)
    requires ParseUrl(url) == Ok(Some(ps))
    ensures Count(ps.template, PagePattern(ps.lastPage)) == 0
  {
    var pat := PagePattern(ps.lastPage);
    PagePatternShape(ps.lastPage);
    assert ps.template == ReplaceAll(url, pat, Placeholder);
    assert Placeholder[5] == '{';
    ReplaceLeavesNoOccurrence(url, pat, Placeholder, 5);
    CountZeroIffAbsent(ps.template, pat);
  }

  /** `page=` and the page text of parameter `k` stand at offset `o` of the URL. */
  lemma PageParamAt(url: string, k: nat) returns (o: nat)
    requires '?' in url && k < |QueryParams(url)| && IsPageParam(QueryParams(url)[k])
    ensures var pat := PagePrefix + PageText(QueryParams(url)[k]);
      o + |pat| <= |url| && url[o..o + |pat|] == pat
  {
    var param := QueryParams(url)[k];
    var pat := PagePrefix + PageText(param);
    PageTextFollowsPrefix(param);
    o := QueryParamAt(url, k);
    SliceOfSlice(url, o, o + |param|, 0, |pat|);
  }

  /**
   * `template.format(p)` is the URL with `page=<last>` turned into `page=<p>`,
   * when the URL holds no braces and one such occurrence at most; with two,
   * the second `{}` has no argument and `format` raises IndexError.
   */
  lemma TemplateFillsPage(url: string, ps: PageSet, p: nat)
    requires ParseUrl(url) == Ok(Some(ps)) && BraceFree(url)
    ensures Count(url, PagePattern(ps.lastPage)) <= 1 ==>
      Format(ps.template, DecimalString(p)) == Ok(ReplaceAll(url, PagePattern(ps.lastPage), PagePattern(p)))
    ensures Count(url, PagePattern(ps.lastPage)) >= 2 ==>
      Format(ps.template, DecimalString(p)) == Err(IndexOutOfRange)
  {
    assert BraceFree(PagePrefix);
    FormatFilledTemplate(url, PagePattern(ps.lastPage), PagePrefix, DecimalString(p), false);
  }

  /** Filling the template with the last page gives back the URL the header named. */
  lemma TemplateRoundTrip(url: string, ps: PageSet)
    requires ParseUrl(url) == Ok(Some(ps)) && BraceFree(url) && Count(url, PagePattern(ps.lastPage)) <= 1
    ensures Format(ps.template, DecimalString(ps.lastPage)) == Ok(url)
  {
    TemplateFillsPage(url, ps, ps.lastPage);
    ReplaceBySelf(url, PagePattern(ps.lastPage));
  }

  /** `range(2, last_page + 1)` under the guard `last_page > 1`: the pages requested after the first. */
  function ExtraPages(lastPage: nat): (pages: seq<nat>)
    ensures |pages| == if lastPage > 1 then lastPage - 1 else 0
    ensures forall i :: 0 <= i < |pages| ==> pages[i] == i + 2
  {
    if lastPage <= 1 then [] else ExtraPages(lastPage - 1) + [lastPage]
  }

  /** Each page from 2 to the last is requested exactly once, in increasing order. */
  lemma ExtraPagesCoverRange(lastPage: nat)
    ensures forall p :: p in ExtraPages(lastPage) <==> 2 <= p <= lastPage
    ensures forall i, j :: 0 <= i < j < |ExtraPages(lastPage)| ==> ExtraPages(lastPage)[i] < ExtraPages(lastPage)[j]
  {
    var pages := ExtraPages(lastPage);
    forall p | 2 <= p <= lastPage ensures p in pages {
      assert pages[p - 2] == p;
    }
  }

  /** `url.format(p)` for each page in turn, as `repos_page` builds them; the first failure propagates. */
  function PageUrls(template: string, pages: seq<nat>): (r: Result<seq<string>, FormatError>)
    ensures r.Ok? ==> |r.value| == |pages|
    ensures r.Ok? ==> forall i :: 0 <= i < |pages| ==> Format(template, DecimalString(pages[i])) == Ok(r.value[i])
  {
    if pages == [] then Ok([])
    else
      match Format(template, DecimalString(pages[0]))
      case Err(e) => Err(e)
      case Ok(u) =>
        var rest := PageUrls(template, pages[1..]);
        if rest.Err? then rest else Ok([u] + rest.value)
  }

  /** A failure is the error of the first page whose URL cannot be formatted. */
  lemma {:induction false} PageUrlsFailAtFirstError(template: string, pages: seq<nat>) returns (i: nat)
    requires PageUrls(template, pages).Err?
    ensures i < |pages| && Format(template, DecimalString(pages[i])) == Err(PageUrls(template, pages).error)
    ensures forall j :: 0 <= j < i ==> Format(template, DecimalString(pages[j])).Ok?
  {
    if Format(template, DecimalString(pages[0])).Err? {
      i := 0;
    } else {
      var i' := PageUrlsFailAtFirstError(template, pages[1..]);
      i := i' + 1;
      forall j | 0 <= j < i ensures Format(template, DecimalString(pages[j])).Ok? {
        if j > 0 {
          assert pages[j] == pages[1..][j - 1];
        }
      }
    }
  }

  /**
   * With a brace-free URL holding `page=<last>` once at most, the pages after
   * the first are requested at the URL with `page=<p>` in place, for p = 2..last;
   * the last request is the URL the header named.
   */
  lemma PageUrlsWalkPages(url: string, ps: PageSet)
    requires ParseUrl(url) == Ok(Some(ps)) && BraceFree(url) && Count(url, PagePattern(ps.lastPage)) <= 1
    ensures PageUrls(ps.template, ExtraPages(ps.lastPage)).Ok?
    ensures var urls := PageUrls(ps.template, ExtraPages(ps.lastPage)).value;
      && |urls| == |ExtraPages(ps.lastPage)|
      && (forall i :: 0 <= i < |urls| ==> urls[i] == ReplaceAll(url, PagePattern(ps.lastPage), PagePattern(i + 2)))
      && (ps.lastPage >= 2 ==> urls[|urls| - 1] == url)
  {
    var pages := ExtraPages(ps.lastPage);
    forall i | 0 <= i < |pages|
      ensures Format(ps.template, DecimalString(pages[i])) == Ok(ReplaceAll(url, PagePattern(ps.lastPage), PagePattern(i + 2)))
    {
      TemplateFillsPage(url, ps, i + 2);
    }
    if PageUrls(ps.template, pages).Err? {
      var i := PageUrlsFailAtFirstError(ps.template, pages);
      assert false;
    }
    if ps.lastPage >= 2 {
      TemplateRoundTrip(url, ps);
      ReplaceBySelf(url, PagePattern(ps.lastPage));
    }
  }

  /** A URL holding `page=<last>` twice cannot have any further page formatted. */
  lemma SecondPlaceholderFails(url: string, ps: PageSet)
    requires ParseUrl(url) == Ok(Some(ps)) && BraceFree(url) && Count(url, PagePattern(ps.lastPage)) >= 2
    requires ps.lastPage >= 2
    ensures PageUrls(ps.template, ExtraPages(ps.lastPage)) == Err(IndexOutOfRange)
  {
    TemplateFillsPage(url, ps, 2);
  }

  /** How the caller's use of the result can fail. */
  datatype ListingError =
    | ParseFailed(cause: ParseError)  // `parse_last_page` raised
    | NotUnpackable                   // `None` cannot be unpacked into `url, last_page`: TypeError
    | TemplateFailed(formatError: FormatError)

  /**
   * The URLs the caller requests after the first page, given the first
   * response's `Link` header: one per extra page, each the template filled
   * with that page's number.
   */
  function FollowUpUrls(header: string): (r: Result<seq<string>, ListingError>)
    ensures r == Err(NotUnpackable) <==> LastPageOf(header) == Ok(None)
    ensures r.Err? && r.error.ParseFailed? <==> LastPageOf(header).Err?
    ensures r.Ok? ==> LastPageOf(header).Ok? && LastPageOf(header).value.Some?
    ensures r.Ok? ==> |r.value| == |ExtraPages(LastPageOf(header).value.value.lastPage)|
    ensures r.Ok? ==> forall i :: 0 <= i < |r.value| ==>
      Format(LastPageOf(header).value.value.template, DecimalString(i + 2)) == Ok(r.value[i])
    ensures r.Err? && r.error.TemplateFailed? <==>
      LastPageOf(header).Ok? && LastPageOf(header).value.Some? &&
      PageUrls(LastPageOf(header).value.value.template, ExtraPages(LastPageOf(header).value.value.lastPage)).Err?
    ensures r.Err? && r.error.ParseFailed? ==> r.error.cause == LastPageOf(header).error
    ensures r.Err? && r.error.TemplateFailed? ==>
      r.error.formatError ==
      PageUrls(LastPageOf(header).value.value.template, ExtraPages(LastPageOf(header).value.value.lastPage)).error
  {
    match LastPageOf(header)
    case Err(e) => Err(ParseFailed(e))
    case Ok(None) => Err(NotUnpackable)
    case Ok(Some(ps)) =>
      var urls := PageUrls(ps.template, ExtraPages(ps.lastPage));
      if urls.Err? then Err(TemplateFailed(urls.error)) else Ok(urls.value)
  }

  /** A header without a `rel="last"` entry (and no entry lacking a `;`) leaves nothing to unpack. */
  lemma NoLastEntryCannotUnpack(header: string)
    ensures FollowUpUrls(header) == Err(NotUnpackable) <==> PassedOver(Entries(header), |Entries(header)|)
  {
    NoneIffNoLastEntry(Entries(header), 0);
  }

  /**
   * For a header whose first `rel="last"` entry names a brace-free URL holding
   * `page=<last>` at most once, the caller requests pages 2..last at that URL
   * with `page=<p>` in place; the last request is the URL itself.
   */
  lemma FollowUpUrlsWalkPages(header: string, i: nat, ps: PageSet)
    requires PassedOver(Entries(header), i) && i < |Entries(header)| && IsLastEntry(Entries(header)[i])
    requires var url := TargetUrl(Entries(header)[i]);
      ParseUrl(url) == Ok(Some(ps)) && BraceFree(url) && Count(url, PagePattern(ps.lastPage)) <= 1
    ensures FollowUpUrls(header).Ok?
    ensures var urls := FollowUpUrls(header).value; var url := TargetUrl(Entries(header)[i]);
      && |urls| == |ExtraPages(ps.lastPage)|
      && (forall j :: 0 <= j < |urls| ==> urls[j] == ReplaceAll(url, PagePattern(ps.lastPage), PagePattern(j + 2)))
      && (ps.lastPage >= 2 ==> urls[|urls| - 1] == url)
  {
    FirstLastEntryDecides(Entries(header), i);
    PageUrlsWalkPages(TargetUrl(Entries(header)[i]), ps);
  }

  /**
   * For a header whose first `rel="last"` entry names a brace-free URL holding
   * `page=<last>` twice or more, the first extra page already fails with IndexError.
   */
  lemma FollowUpUrlsSecondPlaceholderFails(header: string, i: nat, ps: PageSet)
    requires PassedOver(Entries(header), i) && i < |Entries(header)| && IsLastEntry(Entries(header)[i])
    requires var url := TargetUrl(Entries(header)[i]);
      ParseUrl(url) == Ok(Some(ps)) && BraceFree(url) && Count(url, PagePattern(ps.lastPage)) >= 2
    requires ps.lastPage >= 2
    ensures FollowUpUrls(header) == Err(TemplateFailed(IndexOutOfRange))
  {
    FirstLastEntryDecides(Entries(header), i);
    SecondPlaceholderFails(TargetUrl(Entries(header)[i]), ps);
  }
}
