/** The YTS scraper (`services/scrapers/yts.py`): the token gate against
    near-homonyms, the browse-page choices and their pagination, the
    stage-one confidence decision, the movie-details retries, the torrent
    filters and the `list_movies` fallback with its three attempts.
    HTTP, HTML parsing, `thefuzz.process.extractOne`, `urljoin`,
    `quote_plus` and the sleeps are parameters or recorded as data. */
module Yts {
  import opened Wrappers
  import opened Strings
  import opened Values
  import Scoring
  import Config
  import Seqs

  const StopWords: set<string> := {"the", "a", "an", "of", "and"}
  const MinSeeders := 20
  const ApiLimit := 50
  const MaxDetailsAttempts := 3
  const LastBrowsePage := 5
  const ApiQualities: set<string> := {"720p", "1080p", "2160p"}
  /** `extractOne` score needed with and without a requested year. */
  const YearThreshold := 80
  const PlainThreshold := 86
  const Uploader := "YTS"
  const MagnetPrefix := "magnet:?xt=urn:btih:"
  const Trackers := "&tr=udp://open.demonii.com:1337/announce&tr=udp://tracker.openbittorrent.com:80"
  const DetailsEndpoint := "https://yts.lt/api/v2/movie_details.json?movie_id="

  // ---------------------------------------------------------------------------
  // _tokens and _passes_gate

  predicate IsTokenChar(c: char) { IsLower(c) || IsDigit(c) }

  /** End of the run of token characters starting at `i`. */
  function RunEnd(l: string, i: nat): (e: nat)
    requires i <= |l|
    ensures i <= e <= |l|
    ensures forall k :: i <= k < e ==> IsTokenChar(l[k])
    ensures e == |l| || !IsTokenChar(l[e])
    decreases |l| - i
  {
    if i == |l| || !IsTokenChar(l[i]) then i else RunEnd(l, i + 1)
  }

  /** `re.findall(r"[a-z0-9]+", l)`: the maximal runs of token characters, in order. */
  function TokenRuns(l: string): (r: seq<string>)
    ensures forall t :: t in r ==> |t| > 0 && forall k :: 0 <= k < |t| ==> IsTokenChar(t[k])
    decreases |l|
  {
    if |l| == 0 then []
    else if !IsTokenChar(l[0]) then TokenRuns(l[1..])
    else
      var e := RunEnd(l, 0);
      [l[..e]] + TokenRuns(l[e..])
  }

  /** `_tokens(s)`: the token runs of the lower-cased text, as a set. */
  function Tokens(s: string): (r: set<string>)
    ensures forall t :: t in r ==> |t| > 0 && forall k :: 0 <= k < |t| ==> !IsUpper(t[k])
  {
    set t | t in TokenRuns(LowerStr(s))
  }

  /** `base_tokens`: the query's tokens that are not stop words. */
  function BaseTokens(query: string): (r: set<string>)
    ensures r <= Tokens(query) && r !! StopWords
  {
    Tokens(query) - StopWords
  }

  /** `_passes_gate`: some non-stop-word query token appears among the
      candidate's tokens; a query of stop words only lets everything through. */
  predicate PassesGate(query: string, title: string) {
    var base := BaseTokens(query);
    base == {} || base * Tokens(title) != {}
  }

  lemma GatePassesOwnQuery(query: string)
    ensures PassesGate(query, query)
  {
    var base := BaseTokens(query);
    if base != {} {
      var t :| t in base;
      assert t in base * Tokens(query);
    }
  }

  lemma GateIgnoresCase(query: string, title: string)
    ensures PassesGate(query, UpperStr(title)) == PassesGate(query, title)
    ensures PassesGate(UpperStr(query), title) == PassesGate(query, title)
  {
    Scoring.LowerStrUpperStr(title);
    Scoring.LowerStrUpperStr(query);
  }

  lemma StopWordQueriesPassEverything(query: string, title: string)
    requires Tokens(query) <= StopWords
    ensures PassesGate(query, title)
  {
  }

  lemma {:induction false} RunEndStopsAtSeparator(a: string, rest: string, i: nat)
    requires i <= |a| && |rest| > 0 && !IsTokenChar(rest[0])
    ensures RunEnd(a + rest, i) == RunEnd(a, i)
    decreases |a| - i
  {
    if i < |a| {
      assert (a + rest)[i] == a[i];
      if IsTokenChar(a[i]) {
        RunEndStopsAtSeparator(a, rest, i + 1);
      }
    } else {
      assert (a + rest)[i] == rest[0];
    }
  }

  /** A separator character splits the token runs exactly. */
  lemma {:induction false} TokenRunsSplit(a: string, c: char, b: string)
    requires !IsTokenChar(c)
    ensures TokenRuns(a + [c] + b) == TokenRuns(a) + TokenRuns(b)
    decreases |a|
  {
    var s := a + [c] + b;
    if |a| == 0 {
      assert s[0] == c;
      assert s[1..] == b;
    } else if !IsTokenChar(a[0]) {
      assert s[0] == a[0];
      assert s[1..] == a[1..] + [c] + b;
      TokenRunsSplit(a[1..], c, b);
    } else {
      assert s[0] == a[0];
      assert s == a + ([c] + b);
      RunEndStopsAtSeparator(a, [c] + b, 0);
      var e := RunEnd(a, 0);
      assert e > 0;
      assert s[..e] == a[..e];
      assert s[e..] == a[e..] + [c] + b;
      TokenRunsSplit(a[e..], c, b);
    }
  }

  lemma TokensOfSpacedJoin(a: string, b: string)
    ensures Tokens(a + " " + b) == Tokens(a) + Tokens(b)
  {
    var la, lb := LowerStr(a), LowerStr(b);
    LowerStrConcat(a + " ", b);
    LowerStrConcat(a, " ");
    assert LowerStr(" ") == [' '];
    assert LowerStr(a + " " + b) == la + [' '] + lb;
    TokenRunsSplit(la, ' ', lb);
    Seqs.ElemsAppend(TokenRuns(la), TokenRuns(lb));
  }

  /** A candidate that passes keeps passing with extra words on either side. */
  lemma GateSurvivesExtraWords(query: string, title: string, more: string)
    requires PassesGate(query, title)
    ensures PassesGate(query, title + " " + more)
    ensures PassesGate(query, more + " " + title)
  {
    TokensOfSpacedJoin(title, more);
    TokensOfSpacedJoin(more, title);
  }

  // ---------------------------------------------------------------------------
  // _normalize_year_text

  predicate FourDigitsAt(s: string, i: int) {
    0 <= i && i + 4 <= |s| && IsDigit(s[i]) && IsDigit(s[i + 1]) && IsDigit(s[i + 2]) && IsDigit(s[i + 3])
  }

  /** Leftmost position at or after `from` holding four consecutive digits (`\d{4}`). */
  function FirstFourDigits(s: string, from: nat): (r: Option<nat>)
    requires from <= |s|
    ensures r.Some? ==> from <= r.value && FourDigitsAt(s, r.value)
    ensures r.Some? ==> forall i :: from <= i < r.value ==> !FourDigitsAt(s, i)
    ensures r.None? ==> forall i :: from <= i ==> !FourDigitsAt(s, i)
    decreases |s| - from
  {
    if from + 4 > |s| then None
    else if FourDigitsAt(s, from) then Some(from)
    else FirstFourDigits(s, from + 1)
  }

  /** `value.strip() or None`. */
  function StrippedText(s: string): (r: Option<string>)
    ensures r.None? <==> IsBlank(s)
    ensures r.Some? ==> r.value != "" && r.value == Strip(s) && Strip(r.value) == r.value
  {
    var t := Strip(s);
    StripEmptyIffBlank(s);
    StripNoop(t);
    if t == "" then None else Some(t)
  }

  /** `_normalize_year_text`: the first four consecutive digits of the text,
      else the stripped text, with nothing for a missing or blank text. */
  function NormalizeYearText(value: Option<string>): (r: Option<string>)
    ensures value.None? || value == Some("") ==> r.None?
    ensures r.Some? ==> r.value != ""
    ensures value.Some? && (exists i :: FourDigitsAt(value.value, i)) ==>
      (exists i :: FourDigitsAt(value.value, i) && r == Some(value.value[i..i + 4])
        && forall j :: 0 <= j < i ==> !FourDigitsAt(value.value, j))
    ensures value.Some? && value.value != "" && (forall i :: !FourDigitsAt(value.value, i)) ==>
      r == StrippedText(value.value)
  {
    match value
    case None => None
    case Some(v) =>
      if v == "" then None
      else match FirstFourDigits(v, 0)
        case Some(i) => Some(v[i..i + 4])
        case None => StrippedText(v)
  }

  lemma NoFourDigitsInSlice(v: string, a: nat, b: nat)
    requires a <= b <= |v|
    requires forall i :: !FourDigitsAt(v, i)
    ensures forall i :: !FourDigitsAt(v[a..b], i)
  {
    forall i | 0 <= i && i + 4 <= b - a
      ensures !FourDigitsAt(v[a..b], i)
    {
      assert !FourDigitsAt(v, a + i);
      assert v[a..b][i] == v[a + i] && v[a..b][i + 1] == v[a + i + 1];
      assert v[a..b][i + 2] == v[a + i + 2] && v[a..b][i + 3] == v[a + i + 3];
    }
  }

  lemma FourDigitsNormalizeToThemselves(v: string, i: nat)
    requires FourDigitsAt(v, i)
    ensures NormalizeYearText(Some(v[i..i + 4])) == Some(v[i..i + 4])
  {
    var y := v[i..i + 4];
    assert FourDigitsAt(y, 0);
    assert FirstFourDigits(y, 0) == Some(0);
    assert y[0..4] == y;
  }

  lemma StrippedTextNormalizesToItself(v: string)
    requires forall i :: !FourDigitsAt(v, i)
    requires StrippedText(v).Some?
    ensures NormalizeYearText(StrippedText(v)) == StrippedText(v)
  {
    var t := StrippedText(v).value;
    var a, b := StripSlice(v);
    NoFourDigitsInSlice(v, a, b);
    assert FirstFourDigits(t, 0).None?;
  }

  /** Normalising an already normalised year text changes nothing. */
  lemma NormalizeYearTextIdempotent(value: Option<string>)
    ensures NormalizeYearText(NormalizeYearText(value)) == NormalizeYearText(value)
  {
    if value.Some? && value.value != "" {
      var v := value.value;
      var f := FirstFourDigits(v, 0);
      if f.Some? {
        FourDigitsNormalizeToThemselves(v, f.value);
      } else if StrippedText(v).Some? {
        StrippedTextNormalizesToItself(v);
      }
    }
  }

  // ---------------------------------------------------------------------------
  // Stage 1: slugs, the search URL and paging

  /** `year_str`: `str(year).strip()`, with a missing or blank year read as none. */
  function YearString(year: Value): (r: Option<string>)
    ensures year.VNone? ==> r.None?
    ensures !year.VNone? ==> (r.None? <==> IsBlank(Show(year)))
    ensures r.Some? ==> r.value != "" && Strip(r.value) == r.value
  {
    if year.VNone? then None else StrippedText(Show(year))
  }

  /** `quality_slug`: the trimmed, lower-cased resolution, or "all" when it is
      not a non-blank string. */
  function QualitySlug(resolution: Value): (r: string)
    ensures r != ""
    ensures !resolution.VStr? || IsBlank(resolution.s) ==> r == "all"
    ensures resolution.VStr? && !IsBlank(resolution.s) ==>
      |r| <= |resolution.s| && forall k :: 0 <= k < |r| ==> !IsUpper(r[k])
  {
    if resolution.VStr? && Strip(resolution.s) != "" then
      StripShortens(resolution.s);
      StripEmptyIffBlank(resolution.s);
      LowerStr(Strip(resolution.s))
    else
      StripEmptyIffBlank(Show(resolution));
      "all"
  }

  /** `year_slug`. */
  function YearSlug(yearStr: Option<string>): (r: string)
    requires yearStr.Some? ==> yearStr.value != ""
    ensures r != ""
    ensures yearStr.None? <==> r == "all" && yearStr != Some("all")
  {
    yearStr.GetOr("all")
  }

  /** Sequential `str.replace` of each placeholder with its value. */
  function Substitute(template: string, pairs: seq<(string, string)>): (r: string)
    requires forall i :: 0 <= i < |pairs| ==> |pairs[i].0| > 0
    decreases |pairs|
  {
    if |pairs| == 0 then template
    else Substitute(ReplaceAll(template, pairs[0].0, pairs[0].1), pairs[1..])
  }

  /** The replacements of `_substitute_template`, in their dictionary order. */
  function Replacements(query: string, qualitySlug: string, yearSlug: string, mediaType: string,
                        quote: string -> string): (r: seq<(string, string)>)
    ensures forall i :: 0 <= i < |r| ==> |r[i].0| > 0 && r[i].0[0] == '{'
  {
    [("{query}", quote(query)), ("{QUERY}", quote(query)),
     ("{quality}", quote(qualitySlug)), ("{QUALITY}", quote(qualitySlug)),
     ("{resolution}", quote(qualitySlug)), ("{RESOLUTION}", quote(qualitySlug)),
     ("{year}", quote(yearSlug)), ("{YEAR}", quote(yearSlug)),
     ("{media_type}", quote(mediaType)), ("{MEDIA_TYPE}", quote(mediaType))]
  }

  /** `base_search_url`. */
  function SearchUrl(template: string, query: string, mediaType: string, year: Value, resolution: Value,
                     quote: string -> string): string
  {
    Substitute(template, Replacements(query, QualitySlug(resolution), YearSlug(YearString(year)), mediaType, quote))
  }

  lemma NoBraceNoPlaceholder(s: string, pat: string)
    requires |pat| > 0 && pat[0] == '{' && '{' !in s
    ensures !Contains(s, pat)
  {
    forall i | 0 <= i && i + |pat| <= |s|
      ensures !OccursAt(s, pat, i)
    {
      assert s[i..i + |pat|][0] == s[i];
      assert s[i] in s;
    }
    ContainsIff(s, pat);
  }

  lemma {:induction false} SubstituteWithoutBraces(template: string, pairs: seq<(string, string)>)
    requires forall i :: 0 <= i < |pairs| ==> |pairs[i].0| > 0 && pairs[i].0[0] == '{'
    requires '{' !in template
    ensures Substitute(template, pairs) == template
    decreases |pairs|
  {
    if |pairs| > 0 {
      NoBraceNoPlaceholder(template, pairs[0].0);
      SubstituteWithoutBraces(template, pairs[1..]);
    }
  }

  /** A template without placeholders is used as the search URL unchanged. */
  lemma SearchUrlWithoutPlaceholders(template: string, query: string, mediaType: string, year: Value,
                                     resolution: Value, quote: string -> string)
    requires '{' !in template
    ensures SearchUrl(template, query, mediaType, year, resolution, quote) == template
  {
    SubstituteWithoutBraces(template, Replacements(query, QualitySlug(resolution), YearSlug(YearString(year)), mediaType, quote));
  }

  /** `_add_page_param`: the first page is the URL itself; later pages append
      `page=N`. */
  function AddPageParam(url: string, page: int): (r: string)
    ensures page <= 1 ==> r == url
    ensures page > 1 ==> |r| > |url| && r[..|url|] == url
  {
    if page <= 1 then url
    else
      var joiner := if '?' in url then '&' else '?';
      url + [joiner] + "page=" + IntToString(page)
  }

  function QueryCount(s: string): nat { multiset(s)['?'] }

  lemma DigitsHaveNoQueryMark(n: nat)
    ensures QueryCount(NatToString(n)) == 0
  {
    var d := NatToString(n);
    forall k | 0 <= k < |d| ensures d[k] != '?' {
      assert IsDigit(d[k]);
    }
    assert '?' !in multiset(d);
  }

  /** A later page joins with `&` when the URL already has a query string and
      with `?` otherwise, so the result carries exactly one `?` unless the URL
      already had some. */
  lemma AddPageParamOneQuery(url: string, page: int)
    requires page > 1
    ensures QueryCount(AddPageParam(url, page)) == if '?' in url then QueryCount(url) else 1
  {
    var joiner := if '?' in url then '&' else '?';
    var tail := "page=";
    assert QueryCount(tail) == 0 by {
      assert tail == ['p', 'a', 'g', 'e', '='];
      assert multiset(tail) == multiset{'p', 'a', 'g', 'e', '='};
    }
    DigitsHaveNoQueryMark(page);
    assert '?' in url <==> multiset(url)['?'] > 0;
    assert AddPageParam(url, page) == url + [joiner] + tail + NatToString(page);
  }

  // ---------------------------------------------------------------------------
  // _collect_choices_from_soup

  datatype TitleLink = TitleLink(href: Value, text: string)
  /** One `browse-movie-wrap` element: its stripped year text and title link, when they are tags. */
  datatype Wrapper = NotATag | MovieWrap(yearText: Option<string>, link: Option<TitleLink>)

  predicate YearAgrees(yearText: Option<string>, yearStr: Option<string>) {
    var scraped := NormalizeYearText(yearText);
    !(yearStr.Some? && scraped.Some? && yearStr.value != scraped.value)
  }

  predicate KeepsWrapper(w: Wrapper, yearStr: Option<string>, query: string) {
    && w.MovieWrap?
    && YearAgrees(w.yearText, yearStr)
    && w.link.Some?
    && w.link.value.href.VStr?
    && w.link.value.text != ""
    && (yearStr.None? || PassesGate(query, w.link.value.text))
  }

  function HrefOf(w: Wrapper): string {
    if w.MovieWrap? && w.link.Some? && w.link.value.href.VStr? then w.link.value.href.s else ""
  }

  function TextOf(w: Wrapper): string {
    if w.MovieWrap? && w.link.Some? then w.link.value.text else ""
  }

  /** What one wrapper contributes to the choices: its href and title when kept. */
  function Choice(w: Wrapper, yearStr: Option<string>, query: string): (c: Option<(string, string)>)
    ensures c.Some? <==> KeepsWrapper(w, yearStr, query)
    ensures c.Some? ==> c.value == (HrefOf(w), TextOf(w))
  {
    if KeepsWrapper(w, yearStr, query) then Some((HrefOf(w), TextOf(w))) else None
  }

  /** `out[href] = title` for each contribution in turn, later ones overwriting earlier ones. */
  function DictFrom(cs: seq<Option<(string, string)>>): (r: map<string, string>)
    ensures forall k :: k in r <==> (exists i :: 0 <= i < |cs| && cs[i].Some? && cs[i].value.0 == k)
    ensures forall k :: k in r ==> exists i :: 0 <= i < |cs| && cs[i] == Some((k, r[k]))
    decreases |cs|
  {
    if |cs| == 0 then map[]
    else
      var init := cs[..|cs| - 1];
      var before := DictFrom(init);
      assert forall i :: 0 <= i < |init| ==> init[i] == cs[i];
      match cs[|cs| - 1]
      case None => before
      case Some(c) => before[c.0 := c.1]
  }

  /** One more contribution updates the map built from the earlier ones. */
  lemma DictFromStep(cs: seq<Option<(string, string)>>, init: seq<Option<(string, string)>>)
    requires |cs| > 0 && init == cs[..|cs| - 1]
    ensures cs[|cs| - 1].None? ==> DictFrom(cs) == DictFrom(init)
    ensures cs[|cs| - 1].Some? ==>
      DictFrom(cs) == DictFrom(init)[cs[|cs| - 1].value.0 := cs[|cs| - 1].value.1]
  {
  }

  /** Each key holds the value of its last contribution, found at `i`. */
  lemma {:induction false} DictFromLastWins(cs: seq<Option<(string, string)>>, k: string) returns (i: nat)
    requires k in DictFrom(cs)
    ensures i < |cs| && cs[i] == Some((k, DictFrom(cs)[k]))
    ensures forall j :: i < j < |cs| ==> !(cs[j].Some? && cs[j].value.0 == k)
    decreases |cs|
  {
    var n := |cs| - 1;
    var init := cs[..n];
    DictFromStep(cs, init);
    if cs[n].Some? && cs[n].value.0 == k {
      i := n;
    } else {
      var before := DictFrom(init);
      assert k in before && DictFrom(cs)[k] == before[k];
      i := DictFromLastWins(init, k);
      assert init[i] == cs[i];
      forall j | i < j < |cs| ensures !(cs[j].Some? && cs[j].value.0 == k) {
        if j < n {
          assert init[j] == cs[j];
        } else {
          assert j == n;
        }
      }
    }
  }

  function ChoiceList(ws: seq<Wrapper>, yearStr: Option<string>, query: string): (cs: seq<Option<(string, string)>>)
    ensures |cs| == |ws| && forall i :: 0 <= i < |ws| ==> cs[i] == Choice(ws[i], yearStr, query)
  {
    seq(|ws|, i requires 0 <= i < |ws| => Choice(ws[i], yearStr, query))
  }

  /** `_collect_choices_from_soup`: href to title of the kept wrappers, a later
      wrapper with the same href overwriting an earlier one. */
  function CollectChoices(ws: seq<Wrapper>, yearStr: Option<string>, query: string): (r: map<string, string>)
    ensures forall k :: k in r <==> (exists i :: 0 <= i < |ws| && KeepsWrapper(ws[i], yearStr, query) && HrefOf(ws[i]) == k)
    ensures yearStr.Some? ==> forall k :: k in r ==> PassesGate(query, r[k])
  {
    var cs := ChoiceList(ws, yearStr, query);
    var r := DictFrom(cs);
    assert forall k :: k in r ==> exists i :: 0 <= i < |ws| && cs[i] == Some((k, r[k]));
    r
  }

  /** Each choice holds the title of the last kept wrapper with that href, found at `i`. */
  lemma CollectChoicesLastWins(ws: seq<Wrapper>, yearStr: Option<string>, query: string, k: string) returns (i: nat)
    requires k in CollectChoices(ws, yearStr, query)
    ensures i < |ws| && KeepsWrapper(ws[i], yearStr, query) && HrefOf(ws[i]) == k
    ensures TextOf(ws[i]) == CollectChoices(ws, yearStr, query)[k]
    ensures forall j :: i < j < |ws| ==> !(KeepsWrapper(ws[j], yearStr, query) && HrefOf(ws[j]) == k)
  {
    var cs := ChoiceList(ws, yearStr, query);
    i := DictFromLastWins(cs, k);
  }

  /** Choices of the browse page fetched from `url`; a failed fetch gives none. */
  function PageChoices(url: string, yearStr: Option<string>, query: string,
                       browse: string -> Option<seq<Wrapper>>): (r: map<string, string>)
    ensures browse(url).None? ==> r == map[]
    ensures yearStr.Some? ==> forall k :: k in r ==> PassesGate(query, r[k])
  {
    match browse(url)
    case None => map[]
    case Some(ws) => CollectChoices(ws, yearStr, query)
  }

  function BrowsePage(base: string, page: int, yearStr: Option<string>, query: string,
                      browse: string -> Option<seq<Wrapper>>): (r: map<string, string>)
    ensures yearStr.Some? ==> forall k :: k in r ==> PassesGate(query, r[k])
  {
    PageChoices(AddPageParam(base, page), yearStr, query, browse)
  }

  /** The first of pages `page`..5 with choices, or 6 when none has any. */
  function FirstFilledPage(pages: int -> map<string, string>, page: int): (n: int)
    requires 2 <= page <= LastBrowsePage + 1
    ensures page <= n <= LastBrowsePage + 1
    ensures n <= LastBrowsePage ==> pages(n) != map[]
    ensures forall m :: page <= m < n ==> pages(m) == map[]
    decreases LastBrowsePage + 1 - page
  {
    if page > LastBrowsePage || pages(page) != map[] then page
    else FirstFilledPage(pages, page + 1)
  }

  /** `choices` after stage 1: the first page, and pages 2 to 5 only when a
      year was requested and the first page offered nothing, stopping at the
      first page with choices. */
  function BrowseChoices(base: string, yearStr: Option<string>, query: string,
                         browse: string -> Option<seq<Wrapper>>): (r: map<string, string>)
    ensures yearStr.None? ==> r == BrowsePage(base, 1, yearStr, query, browse)
    ensures yearStr.Some? ==>
      (r == map[] <==> forall n :: 1 <= n <= LastBrowsePage ==> BrowsePage(base, n, yearStr, query, browse) == map[])
    ensures r != map[] ==> exists n ::
      && 1 <= n <= LastBrowsePage && r == BrowsePage(base, n, yearStr, query, browse)
      && (forall m :: 1 <= m < n ==> BrowsePage(base, m, yearStr, query, browse) == map[])
    ensures yearStr.Some? ==> forall k :: k in r ==> PassesGate(query, r[k])
  {
    var pages := n => BrowsePage(base, n, yearStr, query, browse);
    assert forall m :: pages(m) == BrowsePage(base, m, yearStr, query, browse);
    var first := PageChoices(base, yearStr, query, browse);
    assert first == pages(1);
    if first == map[] && yearStr.Some? then
      var n := FirstFilledPage(pages, 2);
      if n <= LastBrowsePage then pages(n) else map[]
    else first
  }

  // ---------------------------------------------------------------------------
  // Stage 1: the confidence decision

  datatype StageOne = NoResults | UseApiFallback | OpenPage(href: string)

  function Threshold(yearStr: Option<string>): int {
    if yearStr.Some? then YearThreshold else PlainThreshold
  }

  /** What stage 1 does with its choices and `extractOne`'s best match
      (value, score, key). */
  function StageOneDecision(choices: map<string, string>, yearStr: Option<string>, query: string,
                            best: Option<(string, int, string)>): (d: StageOne)
    ensures d.NoResults? <==> choices == map[] && yearStr.None?
    ensures d.OpenPage? <==>
      && choices != map[]
      && best.Some? && best.value.1 >= Threshold(yearStr)
      && (yearStr.Some? ==> PassesGate(query, if best.value.2 in choices then choices[best.value.2] else ""))
    ensures d.OpenPage? ==> d.href == best.value.2
  {
    if choices == map[] then (if yearStr.Some? then UseApiFallback else NoResults)
    else
      var confident := best.Some? && best.value.1 >= Threshold(yearStr);
      var gated :=
        if yearStr.Some? && best.Some? then
          PassesGate(query, if best.value.2 in choices then choices[best.value.2] else "")
        else true;
      if confident && gated then OpenPage(best.value.2) else UseApiFallback
  }

  /** A requested year lowers the bar: a score between 80 and 85 opens a
      gated page with a year and falls back to the API without one. */
  lemma YearLowersThreshold(choices: map<string, string>, query: string, year: string, value: string, score: int, key: string)
    requires choices != map[] && year != ""
    requires YearThreshold <= score < PlainThreshold
    requires key in choices && PassesGate(query, choices[key])
    ensures StageOneDecision(choices, Some(year), query, Some((value, score, key))) == OpenPage(key)
    ensures StageOneDecision(choices, None, query, Some((value, score, key))) == UseApiFallback
  {
  }

  // ---------------------------------------------------------------------------
  // Torrents and results (stage 4 and _build_results_from_movies)

  /** A torrent entry; `hash` is "" when missing, `peers` is absent when the field is. */
  datatype Torrent = Torrent(quality: Option<string>, kind: Option<string>, sizeBytes: int,
                             hash: string, seeds: int, peers: Option<int>)

  datatype YtsHit = YtsHit(title: string, pageUrl: string, infoUrl: Value, score: int, sizeBytes: int,
                           codec: string, seeders: int, leechers: int, year: Value)

  /** The settings both result builders share. */
  datatype Ctx = Ctx(query: string, year: Value, resolution: Value, maxSizeGb: int,
                     prefs: Scoring.Preferences, quote: string -> string)

  /** `f"{x}"` of a field that may be missing. */
  function Label(o: Option<string>): string {
    match o
    case Some(s) => s
    case None => "None"
  }

  /** `max(peers - seeders, 0)`, a missing `peers` read as 0. */
  function Leechers(t: Torrent): (r: int)
    ensures r >= 0
    ensures r == 0 || r + t.seeds == t.peers.GetOr(0)
  {
    var p := t.peers.GetOr(0);
    if p - t.seeds > 0 then p - t.seeds else 0
  }

  /** `size_gb <= max_size_gb`, compared exactly on the byte count. */
  predicate SizeOk(sizeBytes: int, maxSizeGb: int) {
    sizeBytes <= maxSizeGb * Config.GiB
  }

  /** Stage 4 keeps a torrent only when no resolution was asked for or a
      string resolution occurs in its quality. */
  predicate Stage4ResolutionOk(resolution: Value, quality: string) {
    !Truthy(resolution) || (resolution.VStr? && Contains(LowerStr(quality), LowerStr(resolution.s)))
  }

  /** The fallback skips a torrent only when a string resolution is missing from its quality. */
  predicate ApiResolutionOk(resolution: Value, quality: string) {
    !(Truthy(resolution) && resolution.VStr? && !Contains(LowerStr(quality), LowerStr(resolution.s)))
  }

  predicate Admits(t: Torrent, ctx: Ctx, stage4: bool) {
    var q := t.quality.GetOr("");
    && (if stage4 then Stage4ResolutionOk(ctx.resolution, q) else ApiResolutionOk(ctx.resolution, q))
    && SizeOk(t.sizeBytes, ctx.maxSizeGb)
    && t.hash != ""
    && t.seeds >= MinSeeders
  }

  /** The two builders agree unless the resolution is a truthy non-string,
      which stage 4 reads as matching nothing and the fallback as matching everything. */
  lemma ResolutionChecksAgree(t: Torrent, ctx: Ctx)
    ensures ctx.resolution.VStr? || !Truthy(ctx.resolution) ==> (Admits(t, ctx, true) <==> Admits(t, ctx, false))
    ensures Truthy(ctx.resolution) && !ctx.resolution.VStr? ==> !Admits(t, ctx, true)
  {
  }

  function HitTitle(movieTitle: string, t: Torrent): string {
    movieTitle + " [" + Label(t.quality) + "." + Label(t.kind) + "] [YTS.MX]"
  }

  function Magnet(hash: string, name: string, quote: string -> string): (r: string)
    ensures |MagnetPrefix| + |hash| <= |r| && r[..|MagnetPrefix| + |hash|] == MagnetPrefix + hash
  {
    var r := MagnetPrefix + hash + "&dn=" + quote(name) + Trackers;
    assert r == (MagnetPrefix + hash) + ("&dn=" + quote(name) + Trackers);
    r
  }

  /** `parse_codec(title) or "x264"`. */
  function HitCodec(title: string): (r: string)
    ensures r in {"av1", "x265", "x264"}
    ensures Scoring.ParseCodec(title).None? ==> r == "x264"
  {
    Scoring.ParseCodec(title).GetOr("x264")
  }

  function MakeHit(t: Torrent, movieTitle: string, infoUrl: Value, year: Value, ctx: Ctx): (h: YtsHit)
    ensures h.seeders == t.seeds && h.sizeBytes == t.sizeBytes && h.leechers == Leechers(t)
    ensures h.score == Scoring.ScoreTorrentResult(h.title, Uploader, ctx.prefs, t.seeds)
  {
    var title := HitTitle(movieTitle, t);
    YtsHit(title, Magnet(t.hash, movieTitle, ctx.quote), infoUrl,
           Scoring.ScoreTorrentResult(title, Uploader, ctx.prefs, t.seeds),
           t.sizeBytes, HitCodec(title), t.seeds, Leechers(t), year)
  }

  /** What every returned result satisfies. */
  predicate Admissible(h: YtsHit, maxSizeGb: int) {
    && h.seeders >= MinSeeders
    && h.leechers >= 0
    && SizeOk(h.sizeBytes, maxSizeGb)
    && h.codec in {"av1", "x265", "x264"}
    && |MagnetPrefix| < |h.pageUrl| && h.pageUrl[..|MagnetPrefix|] == MagnetPrefix
  }

  lemma MadeHitAdmissible(t: Torrent, movieTitle: string, infoUrl: Value, year: Value, ctx: Ctx, stage4: bool)
    requires Admits(t, ctx, stage4)
    ensures Admissible(MakeHit(t, movieTitle, infoUrl, year, ctx), ctx.maxSizeGb)
  {
    var h := MakeHit(t, movieTitle, infoUrl, year, ctx);
    var n := |MagnetPrefix|;
    assert h.pageUrl[..n + |t.hash|][..n] == h.pageUrl[..n];
  }

  /** The results for one movie's torrents, in order. */
  function TorrentHits(ts: seq<Torrent>, movieTitle: string, infoUrl: Value, year: Value, ctx: Ctx,
                       stage4: bool): (r: seq<YtsHit>)
    ensures |r| <= |ts|
    ensures forall h :: h in r ==> Admissible(h, ctx.maxSizeGb)
    ensures forall h :: h in r <==> (exists i ::
      && 0 <= i < |ts| && Admits(ts[i], ctx, stage4)
      && h == MakeHit(ts[i], movieTitle, infoUrl, year, ctx))
    decreases |ts|
  {
    if |ts| == 0 then []
    else
      var rest := TorrentHits(ts[1..], movieTitle, infoUrl, year, ctx, stage4);
      assert forall i :: 1 <= i < |ts| ==> ts[i] == ts[1..][i - 1];
      if Admits(ts[0], ctx, stage4) then
        MadeHitAdmissible(ts[0], movieTitle, infoUrl, year, ctx, stage4);
        [MakeHit(ts[0], movieTitle, infoUrl, year, ctx)] + rest
      else rest
  }

  // ---------------------------------------------------------------------------
  // _api_fallback

  /** One `list_movies` movie; missing fields read as `None`. */
  datatype ApiMovie = ApiMovie(titleLong: Value, title: Value, year: Value, url: Value, torrents: seq<Torrent>)

  datatype ListReply = ListFailed | MovieList(movies: seq<ApiMovie>)

  /** `mv.get("title_long") or mv.get("title") or query`, rendered with `str`. */
  function MovieTitle(mv: ApiMovie, query: string): string {
    if Truthy(mv.titleLong) then Show(mv.titleLong)
    else if Truthy(mv.title) then Show(mv.title)
    else query
  }

  /** A movie is searched only when its year does not contradict the
      requested one and, with a year, its title passes the gate. */
  predicate MovieAdmitted(mv: ApiMovie, ctx: Ctx) {
    && !(Truthy(ctx.year) && Truthy(mv.year) && Show(mv.year) != Show(ctx.year))
    && (!Truthy(ctx.year) || PassesGate(ctx.query, MovieTitle(mv, ctx.query)))
  }

  function MovieHits(mv: ApiMovie, ctx: Ctx): seq<YtsHit> {
    TorrentHits(mv.torrents, MovieTitle(mv, ctx.query), mv.url, mv.year, ctx, false)
  }

  /** `_build_results_from_movies`. */
  function ApiHits(movies: seq<ApiMovie>, ctx: Ctx): (r: seq<YtsHit>)
    ensures forall h :: h in r ==> Admissible(h, ctx.maxSizeGb)
    ensures forall h :: h in r <==> exists i :: 0 <= i < |movies| && MovieAdmitted(movies[i], ctx) && h in MovieHits(movies[i], ctx)
    decreases |movies|
  {
    if |movies| == 0 then []
    else
      var rest := ApiHits(movies[1..], ctx);
      assert forall i :: 1 <= i < |movies| ==> movies[i] == movies[1..][i - 1];
      (if MovieAdmitted(movies[0], ctx) then MovieHits(movies[0], ctx) else []) + rest
  }

  /** `_call_list_movies`: a failed request or a reply without a movie list gives nothing. */
  function ListHits(reply: ListReply, ctx: Ctx): (r: seq<YtsHit>)
    ensures forall h :: h in r ==> Admissible(h, ctx.maxSizeGb)
    ensures reply.ListFailed? ==> r == []
  {
    match reply
    case ListFailed => []
    case MovieList(ms) => ApiHits(ms, ctx)
  }

  datatype ApiParams = ApiParams(queryTerm: string, limit: nat, quality: Option<string>, year: Option<string>)

  /** `base_params`: the quality only when it is one the API knows, the year
      only when its text is all digits. */
  function BaseParams(query: string, resolution: Value, year: Value): (p: ApiParams)
    ensures p.queryTerm == query && p.limit == ApiLimit
    ensures p.quality.Some? <==> resolution.VStr? && LowerStr(resolution.s) in ApiQualities
    ensures p.quality.Some? ==> p.quality.value in ApiQualities
    ensures p.year.Some? ==> Truthy(year) && IsDigitString(p.year.value) && p.year.value == Show(year)
    ensures p.year.None? ==> !Truthy(year) || !IsDigitString(Show(year))
  {
    ApiParams(query, ApiLimit,
              if resolution.VStr? && LowerStr(resolution.s) in ApiQualities then Some(LowerStr(resolution.s)) else None,
              if Truthy(year) && IsDigitString(Show(year)) then Some(Show(year)) else None)
  }

  /** The attempts in order: the base parameters, then without the quality
      (only if it was set), then without the year but with the quality (only
      if the year was set). */
  function FallbackAttempts(base: ApiParams): (r: seq<ApiParams>)
    ensures 1 <= |r| <= 3 && r[0] == base
    ensures |r| == 1 + (if base.quality.Some? then 1 else 0) + (if base.year.Some? then 1 else 0)
    ensures forall i :: 0 <= i < |r| ==> r[i].queryTerm == base.queryTerm && r[i].limit == base.limit
    ensures forall i, j :: 0 <= i < j < |r| ==> r[i] != r[j]
    ensures forall i :: 1 <= i < |r| ==>
      ((r[i].quality.None? && base.quality.Some? && r[i].year == base.year)
       || (r[i].year.None? && base.year.Some? && r[i].quality == base.quality))
  {
    [base]
    + (if base.quality.Some? then [base.(quality := None)] else [])
    + (if base.year.Some? then [base.(year := None)] else [])
  }

  /** The first attempt whose results are not empty. */
  function FirstNonEmpty(attempts: seq<ApiParams>, ctx: Ctx, call: ApiParams -> ListReply): (r: seq<YtsHit>)
    ensures r == [] <==> forall i :: 0 <= i < |attempts| ==> ListHits(call(attempts[i]), ctx) == []
    ensures r != [] ==> exists i ::
      && 0 <= i < |attempts| && r == ListHits(call(attempts[i]), ctx)
      && (forall j :: 0 <= j < i ==> ListHits(call(attempts[j]), ctx) == [])
    ensures forall h :: h in r ==> Admissible(h, ctx.maxSizeGb)
    decreases |attempts|
  {
    if |attempts| == 0 then []
    else
      var first := ListHits(call(attempts[0]), ctx);
      assert forall i :: 1 <= i < |attempts| ==> attempts[i] == attempts[1..][i - 1];
      if first != [] then first else FirstNonEmpty(attempts[1..], ctx, call)
  }

  /** `_api_fallback`. */
  function ApiFallback(ctx: Ctx, call: ApiParams -> ListReply): (r: seq<YtsHit>)
    ensures forall h :: h in r ==> Admissible(h, ctx.maxSizeGb)
  {
    FirstNonEmpty(FallbackAttempts(BaseParams(ctx.query, ctx.resolution, ctx.year)), ctx, call)
  }

  // ---------------------------------------------------------------------------
  // Stage 3: movie details with retries

  datatype MovieDetails = MovieDetails(titleLong: Option<string>, year: Value, torrents: seq<Torrent>)
  /** `data.movie`: absent, or not a non-empty object, reads as `NoMovie`. */
  datatype MovieField = NoMovie | MovieObject(details: MovieDetails)
  datatype DetailsReply = RequestError | DetailsJson(status: Value, movie: MovieField)

  /** A reply passes validation: status "ok", a movie, and at least one torrent. */
  predicate ValidDetails(r: DetailsReply) {
    r.DetailsJson? && r.status == VStr("ok") && r.movie.MovieObject? && |r.movie.details.torrents| > 0
  }

  function Pow2(n: nat): (r: nat)
    ensures r >= 1
  {
    if n == 0 then 1 else 2 * Pow2(n - 1)
  }

  /** The movie of the first valid reply among attempts `k` to three, if any. */
  function FirstValidDetails(url: string, reply: (string, nat) -> DetailsReply, k: nat): (r: Option<MovieDetails>)
    ensures r.Some? ==> exists j :: k <= j <= MaxDetailsAttempts && ValidDetails(reply(url, j)) && r.value == reply(url, j).movie.details
    ensures r.None? ==> forall j :: k <= j <= MaxDetailsAttempts ==> !ValidDetails(reply(url, j))
    decreases MaxDetailsAttempts + 1 - k
  {
    if k > MaxDetailsAttempts then None
    else if ValidDetails(reply(url, k)) then Some(reply(url, k).movie.details)
    else FirstValidDetails(url, reply, k + 1)
  }

  /** The details loop: up to three requests, `reply(url, k)` answering the k-th;
      after each failed one it sleeps 2^(k-1) seconds. */
  method FetchMovieDetails(url: string, reply: (string, nat) -> DetailsReply) returns (details: Option<MovieDetails>, sleeps: seq<nat>)
    ensures details.Some? <==> exists k :: 1 <= k <= MaxDetailsAttempts && ValidDetails(reply(url, k))
    ensures details.Some? ==>
      (|sleeps| < MaxDetailsAttempts && ValidDetails(reply(url, |sleeps| + 1))
       && details.value == reply(url, |sleeps| + 1).movie.details)
    ensures forall k :: 1 <= k <= |sleeps| ==> !ValidDetails(reply(url, k))
    ensures details.None? ==> |sleeps| == MaxDetailsAttempts
    ensures forall i :: 0 <= i < |sleeps| ==> sleeps[i] == Pow2(i)
    ensures details == FirstValidDetails(url, reply, 1)
  {
    sleeps := [];
    var attempt := 1;
    while attempt <= MaxDetailsAttempts
      invariant 1 <= attempt <= MaxDetailsAttempts + 1
      invariant |sleeps| == attempt - 1
      invariant forall i :: 0 <= i < |sleeps| ==> sleeps[i] == Pow2(i)
      invariant forall k :: 1 <= k < attempt ==> !ValidDetails(reply(url, k))
      invariant FirstValidDetails(url, reply, 1) == FirstValidDetails(url, reply, attempt)
    {
      var r := reply(url, attempt);
      if ValidDetails(r) {
        return Some(r.movie.details), sleeps;
      }
      sleeps := sleeps + [Pow2(attempt - 1)];
      attempt := attempt + 1;
    }
    return None, sleeps;
  }

  // ---------------------------------------------------------------------------
  // scrape_yts

  /** The movie page of stage 2: a failed request, or its `data-movie-id` ("" when missing). */
  datatype PageReply = PageFailed | MoviePage(movieId: string)

  /** The outside world: `quote_plus`, the browse pages, `extractOne`,
      `urljoin`, the movie page, the details endpoint and `list_movies`. */
  datatype Env = Env(
    quote: string -> string,
    browse: string -> Option<seq<Wrapper>>,
    extractOne: (string, map<string, string>) -> Option<(string, int, string)>,
    urljoin: (string, string) -> string,
    moviePage: string -> PageReply,
    details: (string, nat) -> DetailsReply,
    listMovies: ApiParams -> ListReply)

  /** `scrape_yts`. */
  method ScrapeYts(query: string, mediaType: string, template: string, year: Value, resolution: Value,
                   maxSizeGb: int, prefs: Option<Scoring.Preferences>, env: Env) returns (r: seq<YtsHit>)
    ensures prefs.None? ==> r == []
    ensures forall h :: h in r ==> Admissible(h, maxSizeGb)
    ensures prefs.Some? ==>
      var yearStr := YearString(year);
      var base := SearchUrl(template, query, mediaType, year, resolution, env.quote);
      var choices := BrowseChoices(base, yearStr, query, env.browse);
      var ctx := Ctx(query, year, resolution, maxSizeGb, prefs.value, env.quote);
      var d := StageOneDecision(choices, yearStr, query, env.extractOne(query, choices));
      && (d.NoResults? ==> r == [])
      && (d.UseApiFallback? ==> r == ApiFallback(ctx, env.listMovies))
      && (d.OpenPage? ==>
            var pageUrl := env.urljoin(base, d.href);
            var page := env.moviePage(pageUrl);
            && (page.PageFailed? ==> r == [])
            && (page.MoviePage? && page.movieId == "" ==> r == ApiFallback(ctx, env.listMovies))
            && (page.MoviePage? && page.movieId != "" ==>
                  var details := FirstValidDetails(DetailsEndpoint + page.movieId, env.details, 1);
                  && (details.None? ==> r == ApiFallback(ctx, env.listMovies))
                  && (details.Some? ==>
                        r == TorrentHits(details.value.torrents, details.value.titleLong.GetOr(query), VStr(pageUrl),
                                         details.value.year, ctx, true))))
  {
    if prefs.None? {
      return [];
    }
    var yearStr := YearString(year);
    var base := SearchUrl(template, query, mediaType, year, resolution, env.quote);
    var choices := BrowseChoices(base, yearStr, query, env.browse);
    var ctx := Ctx(query, year, resolution, maxSizeGb, prefs.value, env.quote);
    var fallback := ApiFallback(ctx, env.listMovies);
    match StageOneDecision(choices, yearStr, query, env.extractOne(query, choices))
    case NoResults => r := [];
    case UseApiFallback => r := fallback;
    case OpenPage(href) =>
      var pageUrl := env.urljoin(base, href);
      match env.moviePage(pageUrl)
      case PageFailed => r := [];
      case MoviePage(movieId) =>
        if movieId == "" {
          r := fallback;
        } else {
          var apiUrl := DetailsEndpoint + movieId;
          var details, _ := FetchMovieDetails(apiUrl, env.details);
          match details
          case None => r := fallback;
          case Some(movie) =>
            r := TorrentHits(movie.torrents, movie.titleLong.GetOr(query), VStr(pageUrl), movie.year, ctx, true);
        }
  }
}
