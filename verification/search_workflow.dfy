/** `telegram_bot/workflows/search_workflow.py`: the decisions of the guided
    search conversation. The Telegram messages, keyboards and the searches
    themselves are left to the caller; what is modelled is what each reply or
    button does to the conversation and which results survive each filter.
    Search results are the `Json` records the search session stores. */
module SearchWorkflow {
  import opened Wrappers
  import opened Strings
  import opened SearchSession
  import opened Seqs
  import TextMatch
  import SearchParser
  import Config

  // ---------------------------------------------------------------------------
  // Reading a search result

  /** `r.get("title", "")` as a string: `None` when `r` is not a dictionary or
      its title is not a string (the `.get` or the `.lower()` raises). */
  function TitleText(r: Json): (t: Option<string>)
    ensures t.Some? <==> r.JObj? && ("title" !in r.fields || r.fields["title"].JStr?)
    ensures r.JObj? && "title" !in r.fields ==> t == Some("")
  {
    if !r.JObj? then None
    else if "title" !in r.fields then Some("")
    else match r.fields["title"]
      case JStr(s) => Some(s)
      case _ => None
  }

  /** Every result has a readable title. */
  predicate Readable(results: seq<Json>) {
    forall k :: 0 <= k < |results| ==> TitleText(results[k]).Some?
  }

  // ---------------------------------------------------------------------------
  // _filter_results_by_resolution

  /** The title markers a (lower-cased) resolution accepts. */
  function Patterns(res: string): (ps: seq<string>)
    ensures res == "2160p" ==> ps == ["2160p", "4k"]
    ensures res != "2160p" ==> ps == [res]
  {
    if res == "2160p" then ["2160p", "4k"]
    else if res == "1080p" then ["1080p"]
    else if res == "720p" then ["720p"]
    else [res]
  }

  /** Some marker occurs in the lower-cased title. */
  predicate TitleHas(title: string, ps: seq<string>) {
    exists k :: 0 <= k < |ps| && Contains(LowerStr(title), ps[k])
  }

  /** The result is kept by the filter for the lower-cased resolution `res`. */
  predicate KeptFor(res: string, r: Json) {
    TitleText(r).Some? && TitleHas(TitleText(r).value, Patterns(res))
  }

  /** `_filter_results_by_resolution`: the results whose lower-cased title
      contains a marker of the resolution, in their original order; it raises
      (`Err`) when some result has no readable title. */
  function FilterByResolution(results: seq<Json>, resolution: string): (r: Result<seq<Json>, ()>)
    ensures r.Err? <==> !Readable(results)
    ensures r.Ok? ==> forall x :: x in r.value <==> x in results && KeptFor(LowerStr(resolution), x)
    ensures r.Ok? ==> forall x :: multiset(r.value)[x] == if KeptFor(LowerStr(resolution), x) then multiset(results)[x] else 0
  {
    if !Readable(results) then Err(())
    else
      var res := LowerStr(resolution);
      Ok(Filter(results, x => KeptFor(res, x)))
  }

  /** The filter keeps the original order: filtering two batches one after the
      other is filtering their concatenation. */
  lemma FilterByResolutionAppend(a: seq<Json>, b: seq<Json>, resolution: string)
    requires Readable(a) && Readable(b)
    ensures FilterByResolution(a + b, resolution) == Ok(FilterByResolution(a, resolution).value + FilterByResolution(b, resolution).value)
  {
    var res := LowerStr(resolution);
    assert Readable(a + b) by {
      forall k | 0 <= k < |a + b| ensures TitleText((a + b)[k]).Some? {
        if k < |a| { assert (a + b)[k] == a[k]; } else { assert (a + b)[k] == b[k - |a|]; }
      }
    }
    FilterAppend(a, b, x => KeptFor(res, x));
  }

  /** A marker written in capitals still counts: the 2160p filter keeps a title
      containing "4K". */
  lemma UpperFourKKept(r: Json, i: nat)
    requires TitleText(r).Some? && OccursAt(TitleText(r).value, "4K", i)
    ensures KeptFor("2160p", r)
  {
    var t := TitleText(r).value;
    var l := LowerStr(t);
    assert l[i] == Lower(t[i]) == '4';
    assert l[i + 1] == Lower(t[i + 1]) == 'k';
    assert l[i..i + 2] == "4k";
    ContainsAt(l, "4k", i);
    assert Patterns("2160p")[1] == "4k";
  }

  // ---------------------------------------------------------------------------
  // _handle_resolution_button

  /** The resolution a button's callback data selects. */
  function ResolutionOf(data: string): (r: string)
    ensures r == "2160p" <==> Contains(data, "2160p") || Contains(data, "4k")
    ensures r == "720p" <==> !Contains(data, "2160p") && !Contains(data, "4k") && Contains(data, "720p")
    ensures r == "1080p" <==> !Contains(data, "2160p") && !Contains(data, "4k") && !Contains(data, "720p")
  {
    if Contains(data, "2160p") || Contains(data, "4k") then "2160p"
    else if Contains(data, "720p") then "720p"
    else "1080p"
  }

  /** The callback data of the resolution buttons (movie: 1080p and 4K; TV:
      1080p and 720p). */
  const ButtonPrefix := "search_resolution_"
  const Button1080 := ButtonPrefix + "1080p"
  const Button4k := ButtonPrefix + "4k"
  const Button720 := ButtonPrefix + "720p"

  /** A digit that the tail of a button's data lacks is absent from the whole
      data: the prefix holds no digit. */
  lemma DigitNotInButton(tail: string, c: char)
    requires IsDigit(c) && c !in tail
    ensures c !in ButtonPrefix + tail
  {
    assert forall i :: 0 <= i < |ButtonPrefix| ==> !IsDigit(ButtonPrefix[i]);
    var s := ButtonPrefix + tail;
    forall i | 0 <= i < |s|
      ensures s[i] != c
    {
      if i < |ButtonPrefix| {
        assert s[i] == ButtonPrefix[i];
      } else {
        assert s[i] == tail[i - |ButtonPrefix|];
      }
    }
  }

  /** The 4K button selects 2160p. */
  lemma FourKButtonSelects2160()
    ensures ResolutionOf(Button4k) == "2160p"
  {
    assert Button4k[18..20] == "4k";
    ContainsAt(Button4k, "4k", 18);
  }

  /** The 720p button selects 720p. */
  lemma Button720Selects720()
    ensures ResolutionOf(Button720) == "720p"
  {
    assert Button720[18..22] == "720p";
    ContainsAt(Button720, "720p", 18);
    DigitNotInButton("720p", '6');
    NotContains(Button720, "2160p", 2);
    DigitNotInButton("720p", '4');
    NotContains(Button720, "4k", 0);
  }

  /** The 1080p button selects 1080p. */
  lemma Button1080Selects1080()
    ensures ResolutionOf(Button1080) == "1080p"
  {
    DigitNotInButton("1080p", '6');
    NotContains(Button1080, "2160p", 2);
    DigitNotInButton("1080p", '4');
    NotContains(Button1080, "4k", 0);
    DigitNotInButton("1080p", '7');
    NotContains(Button1080, "720p", 0);
  }

  /** A selected resolution, read back as callback data, selects itself. */
  lemma ResolutionOfIdempotent(data: string)
    ensures ResolutionOf(ResolutionOf(data)) == ResolutionOf(data)
  {
    var r := ResolutionOf(data);
    if r == "2160p" {
      ContainsSelf("2160p");
    } else if r == "720p" {
      ContainsSelf("720p");
      NotContains("720p", "2160p", 2);
      NotContains("720p", "4k", 0);
    } else {
      NotContains("1080p", "2160p", 0);
      NotContains("1080p", "4k", 0);
      NotContains("1080p", "720p", 0);
    }
  }

  /** A string lacking one of the characters of `sub` does not contain it. */
  lemma NotContains(s: string, sub: string, j: nat)
    requires j < |sub| && sub[j] !in s
    ensures !Contains(s, sub)
  {
    forall i | 0 <= i && i + |sub| <= |s|
      ensures !OccursAt(s, sub, i)
    {
      assert s[i..i + |sub|][j] == s[i + j];
      assert s[i + j] != sub[j];
    }
    ContainsIff(s, sub);
  }

  /** The resolution buttons and the result filter agree: a title that, read as
      callback data, would select 2160p is exactly one the 2160p filter keeps. */
  lemma SelectorAgreesWithFilter(r: Json)
    requires TitleText(r).Some?
    ensures ResolutionOf(LowerStr(TitleText(r).value)) == "2160p" <==> KeptFor("2160p", r)
  {
    var l := LowerStr(TitleText(r).value);
    var ps := Patterns("2160p");
    assert ps[0] == "2160p" && ps[1] == "4k";
    if Contains(l, "2160p") || Contains(l, "4k") {
      assert Contains(l, ps[0]) || Contains(l, ps[1]);
    }
  }

  // ---------------------------------------------------------------------------
  // Season packs (_perform_tv_season_search_with_resolution)

  /** `s\d{1,2}e\d{1,2}` matches at `i` of a lower-cased title. */
  predicate EpisodeMarkerAt(t: string, i: int) {
    0 <= i && i + 3 < |t| && t[i] == 's' && IsDigit(t[i + 1])
    && ((t[i + 2] == 'e' && IsDigit(t[i + 3]))
        || (i + 4 < |t| && IsDigit(t[i + 2]) && t[i + 3] == 'e' && IsDigit(t[i + 4])))
  }

  predicate HasEpisodeMarker(t: string) {
    exists i :: 0 <= i < |t| && EpisodeMarkerAt(t, i)
  }

  /** `f"s{season:02d} "`. */
  function SeasonToken(season: int): (tok: string)
    ensures |tok| >= 4 && tok[0] == 's' && tok[|tok| - 1] == ' '
  {
    "s" + Pad2(season) + " "
  }

  /** A season-pack title: a pack word or the season token, and no episode
      marker, all in the lower-cased title. */
  predicate PackTitle(title: string, season: int) {
    var t := LowerStr(title);
    (Contains(t, "complete") || Contains(t, "collection") || Contains(t, "season pack") || Contains(t, SeasonToken(season)))
    && !HasEpisodeMarker(t)
  }

  predicate IsPack(season: int, r: Json) {
    TitleText(r).Some? && PackTitle(TitleText(r).value, season)
  }

  /** `x.get("score", 0)`: integer scores as they are, booleans as 0/1, and
      anything else as 0. */
  function ScoreOf(r: Json): int {
    if !r.JObj? || "score" !in r.fields then 0
    else match r.fields["score"]
      case JInt(i) => i
      case JBool(b) => if b then 1 else 0
      case _ => 0
  }

  /** `max(xs, key=score)`: the index of the first result with the highest
      score. */
  function BestIndex(xs: seq<Json>): (k: nat)
    requires |xs| > 0
    ensures k < |xs|
    ensures forall j :: 0 <= j < |xs| ==> ScoreOf(xs[j]) <= ScoreOf(xs[k])
    ensures forall j :: 0 <= j < k ==> ScoreOf(xs[j]) < ScoreOf(xs[k])
  {
    if |xs| == 1 then 0
    else
      var k := BestIndex(xs[..|xs| - 1]);
      assert forall j :: 0 <= j < |xs| - 1 ==> xs[..|xs| - 1][j] == xs[j];
      if ScoreOf(xs[|xs| - 1]) > ScoreOf(xs[k]) then |xs| - 1 else k
  }

  /** The two properties pin the choice down: only one index has the highest
      score with every earlier score strictly lower. */
  lemma BestIndexUnique(xs: seq<Json>, k: nat)
    requires k < |xs|
    requires forall j :: 0 <= j < |xs| ==> ScoreOf(xs[j]) <= ScoreOf(xs[k])
    requires forall j :: 0 <= j < k ==> ScoreOf(xs[j]) < ScoreOf(xs[k])
    ensures k == BestIndex(xs)
  {
    var b := BestIndex(xs);
    assert ScoreOf(xs[b]) <= ScoreOf(xs[k]) && ScoreOf(xs[k]) <= ScoreOf(xs[b]);
  }

  /** The season pack chosen among the results: `Ok(None)` when no result is
      a pack candidate, `Err` when some title cannot be read. */
  function SeasonPack(results: seq<Json>, season: int): (r: Result<Option<Json>, ()>)
    ensures r.Err? <==> !Readable(results)
    ensures r == Ok(None) <==> Readable(results) && forall x :: x in results ==> !IsPack(season, x)
    ensures r.Ok? && r.value.Some? ==>
      var p := r.value.value;
      p in results && IsPack(season, p)
      && forall x :: x in results && IsPack(season, x) ==> ScoreOf(x) <= ScoreOf(p)
  {
    if !Readable(results) then Err(())
    else
      var cands := Filter(results, x => IsPack(season, x));
      if |cands| == 0 then
        Ok(None)
      else
        var k := BestIndex(cands);
        assert forall x :: x in results && IsPack(season, x) ==> ScoreOf(x) <= ScoreOf(cands[k]) by {
          forall x | x in results && IsPack(season, x) ensures ScoreOf(x) <= ScoreOf(cands[k]) {
            assert x in cands;
            var j :| 0 <= j < |cands| && cands[j] == x;
          }
        }
        Ok(Some(cands[k]))
  }

  /** An episode release ("<show> SnnEmm") is never taken for a season pack,
      whatever words its show title contains. */
  lemma EpisodeTitleIsNoPack(show: string, n: nat, m: nat, season: int)
    requires n < 100 && m < 100
    ensures !PackTitle(show + " S" + Pad2(n) + "E" + Pad2(m), season)
  {
    var title := show + " S" + Pad2(n) + "E" + Pad2(m);
    var t := LowerStr(title);
    var i := |show| + 1;
    assert title[i] == 'S' && title[i + 3] == 'E';
    assert title[i + 1] == Pad2(n)[0] && title[i + 2] == Pad2(n)[1];
    assert title[i + 4] == Pad2(m)[0];
    assert EpisodeMarkerAt(t, i);
  }

  // ---------------------------------------------------------------------------
  // Text replies (_handle_movie_year_reply, _handle_tv_season_reply,
  // _handle_tv_episode_reply)

  /** What a reply or a button leads to: the conversation context was lost, the
      bot reports the input as invalid and asks again, or it is accepted. */
  datatype Reply<T> = ContextLost | Retry | Accept(value: T)

  /** The title kept in the conversation is set and non-empty. */
  predicate HasTitle(title: Option<string>) {
    title.Some? && title.value != ""
  }

  /** `f"{title} ({year})"`. */
  function WithYear(title: string, year: string): string {
    title + " (" + year + ")"
  }

  /** `f"{title} S{season:02d}E{episode:02d}"`. */
  function EpisodeTerm(title: string, season: int, episode: int): string {
    title + " S" + Pad2(season) + "E" + Pad2(episode)
  }

  /** The movie year reply: a lost title ends the conversation, a reply that is
      not exactly four digits is asked again, anything else completes the
      title as "title (year)". */
  function YearReply(title: Option<string>, query: string): (r: Reply<string>)
    ensures r.ContextLost? <==> !HasTitle(title)
    ensures r.Accept? <==> HasTitle(title) && IsDigitString(query) && |query| == 4
    ensures r.Accept? ==> r.value == WithYear(title.value, query)
  {
    if !HasTitle(title) then ContextLost
    else if !(IsDigitString(query) && |query| == 4) then Retry
    else Accept(WithYear(title.value, query))
  }

  /** The season reply: asked again when the title is lost or the reply is not
      all digits, otherwise the season is the reply's value. */
  function SeasonReply(title: Option<string>, query: string): (r: Reply<nat>)
    ensures !r.ContextLost?
    ensures r.Retry? <==> !HasTitle(title) || !IsDigitString(query)
    ensures r.Accept? ==> IsDigitString(query) && r.value == DigitsValue(query)
  {
    if !HasTitle(title) || !IsDigitString(query) then Retry
    else Accept(DigitsValue(query))
  }

  /** A season typed as its decimal number is read back as that number. */
  lemma SeasonReplyRoundTrip(title: Option<string>, n: nat)
    requires HasTitle(title)
    ensures SeasonReply(title, NatToString(n)) == Accept(n)
  {
  }

  /** The episode reply: asked again when the title or the season is missing
      or the reply is not all digits, otherwise the search term
      "title SnnEmm". */
  function EpisodeReply(title: Option<string>, season: Option<int>, query: string): (r: Reply<string>)
    ensures !r.ContextLost?
    ensures r.Retry? <==> !HasTitle(title) || season.None? || !IsDigitString(query)
    ensures r.Accept? ==> r.value == EpisodeTerm(title.value, season.value, DigitsValue(query))
  {
    if !HasTitle(title) || season.None? || !IsDigitString(query) then Retry
    else Accept(EpisodeTerm(title.value, season.value, DigitsValue(query)))
  }

  /** The episode search term the conversation builds is read back by the
      search-query parser as the same title, season and episode. */
  lemma EpisodeTermParsesBack(title: string, season: nat, query: string)
    requires SearchParser.PlainTitle(title) && season < 100
    requires IsDigitString(query) && DigitsValue(query) < 100
    ensures EpisodeReply(Some(title), Some(season), query).Accept?
    ensures SearchParser.ParseSearchQuery(Some(EpisodeReply(Some(title), Some(season), query).value))
            == SearchParser.ParsedSearchQuery(title, None, Some(season), Some(DigitsValue(query)))
  {
    var m := DigitsValue(query);
    EpisodeReplyIsQuery(title, season, query);
    SearchParser.EpisodeQueryRoundTrip(title, season, m);
  }

  lemma EpisodeReplyIsQuery(title: string, season: nat, query: string)
    requires title != "" && IsDigitString(query)
    ensures EpisodeReply(Some(title), Some(season), query) == Accept(SearchParser.EpisodeQuery(title, season, DigitsValue(query)))
  {
  }

  // ---------------------------------------------------------------------------
  // _handle_movie_title_reply

  predicate WordOrSpace(c: char) {
    IsWordChar(c) || IsSpace(c)
  }

  /** `re.sub(r"[^\w\s]", "", s).strip()`. */
  function CleanTitle(s: string): (r: string)
    ensures forall i :: 0 <= i < |r| ==> WordOrSpace(r[i])
    ensures |r| == 0 || (!IsSpace(r[0]) && !IsSpace(r[|r| - 1]))
  {
    var kept := Filter(s, WordOrSpace);
    StripCharsKeeps(kept, Whitespace, WordOrSpace);
    Strip(kept)
  }

  /** Where a movie title reply leads: straight to the resolution prompt when
      the reply names a year, or to a search for the title's years. */
  datatype TitleStep = ToResolution(fullTitle: string) | ToYearSearch(title: string)

  /** The movie title reply: with a 19xx/20xx year standing as a word, the
      cleaned text before it and the year make the full title; without one the
      cleaned reply is searched for its years. */
  function MovieTitleReply(query: string): (r: TitleStep)
    ensures r.ToYearSearch? <==> TextMatch.FindYear(query, 0).None?
    ensures r.ToYearSearch? ==> r.title == CleanTitle(query)
    ensures r.ToResolution? ==>
      var p := TextMatch.FindYear(query, 0).value;
      r.fullTitle == WithYear(CleanTitle(query[..p]), query[p..p + 4])
  {
    match TextMatch.FindYear(query, 0)
    case Some(p) => ToResolution(WithYear(CleanTitle(query[..p]), TextMatch.YearText(query, p)))
    case None => ToYearSearch(CleanTitle(query))
  }

  /** A 19xx or 20xx year. */
  predicate ModernYear(y: string) {
    |y| == 4 && IsDigitString(y) && (y[..2] == "19" || y[..2] == "20")
  }

  /** Typing "Title 1999" at once leads to the same full title as typing
      "Title" and then the year. */
  lemma InlineYearAgreesWithYearReply(title: string, y: string)
    requires SearchParser.PlainTitle(title) && ModernYear(y)
    ensures MovieTitleReply(title + " " + y) == ToResolution(WithYear(title, y))
    ensures YearReply(Some(title), y) == Accept(WithYear(title, y))
  {
    var q := title + " " + y;
    var p := |title| + 1;
    InlineYearFound(title, y);
    assert q[..p] == title + " " && TextMatch.YearText(q, p) == y by {
      assert q[..p] == title + " ";
    }
    CleanPlainTitle(title);
  }

  /** Cleaning a plain title followed by a space gives the title back. */
  lemma CleanPlainTitle(title: string)
    requires SearchParser.PlainTitle(title)
    ensures CleanTitle(title + " ") == title
  {
    FilterKeepsAll(title + " ", WordOrSpace);
    StripTrailingSpace(title);
  }

  /** The year after a plain title is the first year match of the reply. */
  lemma InlineYearFound(title: string, y: string)
    requires SearchParser.PlainTitle(title) && ModernYear(y)
    ensures TextMatch.FindYear(title + " " + y, 0) == Some(|title| + 1)
  {
    YearAfterTitle(title, y);
    NoYearInTitle(title, y);
  }

  /** A modern year after a plain title and a space is a year match. */
  lemma YearAfterTitle(title: string, y: string)
    requires SearchParser.PlainTitle(title) && ModernYear(y)
    ensures TextMatch.YearAt(title + " " + y, |title| + 1)
  {
    var q := title + " " + y;
    var p := |title| + 1;
    Seqs.DropPrefix(title + " ", y);
    assert q[p..] == y;
    assert q[p..p + 2] == y[..2];
  }

  /** No year match starts inside a plain title or at the space after it. */
  lemma NoYearInTitle(title: string, y: string)
    requires SearchParser.PlainTitle(title)
    ensures forall i :: 0 <= i < |title| + 1 ==> !TextMatch.YearAt(title + " " + y, i)
  {
    var q := title + " " + y;
    forall i | 0 <= i < |title| + 1
      ensures !TextMatch.YearAt(q, i)
    {
      if i < |title| {
        assert q[i] == title[i];
      } else {
        assert q[i] == ' ';
      }
      NoYearAtNonDigit(q, i);
    }
  }

  /** No year match starts at a character that is not a digit. */
  lemma NoYearAtNonDigit(q: string, i: nat)
    requires i < |q| && !IsDigit(q[i])
    ensures !TextMatch.YearAt(q, i)
  {
    if i + 2 <= |q| {
      assert q[i..i + 2][0] == q[i];
    }
  }

  // ---------------------------------------------------------------------------
  // The movie search of _handle_resolution_button

  /** `\((\d{4})\)` matches at `i`. */
  predicate ParenYearAt(s: string, i: int) {
    0 <= i && i + 6 <= |s| && s[i] == '(' && AllDigits(s[i + 1..i + 5]) && s[i + 5] == ')'
  }

  /** The leftmost match of `\((\d{4})\)` at or after `from`. */
  function FindParenYear(s: string, from: nat): (r: Option<nat>)
    requires from <= |s|
    ensures r.Some? ==> from <= r.value && ParenYearAt(s, r.value)
    ensures r.Some? ==> forall q :: from <= q < r.value ==> !ParenYearAt(s, q)
    ensures r.None? ==> forall q :: from <= q ==> !ParenYearAt(s, q)
    decreases |s| - from
  {
    if from + 6 > |s| then None
    else if ParenYearAt(s, from) then Some(from)
    else FindParenYear(s, from + 1)
  }

  /** The title and year a movie search is run with: the text before the first
      "(", stripped, and the four digits of the first "(dddd)". */
  function MovieSearchArgs(finalTitle: string): (r: (string, Option<string>))
    ensures r.0 == Strip(SplitOn(finalTitle, '(')[0])
    ensures r.1.Some? <==> exists i :: ParenYearAt(finalTitle, i)
    ensures r.1.Some? ==> |r.1.value| == 4 && AllDigits(r.1.value)
  {
    var year := match FindParenYear(finalTitle, 0)
      case Some(i) => Some(finalTitle[i + 1..i + 5])
      case None => None;
    (Strip(SplitOn(finalTitle, '(')[0]), year)
  }

  /** Splitting at the first separator gives the text before it, then the
      split of the rest. */
  lemma {:induction false} SplitOnFirst(a: string, b: string, sep: char)
    requires sep !in a
    ensures SplitOn(a + [sep] + b, sep) == [a] + SplitOn(b, sep)
    decreases |a|
  {
    var s := a + [sep] + b;
    if |a| == 0 {
      assert s == [sep] + b;
      assert s[1..] == b;
    } else {
      assert s[0] == a[0];
      assert s[1..] == a[1..] + [sep] + b;
      SplitOnFirst(a[1..], b, sep);
      assert [a[0]] + a[1..] == a;
    }
  }

  /** A string without the separator splits into itself. */
  lemma {:induction false} SplitOnNone(s: string, sep: char)
    requires sep !in s
    ensures SplitOn(s, sep) == [s]
    decreases |s|
  {
    if |s| > 0 {
      SplitOnNone(s[1..], sep);
      assert [s[0]] + s[1..] == s;
    }
  }

  /** The search started from a completed movie title runs with the title and
      the year the conversation collected. */
  lemma MovieSearchRecoversTitleAndYear(title: string, y: string)
    requires SearchParser.PlainTitle(title) && |y| == 4 && IsDigitString(y)
    ensures MovieSearchArgs(WithYear(title, y)) == (title, Some(y))
  {
    var f := WithYear(title, y);
    var p := |title| + 1;
    assert f == (title + " ") + ['('] + (y + ")");
    assert '(' !in title + " " by {
      forall i | 0 <= i < |title + " "| ensures (title + " ")[i] != '(' {
        if i < |title| { assert (title + " ")[i] == title[i]; }
      }
    }
    SplitOnFirst(title + " ", y + ")", '(');
    StripTrailingSpace(title);
    assert f[p + 1..p + 5] == y;
    assert ParenYearAt(f, p);
    forall i | 0 <= i < p
      ensures !ParenYearAt(f, i)
    {
      assert f[i] != '(';
    }
    assert FindParenYear(f, 0) == Some(p);
  }

  // ---------------------------------------------------------------------------
  // Search callbacks (handle_search_buttons)

  /** The handler a button's callback data is routed to. */
  datatype Handler = StartHandler | ResolutionHandler | ScopeHandler | YearHandler | ResultHandler | Unhandled

  /** Routing by prefix, matched in order: the year-selection prefix is matched
      before the result-selection prefix it extends. */
  function Route(action: string): (h: Handler)
    ensures h == YearHandler <==> !StartsWith(action, "search_start_") && !StartsWith(action, "search_resolution_")
                                  && !StartsWith(action, "search_tv_scope_") && StartsWith(action, "search_select_year_")
    ensures h == Unhandled ==> !StartsWith(action, "search_select_")
  {
    if StartsWith(action, "search_start_") then StartHandler
    else if StartsWith(action, "search_resolution_") then ResolutionHandler
    else if StartsWith(action, "search_tv_scope_") then ScopeHandler
    else if StartsWith(action, "search_select_year_") then YearHandler
    else if StartsWith(action, "search_select_") then ResultHandler
    else Unhandled
  }

  const YearButtonPrefix := "search_select_year_"
  const ResultButtonPrefix := "search_select_"

  /** The callback data of the year button for `year`. */
  function YearButton(year: string): string {
    YearButtonPrefix + year
  }

  /** The callback data of the `i`-th result button. */
  function ResultButton(i: nat): string {
    ResultButtonPrefix + NatToString(i)
  }

  /** The three prefixes the selection buttons do not carry. */
  lemma NotOtherPrefixes(s: string)
    requires StartsWith(s, ResultButtonPrefix)
    ensures !StartsWith(s, "search_start_") && !StartsWith(s, "search_resolution_") && !StartsWith(s, "search_tv_scope_")
  {
    assert s[8] == 'e';
    assert s[7] == 's';
  }

  /** Year buttons reach the year handler, result buttons the result handler,
      and resolution buttons the resolution handler. */
  lemma ButtonsRouted(year: string, i: nat)
    ensures Route(YearButton(year)) == YearHandler
    ensures Route(ResultButton(i)) == ResultHandler
    ensures Route(Button4k) == ResolutionHandler && Route(Button720) == ResolutionHandler && Route(Button1080) == ResolutionHandler
  {
    var y := YearButton(year);
    assert y[..|ResultButtonPrefix|] == ResultButtonPrefix;
    NotOtherPrefixes(y);
    assert y[..|YearButtonPrefix|] == YearButtonPrefix;
    var b := ResultButton(i);
    assert b[..|ResultButtonPrefix|] == ResultButtonPrefix;
    NotOtherPrefixes(b);
    assert b[|ResultButtonPrefix|] == NatToString(i)[0];
    assert !StartsWith(b, YearButtonPrefix) by {
      assert IsDigit(b[14]);
      assert YearButtonPrefix[14] == 'y';
    }
    assert Button4k[..18] == "search_resolution_";
    assert Button720[..18] == "search_resolution_";
    assert Button1080[..18] == "search_resolution_";
    assert !StartsWith(Button4k, "search_start_") by { assert Button4k[7] == 'r'; }
    assert !StartsWith(Button720, "search_start_") by { assert Button720[7] == 'r'; }
    assert !StartsWith(Button1080, "search_start_") by { assert Button1080[7] == 'r'; }
  }

  /** The year button handler: the year is the fourth `_`-separated field of
      the callback data. */
  function YearSelection(title: Option<string>, data: string): (r: Reply<string>)
    ensures r.ContextLost? <==> !HasTitle(title)
    ensures r.Retry? <==> HasTitle(title) && |SplitOn(data, '_')| < 4
    ensures r.Accept? ==> r.value == WithYear(title.value, SplitOn(data, '_')[3])
  {
    if !HasTitle(title) then ContextLost
    else
      var parts := SplitOn(data, '_');
      if |parts| < 4 then Retry else Accept(WithYear(title.value, parts[3]))
  }

  /** Pressing the button offered for a year completes the title with that
      year, as typing the year would. */
  lemma YearButtonRoundTrip(title: string, y: string)
    requires title != "" && '_' !in y
    ensures YearSelection(Some(title), YearButton(y)) == Accept(WithYear(title, y))
  {
    assert YearButton(y) == "search" + ['_'] + ("select" + ['_'] + ("year" + ['_'] + y));
    SplitOnFirst("search", "select" + ['_'] + ("year" + ['_'] + y), '_');
    SplitOnFirst("select", "year" + ['_'] + y, '_');
    SplitOnFirst("year", y, '_');
    SplitOnNone(y, '_');
  }

  // ---------------------------------------------------------------------------
  // _process_preliminary_results

  /** Python's `<` on strings: lexicographic by code point, a proper prefix
      coming first. */
  predicate Less(a: string, b: string)
    decreases |a|
  {
    |b| > 0 && (|a| == 0 || a[0] < b[0] || (a[0] == b[0] && Less(a[1..], b[1..])))
  }

  lemma {:induction false} LessIrreflexive(a: string)
    ensures !Less(a, a)
    decreases |a|
  {
    if |a| > 0 {
      LessIrreflexive(a[1..]);
    }
  }

  lemma {:induction false} LessTransitive(a: string, b: string, c: string)
    requires Less(a, b) && Less(b, c)
    ensures Less(a, c)
    decreases |a|
  {
    if |a| > 0 && a[0] == b[0] && b[0] == c[0] {
      LessTransitive(a[1..], b[1..], c[1..]);
    }
  }

  lemma {:induction false} LessTotal(a: string, b: string)
    requires a != b
    ensures Less(a, b) || Less(b, a)
    decreases |a|
  {
    if |a| > 0 && |b| > 0 && a[0] == b[0] {
      assert a == [a[0]] + a[1..] && b == [b[0]] + b[1..];
      LessTotal(a[1..], b[1..]);
    }
  }

  /** Strictly ascending, hence without duplicates. */
  predicate Ascending(s: seq<string>) {
    forall i, j :: 0 <= i < j < |s| ==> Less(s[i], s[j])
  }

  /** Inserts `x` into an ascending list unless it is already there. */
  function Insert(x: string, s: seq<string>): (r: seq<string>)
    requires Ascending(s)
    ensures Ascending(r)
    ensures forall y :: y in r <==> y in s || y == x
  {
    if |s| == 0 then [x]
    else if x == s[0] then s
    else if Less(x, s[0]) then
      assert forall j :: 0 <= j < |s| ==> Less(x, s[j]) by {
        forall j | 0 < j < |s| ensures Less(x, s[j]) {
          LessTransitive(x, s[0], s[j]);
        }
      }
      [x] + s
    else
      LessTotal(x, s[0]);
      var rest := Insert(x, s[1..]);
      assert forall y :: y in rest ==> Less(s[0], y) by {
        forall y | y in rest ensures Less(s[0], y) {
          if y != x {
            var j :| 0 <= j < |s[1..]| && s[1..][j] == y;
            assert s[j + 1] == y;
          }
        }
      }
      assert s == [s[0]] + s[1..];
      [s[0]] + rest
  }

  lemma {:induction false} LessAsymmetric(a: string, b: string)
    ensures !(Less(a, b) && Less(b, a))
    decreases |a|
  {
    if |a| > 0 && |b| > 0 && a[0] == b[0] {
      LessAsymmetric(a[1..], b[1..]);
    }
  }

  /** The head of an ascending list comes before every other element. */
  lemma AscendingHead(s: seq<string>, y: string)
    requires Ascending(s) && |s| > 0 && y in s
    ensures y == s[0] || Less(s[0], y)
  {
    var j :| 0 <= j < |s| && s[j] == y;
    assert j == 0 || Less(s[0], s[j]);
  }

  /** Two ascending lists with the same elements are the same list: the
      ascending list of a set of strings is unique. */
  lemma {:induction false} AscendingUnique(s: seq<string>, t: seq<string>)
    requires Ascending(s) && Ascending(t)
    requires forall y :: y in s <==> y in t
    ensures s == t
    decreases |s|
  {
    assert |t| == 0 || t[0] in t;
    assert |s| == 0 || s[0] in s;
    if |s| > 0 {
      AscendingHead(s, t[0]);
      AscendingHead(t, s[0]);
      LessAsymmetric(s[0], t[0]);
      assert s[0] == t[0];
      forall y ensures y in s[1..] <==> y in t[1..] {
        AscendingTail(s, y);
        AscendingTail(t, y);
      }
      AscendingUnique(s[1..], t[1..]);
      assert s == [s[0]] + s[1..] && t == [t[0]] + t[1..];
    }
  }

  /** In an ascending list, the tail holds every element but the head. */
  lemma AscendingTail(s: seq<string>, y: string)
    requires Ascending(s) && |s| > 0
    ensures y in s[1..] <==> y in s && y != s[0]
  {
    if y in s[1..] {
      var j :| 0 <= j < |s[1..]| && s[1..][j] == y;
      assert Less(s[0], s[j + 1]);
      LessIrreflexive(s[0]);
    }
    if y in s && y != s[0] {
      var j :| 0 <= j < |s| && s[j] == y;
      assert s[1..][j - 1] == y;
    }
  }

  /** `str(result["year"])` when `result.get("year")` is truthy, else `None`.
      Years are integers or strings; a truthy year of another type is read as
      no year. */
  function YearOf(r: Json): (y: Option<string>)
    requires r.JObj?
  {
    if "year" !in r.fields then None
    else match r.fields["year"]
      case JInt(i) => if i == 0 then None else Some(IntToString(i))
      case JStr(s) => if s == "" then None else Some(s)
      case JBool(b) => if b then Some("True") else None
      case _ => None
  }

  predicate AllDicts(results: seq<Json>) {
    forall k :: 0 <= k < |results| ==> results[k].JObj?
  }

  /** `sorted({str(r["year"]) for r in results if r.get("year")})`. */
  function SortedYears(results: seq<Json>): (ys: seq<string>)
    requires AllDicts(results)
    ensures Ascending(ys)
    ensures forall y :: y in ys <==> exists k :: 0 <= k < |results| && YearOf(results[k]) == Some(y)
  {
    if |results| == 0 then []
    else
      var last := results[|results| - 1];
      var init := results[..|results| - 1];
      var ys := SortedYears(init);
      YearsSplit(results);
      match YearOf(last)
      case Some(y) => Insert(y, ys)
      case None => ys
  }

  /** The years of all results are those of all but the last, plus the last one's. */
  lemma YearsSplit(results: seq<Json>)
    requires AllDicts(results) && |results| > 0
    ensures var init := results[..|results| - 1];
      forall y :: (exists k :: 0 <= k < |results| && YearOf(results[k]) == Some(y))
                  <==> (exists k :: 0 <= k < |init| && YearOf(init[k]) == Some(y)) || YearOf(results[|results| - 1]) == Some(y)
  {
    var init := results[..|results| - 1];
    var last := results[|results| - 1];
    assert forall k :: 0 <= k < |init| ==> init[k] == results[k];
    forall y ensures (exists k :: 0 <= k < |results| && YearOf(results[k]) == Some(y))
                     ==> (exists k :: 0 <= k < |init| && YearOf(init[k]) == Some(y)) || YearOf(last) == Some(y) {
      if exists k :: 0 <= k < |results| && YearOf(results[k]) == Some(y) {
        var k :| 0 <= k < |results| && YearOf(results[k]) == Some(y);
        if k < |init| { assert YearOf(init[k]) == Some(y); }
      }
    }
  }

  /** The next step after the preliminary search for a movie's years. */
  datatype Prelim =
    | NoResults                            // nothing found for the title
    | YearPrompt(title: string, years: seq<string>)  // the user picks one of several years
    | ResolutionPrompt(fullTitle: string)  // a single year: the title is complete
    | NoYear                               // results, but none with a year

  /** `_process_preliminary_results`: the distinct years of the results decide
      whether the user picks a year, the title is completed with the only
      year, or no year could be found. `Err` when a result is not a
      dictionary. */
  function ProcessPreliminaryResults(title: Option<string>, results: seq<Json>): (r: Result<Prelim, ()>)
    ensures r == Ok(NoResults) <==> |results| == 0
    ensures r.Err? <==> |results| > 0 && !AllDicts(results)
    ensures r.Ok? && |results| > 0 ==>
      var ys := SortedYears(results);
      var t := title.GetOr("this movie");
      && (r.value.YearPrompt? <==> |ys| > 1)
      && (r.value.YearPrompt? ==> r.value == YearPrompt(t, ys))
      && (r.value.ResolutionPrompt? <==> |ys| == 1)
      && (r.value.ResolutionPrompt? ==> r.value.fullTitle == WithYear(t, ys[0]))
      && (r.value.NoYear? <==> |ys| == 0)
  {
    if |results| == 0 then Ok(NoResults)
    else if !AllDicts(results) then Err(())
    else
      var ys := SortedYears(results);
      var t := title.GetOr("this movie");
      if |ys| > 1 then Ok(YearPrompt(t, ys))
      else if |ys| == 1 then Ok(ResolutionPrompt(WithYear(t, ys[0])))
      else Ok(NoYear)
  }

  /** When every dated result carries the same year, the title is completed
      with that year, exactly as a typed year reply would complete it. */
  lemma OneYearCompletesTitle(title: string, results: seq<Json>, y: string, k: nat)
    requires title != "" && AllDicts(results)
    requires k < |results| && YearOf(results[k]) == Some(y)
    requires forall j :: 0 <= j < |results| && YearOf(results[j]).Some? ==> YearOf(results[j]) == Some(y)
    ensures ProcessPreliminaryResults(Some(title), results) == Ok(ResolutionPrompt(WithYear(title, y)))
    ensures IsDigitString(y) && |y| == 4 ==> YearReply(Some(title), y) == Accept(WithYear(title, y))
  {
    var ys := SortedYears(results);
    forall z ensures z in ys <==> z in [y] {
      if z in ys {
        var j :| 0 <= j < |results| && YearOf(results[j]) == Some(z);
      }
    }
    AscendingUnique(ys, [y]);
  }

  /** Every year offered for selection, when pressed, completes the title with
      that year. */
  lemma OfferedYearsComplete(title: string, results: seq<Json>, i: nat)
    requires title != ""
    requires ProcessPreliminaryResults(Some(title), results).Ok?
    requires ProcessPreliminaryResults(Some(title), results).value.YearPrompt?
    requires i < |ProcessPreliminaryResults(Some(title), results).value.years|
    requires '_' !in ProcessPreliminaryResults(Some(title), results).value.years[i]
    ensures var y := ProcessPreliminaryResults(Some(title), results).value.years[i];
      YearSelection(Some(title), YearButton(y)) == Accept(WithYear(title, y))
  {
    YearButtonRoundTrip(title, ProcessPreliminaryResults(Some(title), results).value.years[i]);
  }

  // ---------------------------------------------------------------------------
  // _clear_search_context

  /** The conversation keys a finished or abandoned search removes. */
  const SearchContextKeys: set<string> := {
    "active_workflow", "next_action", "search_query_title", "search_final_title", "search_media_type",
    "search_season_number", "season_episode_count", "tv_scope", "tv_base_title"
  }

  /** `_clear_search_context`: drops exactly the search keys; every other key
      keeps its value. */
  function ClearSearchContext(userData: map<string, Json>): (r: map<string, Json>)
    ensures forall k :: k in r <==> k in userData && k !in SearchContextKeys
    ensures forall k :: k in r ==> r[k] == userData[k]
  {
    userData - SearchContextKeys
  }

  /** Clearing twice is clearing once, and the stored results survive a clear. */
  lemma ClearSearchContextIdempotent(userData: map<string, Json>)
    ensures ClearSearchContext(ClearSearchContext(userData)) == ClearSearchContext(userData)
    ensures ResultsKey in userData ==> ResultsKey in ClearSearchContext(userData)
  {
  }

  // ---------------------------------------------------------------------------
  // _present_search_results and _handle_result_selection_button

  /** Where the offered results are kept between the two handlers. */
  const ResultsKey := "search_results"

  /** At most this many results are offered as buttons. */
  const MaxChoices := 5

  /** `r.get("size_gb", float("inf")) <= MAX_TORRENT_SIZE_GB`: a missing size
      never fits; `None` when the comparison raises. */
  function SizeFits(r: Json): (f: Option<bool>)
    ensures r.JObj? && "size_gb" !in r.fields ==> f == Some(false)
    ensures r.JObj? && "size_gb" in r.fields && r.fields["size_gb"].JReal? ==>
      f == Some(r.fields["size_gb"].r <= Config.MaxTorrentSizeGb as real)
  {
    if !r.JObj? then None
    else if "size_gb" !in r.fields then Some(false)
    else match r.fields["size_gb"]
      case JInt(i) => Some(i <= Config.MaxTorrentSizeGb)
      case JReal(x) => Some(x <= Config.MaxTorrentSizeGb as real)
      case JBool(b) => Some(true)
      case _ => None
  }

  predicate Fits(r: Json) {
    SizeFits(r) == Some(true)
  }

  /** What is shown after a search. */
  datatype Presented =
    | NothingFound                                     // no result at all
    | AllTooLarge(found: nat)                          // every result is over the size limit
    | Choices(kept: seq<Json>, buttons: seq<string>)   // the results that fit, and the offered buttons

  /** `_present_search_results`: the search context is cleared first; the
      results that fit the size limit are stored and the first five are
      offered. `Err` when a size cannot be compared. */
  function PresentSearchResults(userData: map<string, Json>, results: seq<Json>): (r: (map<string, Json>, Result<Presented, ()>))
    ensures r.1 == Ok(NothingFound) <==> |results| == 0
    ensures r.1.Err? <==> |results| > 0 && exists k :: 0 <= k < |results| && SizeFits(results[k]).None?
    ensures r.1.Ok? && r.1.value.AllTooLarge? ==> r.1.value.found == |results| && forall x :: x in results ==> !Fits(x)
    ensures r.1.Ok? && r.1.value.Choices? ==>
      var c := r.1.value;
      && |c.kept| > 0 && c.kept == Filter(results, Fits)
      && |c.buttons| == (if |c.kept| < MaxChoices then |c.kept| else MaxChoices)
      && (forall i :: 0 <= i < |c.buttons| ==> c.buttons[i] == ResultButton(i))
      && r.0 == ClearSearchContext(userData)[ResultsKey := JList(c.kept)]
    ensures !(r.1.Ok? && r.1.value.Choices?) ==> r.0 == ClearSearchContext(userData)
  {
    var cleared := ClearSearchContext(userData);
    if |results| == 0 then (cleared, Ok(NothingFound))
    else if exists k :: 0 <= k < |results| && SizeFits(results[k]).None? then (cleared, Err(()))
    else
      var kept := Filter(results, Fits);
      if |kept| == 0 then (cleared, Ok(AllTooLarge(|results|)))
      else
        var n := if |kept| < MaxChoices then |kept| else MaxChoices;
        (cleared[ResultsKey := JList(kept)], Ok(Choices(kept, seq(n, i requires 0 <= i => ResultButton(i)))))
  }

  /** The outcome of pressing a result button. */
  datatype Selection =
    | SelectionExpired      // no stored results
    | SelectionError        // the index could not be read or is out of range
    | Selected(url: Json)   // the chosen result's page URL, handed to the torrent service

  /** Python's `items[i]` for a possibly negative index. */
  function PyIndex(items: seq<Json>, i: int): (r: Option<Json>)
    ensures 0 <= i < |items| ==> r == Some(items[i])
    ensures r.None? <==> !(-|items| <= i < |items|)
  {
    if 0 <= i < |items| then Some(items[i])
    else if -|items| <= i < 0 then Some(items[|items| + i])
    else None
  }

  /** The selected result's `page_url`, as the handler reads it: `result["page_url"]`,
      `result["title"]` and a slice of the URL must all succeed. */
  function PageUrl(item: Json): (r: Option<Json>)
    ensures r.Some? ==> item.JObj? && "page_url" in item.fields && r.value == item.fields["page_url"]
  {
    if !item.JObj? || "page_url" !in item.fields || "title" !in item.fields then None
    else
      var url := item.fields["page_url"];
      if url.JStr? || url.JList? then Some(url) else None
  }

  /** `_handle_result_selection_button`: the stored results are taken out of
      the conversation; the index is the third `_`-separated field. `Err`
      when the handler raises past its `except (ValueError, IndexError)`. */
  function SelectResult(userData: map<string, Json>, data: string): (r: (map<string, Json>, Result<Selection, ()>))
    ensures ResultsKey !in r.0
    ensures forall k :: k != ResultsKey ==> (k in r.0 <==> k in userData)
    ensures forall k :: k in r.0 ==> r.0[k] == userData[k]
    ensures r.1 == Ok(SelectionExpired) <==> !Truthy(GetOr(userData, ResultsKey, JList([])))
  {
    var stored := GetOr(userData, ResultsKey, JList([]));
    var rest := userData - {ResultsKey};
    if !Truthy(stored) then (rest, Ok(SelectionExpired))
    else
      var parts := SplitOn(data, '_');
      if |parts| < 3 then (rest, Ok(SelectionError))
      else match Values.ParseInt(parts[2])
        case None => (rest, Ok(SelectionError))
        case Some(i) =>
          if !stored.JList? then (rest, Err(()))
          else match PyIndex(stored.items, i)
            case None => (rest, Ok(SelectionError))
            case Some(item) =>
              match PageUrl(item)
              case Some(url) => (rest, Ok(Selected(url)))
              case None => (rest, Err(()))
  }

  /** The `i`-th result button's data carries `i` as its third field. */
  lemma ResultButtonIndex(i: nat)
    ensures |SplitOn(ResultButton(i), '_')| >= 3
    ensures Values.ParseInt(SplitOn(ResultButton(i), '_')[2]) == Some(i)
  {
    var n := NatToString(i);
    assert ResultButton(i) == "search" + ['_'] + ("select" + ['_'] + n);
    SplitOnFirst("search", "select" + ['_'] + n, '_');
    SplitOnFirst("select", n, '_');
    assert '_' !in n by {
      forall j | 0 <= j < |n| ensures n[j] != '_' {
        assert IsDigit(n[j]);
      }
    }
    SplitOnNone(n, '_');
  }

  /** Pressing an offered result button selects the result shown at that
      position: presenting and selecting round-trip. */
  lemma PresentThenSelect(userData: map<string, Json>, results: seq<Json>, i: nat)
    requires var r := PresentSearchResults(userData, results);
      r.1.Ok? && r.1.value.Choices? && i < |r.1.value.buttons|
    requires PageUrl(PresentSearchResults(userData, results).1.value.kept[i]).Some?
    ensures var r := PresentSearchResults(userData, results);
      && Route(r.1.value.buttons[i]) == ResultHandler
      && SelectResult(r.0, r.1.value.buttons[i]).1 == Ok(Selected(PageUrl(r.1.value.kept[i]).value))
  {
    var r := PresentSearchResults(userData, results);
    var c := r.1.value;
    ButtonsRouted("", i);
    assert c.buttons[i] == ResultButton(i);
    assert GetOr(r.0, ResultsKey, JList([])) == JList(c.kept);
    SelectStoredItem(r.0, c.kept, i);
  }

  /** The `i`-th result button picks the `i`-th stored result. */
  lemma SelectStoredItem(userData: map<string, Json>, kept: seq<Json>, i: nat)
    requires GetOr(userData, ResultsKey, JList([])) == JList(kept)
    requires i < |kept| && PageUrl(kept[i]).Some?
    ensures SelectResult(userData, ResultButton(i)).1 == Ok(Selected(PageUrl(kept[i]).value))
  {
    ResultButtonIndex(i);
    assert PyIndex(kept, i) == Some(kept[i]);
  }
}
