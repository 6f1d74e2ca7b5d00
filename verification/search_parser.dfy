/** `workflows/search_parser.py`: pulling year, season and episode hints out
    of a free-text search and keeping the title that is left. The four
    regular expressions are written out as the leftmost-match search Python's
    `re` performs, case-insensitively and on ASCII. */
module SearchParser {
  import opened Wrappers
  import opened Strings
  import opened TextMatch
  import opened Sorting

  /** The hints of one query (`ParsedSearchQuery`). */
  datatype ParsedSearchQuery = ParsedSearchQuery(title: string, year: Option<string>, season: Option<nat>, episode: Option<nat>)

  /** A `(start, end)` span of the query. */
  datatype Span = Span(start: nat, end: nat)

  /** A pattern match: where it ends and the numbers it captured. */
  datatype Hit = Hit(end: nat, first: nat, second: Option<nat>)

  /** The four season/episode patterns, in the order they are tried. */
  datatype Pattern = SxxEyy | SeasonWord | SeasonOnly | EpisodeOnly

  /** The end of the run of whitespace starting at `i`. */
  function SpaceRunEnd(s: string, i: nat): (e: nat)
    requires i <= |s|
    ensures i <= e <= |s|
    ensures forall k :: i <= k < e ==> IsSpace(s[k])
    ensures e == |s| || !IsSpace(s[e])
    decreases |s| - i
  {
    if i < |s| && IsSpace(s[i]) then SpaceRunEnd(s, i + 1) else i
  }

  /** `(?:Episode|Ep)` at `f`: where the word ends. When "Episode" is there
      but what follows fails, the "Ep" alternative is left facing an "i" and
      fails too, so trying "Episode" first is all there is to it. */
  function EpisodeWordEnd(s: string, f: nat): (w: Option<nat>)
    ensures w.Some? ==> f < w.value <= |s|
  {
    if LiteralAtCI(s, f, "episode") then Some(f + 7)
    else if LiteralAtCI(s, f, "ep") then Some(f + 2)
    else None
  }

  /** `\d{1,2}\b` at `i`: a run of one or two digits not followed by a word
      character. */
  function NumberAt(s: string, i: nat): (r: Option<(nat, nat)>)
    requires i <= |s|
    ensures r.Some? ==> i < r.value.0 <= i + 2 && r.value.0 <= |s| && NonWordAt(s, r.value.0)
    ensures r.Some? ==> r.value.1 < 100
  {
    match OneOrTwoDigits(s, i)
    case None => None
    case Some(e) =>
      if NonWordAt(s, e) then
        DigitsBelow100(s[i..e]);
        Some((e, DigitsValue(s[i..e])))
      else None
  }

  /** `\s*(?:Episode|Ep)\s*(\d{1,2})\b` at `e`. */
  function EpisodeTail(s: string, e: nat): (r: Option<(nat, nat)>)
    requires e <= |s|
    ensures r.Some? ==> e < r.value.0 <= |s|
  {
    match EpisodeWordEnd(s, SpaceRunEnd(s, e))
    case None => None
    case Some(w) => NumberAt(s, SpaceRunEnd(s, w))
  }

  /** The match of a pattern starting at `p`, if any. */
  function MatchAt(pat: Pattern, s: string, p: nat): (r: Option<Hit>)
    ensures r.Some? ==> p < r.value.end <= |s| && r.value.first < 100
    ensures r.Some? && pat.SxxEyy? ==> r.value.second.Some?
    ensures r.Some? && (pat.SeasonOnly? || pat.EpisodeOnly?) ==> r.value.second.None?
  {
    if !WordStart(s, p) then None
    else match pat
      case SxxEyy => SxxEyyAt(s, p)
      case SeasonWord => SeasonWordAt(s, p)
      case SeasonOnly => SeasonOnlyAt(s, p)
      case EpisodeOnly => EpisodeOnlyAt(s, p)
  }

  /** `\bS(\d{1,2})E(\d{1,2})\b` after the boundary at `p`. */
  function SxxEyyAt(s: string, p: nat): (r: Option<Hit>)
    requires p < |s|
    ensures r.Some? ==> p < r.value.end <= |s| && r.value.first < 100 && r.value.second.Some?
  {
    if !CharCI(s, p, 'S') then None
    else match OneOrTwoDigits(s, p + 1)
      case None => None
      case Some(e1) =>
        if !CharCI(s, e1, 'E') then None
        else match NumberAt(s, e1 + 1)
          case None => None
          case Some((e2, ep)) =>
            DigitsBelow100(s[p + 1..e1]);
            Some(Hit(e2, DigitsValue(s[p + 1..e1]), Some(ep)))
  }

  /** `\bSeason\s+(\d{1,2})(?:\s*(?:Episode|Ep)\s*(\d{1,2}))?\b` after the
      boundary at `p`: the episode group when it matches, else the season
      number alone followed by a boundary. */
  function SeasonWordAt(s: string, p: nat): (r: Option<Hit>)
    ensures r.Some? ==> p < r.value.end <= |s| && r.value.first < 100
  {
    if !LiteralAtCI(s, p, "season") then None
    else
      var q := SpaceRunEnd(s, p + 6);
      if q == p + 6 then None
      else match OneOrTwoDigits(s, q)
        case None => None
        case Some(e) =>
          DigitsBelow100(s[q..e]);
          var season := DigitsValue(s[q..e]);
          match EpisodeTail(s, e)
          case Some((e2, ep)) => Some(Hit(e2, season, Some(ep)))
          case None => if NonWordAt(s, e) then Some(Hit(e, season, None)) else None
  }

  /** `\bS(\d{1,2})\b` after the boundary at `p`. */
  function SeasonOnlyAt(s: string, p: nat): (r: Option<Hit>)
    requires p < |s|
    ensures r.Some? ==> p < r.value.end <= |s| && r.value.first < 100 && r.value.second.None?
  {
    if !CharCI(s, p, 'S') then None
    else match NumberAt(s, p + 1)
      case None => None
      case Some((e, n)) => Some(Hit(e, n, None))
  }

  /** `\b(?:Episode|Ep)\.?\s*(\d{1,2})\b` after the boundary at `p`. */
  function EpisodeOnlyAt(s: string, p: nat): (r: Option<Hit>)
    ensures r.Some? ==> p < r.value.end <= |s| && r.value.first < 100 && r.value.second.None?
  {
    match EpisodeWordEnd(s, p)
    case None => None
    case Some(w) =>
      var w' := if w < |s| && s[w] == '.' then w + 1 else w;
      match NumberAt(s, SpaceRunEnd(s, w'))
      case None => None
      case Some((e, n)) => Some(Hit(e, n, None))
  }

  /** `pattern.search(s)` from `from`: the leftmost match. */
  function Search(pat: Pattern, s: string, from: nat): (r: Option<(nat, Hit)>)
    ensures r.Some? ==> from <= r.value.0 && MatchAt(pat, s, r.value.0) == Some(r.value.1)
    ensures r.Some? ==> forall q :: from <= q < r.value.0 ==> MatchAt(pat, s, q).None?
    ensures r.None? ==> forall q :: from <= q ==> MatchAt(pat, s, q).None?
    decreases |s| - from
  {
    if from >= |s| then
      assert forall q :: from <= q ==> !WordStart(s, q);
      None
    else match MatchAt(pat, s, from)
      case Some(h) => Some((from, h))
      case None => Search(pat, s, from + 1)
  }

  /** `_consume_span`'s rewrite: the span blanked out with spaces. */
  function Blot(s: string, sp: Span): (r: string)
    requires sp.end <= |s|
    ensures |r| == |s|
    ensures forall i :: 0 <= i < |s| ==> r[i] == if sp.start <= i < sp.end then ' ' else s[i]
  {
    if sp.end <= sp.start then s
    else s[..sp.start] + seq(sp.end - sp.start, _ => ' ') + s[sp.end..]
  }

  /** What the season and episode passes have collected so far. */
  datatype Hints = Hints(season: Option<nat>, episode: Option<nat>, tokens: seq<Span>, working: string)

  predicate SpansIn(spans: seq<Span>, n: nat) {
    forall k :: 0 <= k < |spans| ==> spans[k].start < spans[k].end <= n
  }

  /** Records a match: its span becomes a token and is blanked out. */
  function Consume(h: Hints, p: nat, hit: Hit, season: Option<nat>, episode: Option<nat>): (r: Hints)
    requires p < hit.end <= |h.working|
    ensures |r.working| == |h.working| && r.tokens == h.tokens + [Span(p, hit.end)]
  {
    Hints(season, episode, h.tokens + [Span(p, hit.end)], Blot(h.working, Span(p, hit.end)))
  }

  /** The SxxEyy pass, or failing that the "Season N [Episode M]" pass. */
  function FirstPass(raw: string): (h: Hints)
    ensures |h.working| == |raw| && SpansIn(h.tokens, |raw|) && |h.tokens| <= 1
    ensures Search(SxxEyy, raw, 0).Some? ==>
      var (p, hit) := Search(SxxEyy, raw, 0).value;
      h.season == Some(hit.first) && h.episode == hit.second && h.tokens == [Span(p, hit.end)]
    ensures Search(SxxEyy, raw, 0).None? && Search(SeasonWord, raw, 0).Some? ==>
      var (p, hit) := Search(SeasonWord, raw, 0).value;
      h.season == Some(hit.first) && h.episode == hit.second && h.tokens == [Span(p, hit.end)]
    ensures Search(SxxEyy, raw, 0).None? && Search(SeasonWord, raw, 0).None? ==> h == Hints(None, None, [], raw)
  {
    var h0 := Hints(None, None, [], raw);
    match Search(SxxEyy, raw, 0)
    case Some((p, hit)) => Consume(h0, p, hit, Some(hit.first), hit.second)
    case None =>
      match Search(SeasonWord, raw, 0)
      case Some((p, hit)) => Consume(h0, p, hit, Some(hit.first), hit.second)
      case None => h0
  }

  /** The bare "SN" pass, run only while no season is known. */
  function SeasonPass(h: Hints): (r: Hints)
    ensures |r.working| == |h.working| && r.episode == h.episode
    ensures SpansIn(h.tokens, |h.working|) ==> SpansIn(r.tokens, |h.working|)
    ensures h.season.Some? ==> r == h
    ensures r.season.Some? && h.season.None? ==> Search(SeasonOnly, h.working, 0).Some?
  {
    if h.season.Some? then h
    else match Search(SeasonOnly, h.working, 0)
      case Some((p, hit)) => Consume(h, p, hit, Some(hit.first), h.episode)
      case None => h
  }

  /** The "Episode N" pass, run only while no episode is known. */
  function EpisodePass(h: Hints): (r: Hints)
    ensures |r.working| == |h.working| && r.season == h.season
    ensures SpansIn(h.tokens, |h.working|) ==> SpansIn(r.tokens, |h.working|)
    ensures h.episode.Some? ==> r == h
    ensures r.episode.Some? && h.episode.None? ==> Search(EpisodeOnly, h.working, 0).Some?
  {
    if h.episode.Some? then h
    else match Search(EpisodeOnly, h.working, 0)
      case Some((p, hit)) => Consume(h, p, hit, h.season, Some(hit.first))
      case None => h
  }

  /** All three passes. */
  function TvHints(raw: string): (h: Hints)
    ensures |h.working| == |raw| && SpansIn(h.tokens, |raw|)
  {
    EpisodePass(SeasonPass(FirstPass(raw)))
  }

  // ---------------------------------------------------------------------------
  // _strip_spans

  /** Python's `value[a:b]` for non-negative bounds. */
  function PySlice(v: string, a: nat, b: nat): (r: string)
    ensures a <= b <= |v| ==> r == v[a..b]
  {
    var hi := if b <= |v| then b else |v|;
    if a >= hi then "" else v[a..hi]
  }

  /** The spans in order of their start, ties kept in list order. */
  function ByStart(spans: seq<Span>): (r: seq<Span>)
    ensures multiset(r) == multiset(spans)
    ensures forall i, j :: 0 <= i < j < |r| ==> r[i].start <= r[j].start
  {
    var key := (sp: Span) => (-(sp.start as int), 0);
    var r := SortDesc(spans, key);
    assert forall i, j :: 0 <= i < j < |r| ==> KeyLe(key(r[j]), key(r[i]));
    r
  }

  /** The loop of `_strip_spans` over sorted spans, `last` being the end of
      the last span removed. */
  function StripFrom(v: string, spans: seq<Span>, last: nat): string
  {
    if |spans| == 0 then PySlice(v, last, |v|)
    else if spans[0].start < last then StripFrom(v, spans[1..], last)
    else PySlice(v, last, spans[0].start) + StripFrom(v, spans[1..], spans[0].end)
  }

  /** `_strip_spans`. */
  function StripSpans(v: string, spans: seq<Span>): (r: string)
    ensures spans == [] ==> r == v
  {
    if spans == [] then v else StripFrom(v, ByStart(spans), 0)
  }

  /** A span that starts inside the one removed before it is skipped. */
  lemma SkipsNested(v: string, a: Span, b: Span, rest: seq<Span>, last: nat)
    requires last <= a.start && a.start <= b.start < a.end
    ensures StripFrom(v, [a, b] + rest, last) == StripFrom(v, [a] + rest, last)
  {
    assert ([a, b] + rest)[1..] == [b] + rest;
    assert ([b] + rest)[1..] == rest;
    assert ([a] + rest)[1..] == rest;
  }

  /** Sorted spans, each starting no earlier than the previous one ended,
      inside the text. */
  predicate Chain(v: string, spans: seq<Span>, last: nat) {
    |spans| == 0
    || (last <= spans[0].start <= spans[0].end <= |v| && Chain(v, spans[1..], spans[0].end))
  }

  predicate Covered(i: nat, spans: seq<Span>) {
    exists k :: 0 <= k < |spans| && spans[k].start <= i < spans[k].end
  }

  /** The reference: the characters at positions from `i` that no span
      covers. */
  function KeepFrom(v: string, spans: seq<Span>, i: nat): string
    decreases |v| - i
  {
    if i >= |v| then "" else (if Covered(i, spans) then "" else [v[i]]) + KeepFrom(v, spans, i + 1)
  }

  lemma {:induction false} KeepOutside(v: string, spans: seq<Span>, i: nat, m: nat)
    requires i <= m <= |v|
    requires forall j :: i <= j < m ==> !Covered(j, spans)
    ensures KeepFrom(v, spans, i) == v[i..m] + KeepFrom(v, spans, m)
    decreases m - i
  {
    if i < m {
      assert !Covered(i, spans);
      assert KeepFrom(v, spans, i) == [v[i]] + KeepFrom(v, spans, i + 1);
      KeepOutside(v, spans, i + 1, m);
      assert v[i..m] == [v[i]] + v[i + 1..m];
    }
  }

  lemma {:induction false} KeepInside(v: string, spans: seq<Span>, i: nat, m: nat)
    requires i <= m
    requires forall j :: i <= j < m ==> Covered(j, spans)
    ensures KeepFrom(v, spans, i) == KeepFrom(v, spans, m)
    decreases m - i
  {
    if i < m {
      KeepInside(v, spans, i + 1, m);
      if i >= |v| {
        assert KeepFrom(v, spans, i) == "";
        assert KeepFrom(v, spans, m) == "";
      }
    }
  }

  /** Only coverage matters to the reference. */
  lemma {:induction false} KeepSameCover(v: string, s1: seq<Span>, s2: seq<Span>, i: nat)
    requires forall j :: i <= j ==> (Covered(j, s1) <==> Covered(j, s2))
    ensures KeepFrom(v, s1, i) == KeepFrom(v, s2, i)
    decreases |v| - i
  {
    if i < |v| {
      KeepSameCover(v, s1, s2, i + 1);
    }
  }

  lemma {:induction false} ChainStarts(v: string, spans: seq<Span>, last: nat)
    requires Chain(v, spans, last)
    ensures forall k :: 0 <= k < |spans| ==> last <= spans[k].start <= spans[k].end <= |v|
  {
    if |spans| > 0 {
      ChainStarts(v, spans[1..], spans[0].end);
      forall k | 0 < k < |spans|
        ensures last <= spans[k].start <= spans[k].end <= |v|
      {
        assert spans[k] == spans[1..][k - 1];
      }
    }
  }

  /** For a chain of spans the loop removes exactly the covered characters. */
  lemma {:induction false} StripFromChain(v: string, spans: seq<Span>, last: nat)
    requires Chain(v, spans, last) && last <= |v|
    ensures StripFrom(v, spans, last) == KeepFrom(v, spans, last)
  {
    if |spans| == 0 {
      KeepOutside(v, spans, last, |v|);
      assert KeepFrom(v, spans, |v|) == "";
    } else {
      var sp := spans[0];
      var rest := spans[1..];
      ChainStarts(v, spans, last);
      ChainStarts(v, rest, sp.end);
      forall j | last <= j < sp.start
        ensures !Covered(j, spans)
      {
        forall k | 0 <= k < |spans|
          ensures !(spans[k].start <= j < spans[k].end)
        {
          if k > 0 {
            assert spans[k] == rest[k - 1];
          }
        }
      }
      KeepOutside(v, spans, last, sp.start);
      forall j | sp.start <= j < sp.end
        ensures Covered(j, spans)
      {
        assert spans[0].start <= j < spans[0].end;
      }
      KeepInside(v, spans, sp.start, sp.end);
      forall j | sp.end <= j
        ensures Covered(j, spans) <==> Covered(j, rest)
      {
        if Covered(j, spans) {
          var k :| 0 <= k < |spans| && spans[k].start <= j < spans[k].end;
          assert k > 0;
          assert rest[k - 1] == spans[k];
        }
        if Covered(j, rest) {
          var k :| 0 <= k < |rest| && rest[k].start <= j < rest[k].end;
          assert spans[k + 1] == rest[k];
        }
      }
      KeepSameCover(v, spans, rest, sp.end);
      StripFromChain(v, rest, sp.end);
    }
  }

  /** `_strip_spans` on spans that do not overlap removes exactly the
      characters they cover. */
  lemma StripSpansRemovesCovered(v: string, spans: seq<Span>)
    requires Chain(v, ByStart(spans), 0)
    ensures StripSpans(v, spans) == KeepFrom(v, spans, 0)
  {
    if spans == [] {
      KeepOutside(v, spans, 0, |v|);
    } else {
      var sorted := ByStart(spans);
      StripFromChain(v, sorted, 0);
      forall j | 0 <= j
        ensures Covered(j, sorted) <==> Covered(j, spans)
      {
        if Covered(j, sorted) {
          var k :| 0 <= k < |sorted| && sorted[k].start <= j < sorted[k].end;
          assert sorted[k] in multiset(spans);
        }
        if Covered(j, spans) {
          var k :| 0 <= k < |spans| && spans[k].start <= j < spans[k].end;
          assert spans[k] in multiset(sorted);
        }
      }
      KeepSameCover(v, sorted, spans, 0);
    }
  }

  // ---------------------------------------------------------------------------
  // The title

  /** A character `SANITIZE_PATTERN` leaves alone. */
  predicate TitleChar(c: char) {
    IsWordChar(c) || IsSpace(c) || c == '-'
  }

  /** `re.sub(r"[^\w\s-]", " ", t)`. */
  function SanitizeChars(t: string): (r: string)
    ensures |r| == |t|
    ensures forall i :: 0 <= i < |t| ==> r[i] == if TitleChar(t[i]) then t[i] else ' '
  {
    if |t| == 0 then "" else [if TitleChar(t[0]) then t[0] else ' '] + SanitizeChars(t[1..])
  }

  const TitleTrim: set<char> := {' ', '_', '.', '-'}

  /** A finished title: word characters, hyphens and spaces, with none of
      " _.-" at either end. */
  predicate CleanTitle(r: string) {
    && (forall i :: 0 <= i < |r| ==> IsWordChar(r[i]) || r[i] == '-' || r[i] == ' ')
    && (|r| == 0 || (r[0] !in TitleTrim && r[|r| - 1] !in TitleTrim))
  }

  /** The title clean-up: punctuation to blanks, single spaces, then
      `strip(" _.-")`. */
  function SanitizeTitle(t: string): (r: string)
    ensures CleanTitle(r)
  {
    var s := SanitizeChars(t);
    SanitizedChars(t);
    CollapseKeepsTitle(s);
    StripClean(CollapseSpaces(s));
    StripChars(CollapseSpaces(s), TitleTrim)
  }

  lemma SanitizedChars(t: string)
    ensures forall i :: 0 <= i < |SanitizeChars(t)| ==> TitleChar(SanitizeChars(t)[i])
  {
    var s := SanitizeChars(t);
    forall i | 0 <= i < |s|
      ensures TitleChar(s[i])
    {
      if !TitleChar(t[i]) {
        assert s[i] == ' ';
        assert IsSpace(' ');
      }
    }
  }

  lemma StripClean(c: string)
    requires forall i :: 0 <= i < |c| ==> IsWordChar(c[i]) || c[i] == '-' || c[i] == ' '
    ensures CleanTitle(StripChars(c, TitleTrim))
  {
    StripCharsKeeps(c, TitleTrim, ch => IsWordChar(ch) || ch == '-' || ch == ' ');
  }

  lemma {:induction false} CollapseKeepsTitle(s: string)
    requires forall i :: 0 <= i < |s| ==> TitleChar(s[i])
    ensures forall i :: 0 <= i < |CollapseSpaces(s)| ==> IsWordChar(CollapseSpaces(s)[i]) || CollapseSpaces(s)[i] == '-' || CollapseSpaces(s)[i] == ' '
    decreases |s|
  {
    if |s| > 0 {
      var t := s[1..];
      if IsSpace(s[0]) {
        var l := LStrip(t, Whitespace);
        forall i | 0 <= i < |l|
          ensures TitleChar(l[i])
        {
          assert l[i] == s[1 + |t| - |l| + i];
        }
        CollapseKeepsTitle(l);
      } else {
        forall i | 0 <= i < |t|
          ensures TitleChar(t[i])
        {
          assert t[i] == s[i + 1];
        }
        CollapseKeepsTitle(t);
      }
    }
  }

  function MinStart(spans: seq<Span>): (m: nat)
    requires |spans| > 0
    ensures forall k :: 0 <= k < |spans| ==> m <= spans[k].start
    ensures exists k :: 0 <= k < |spans| && m == spans[k].start
  {
    if |spans| == 1 then spans[0].start
    else
      var m := MinStart(spans[1..]);
      assert forall k :: 1 <= k < |spans| ==> spans[k] == spans[1..][k - 1];
      if spans[0].start <= m then spans[0].start else m
  }

  function MaxEnd(spans: seq<Span>): (m: nat)
    requires |spans| > 0
    ensures forall k :: 0 <= k < |spans| ==> spans[k].end <= m
    ensures exists k :: 0 <= k < |spans| && m == spans[k].end
  {
    if |spans| == 1 then spans[0].end
    else
      var m := MaxEnd(spans[1..]);
      assert forall k :: 1 <= k < |spans| ==> spans[k] == spans[1..][k - 1];
      if spans[0].end >= m then spans[0].end else m
  }

  /** The text the title is taken from: before the first token, else after
      the last one, else (no tokens, or nothing around them) the query with
      every matched span cut out. */
  function TitleSource(raw: string, tokens: seq<Span>, cleaned: string): (r: string)
    requires SpansIn(tokens, |raw|)
    ensures tokens == [] ==> r == cleaned
  {
    if tokens == [] then cleaned
    else
      var prefix := Strip(raw[..MinStart(tokens)]);
      var suffix := Strip(raw[MaxEnd(tokens)..]);
      if prefix != "" then prefix else if suffix != "" then suffix else cleaned
  }

  /** The year span and text, if the query has a 19xx/20xx year. */
  function YearOf(raw: string): (r: Option<nat>)
    ensures r.Some? ==> YearAt(raw, r.value) && forall q :: 0 <= q < r.value ==> !YearAt(raw, q)
    ensures r.None? ==> forall q :: 0 <= q ==> !YearAt(raw, q)
  {
    FindYear(raw, 0)
  }

  /** `parse_search_query`; `query` is `None` or the text. */
  function ParseSearchQuery(query: Option<string>): (r: ParsedSearchQuery)
    ensures var raw := Strip(if query.Some? then query.value else "");
      raw == "" ==> r == ParsedSearchQuery("", None, None, None)
    ensures CleanTitle(r.title)
    ensures r.season.Some? ==> r.season.value < 100
    ensures r.episode.Some? ==> r.episode.value < 100
    ensures var raw := Strip(if query.Some? then query.value else "");
      r.year.Some? <==> raw != "" && exists p :: YearAt(raw, p)
    ensures var raw := Strip(if query.Some? then query.value else "");
      r.year.Some? ==> IsDigitString(r.year.value) && |r.year.value| == 4
  {
    var raw := Strip(if query.Some? then query.value else "");
    if raw == "" then ParsedSearchQuery("", None, None, None)
    else
      var h := TvHints(raw);
      HintsBelow100(raw);
      var yearPos := YearOf(raw);
      var removal := h.tokens + (if yearPos.Some? then [Span(yearPos.value, yearPos.value + 4)] else []);
      var cleaned := StripSpans(raw, removal);
      ParsedSearchQuery(SanitizeTitle(TitleSource(raw, h.tokens, cleaned)),
                        if yearPos.Some? then Some(YearText(raw, yearPos.value)) else None,
                        h.season, h.episode)
  }

  /** Season and episode numbers have at most two digits. */
  lemma HintsBelow100(raw: string)
    ensures var h := TvHints(raw);
      (h.season.Some? ==> h.season.value < 100) && (h.episode.Some? ==> h.episode.value < 100)
  {
    var h1 := FirstPass(raw);
    FirstPassBelow100(raw);
    SeasonPassBelow100(h1);
    EpisodePassBelow100(SeasonPass(h1));
  }

  /** Neither hint has more than two digits. */
  predicate Below100(h: Hints) {
    (h.season.Some? ==> h.season.value < 100) && (h.episode.Some? ==> h.episode.value < 100)
  }

  lemma FirstPassBelow100(raw: string)
    ensures Below100(FirstPass(raw))
  {
    if Search(SxxEyy, raw, 0).None? && Search(SeasonWord, raw, 0).Some? {
      var (p, hit) := Search(SeasonWord, raw, 0).value;
    }
  }

  lemma SeasonPassBelow100(h: Hints)
    requires Below100(h)
    ensures Below100(SeasonPass(h))
  {
    var r := SeasonPass(h);
    if r.season.Some? && h.season.None? {
      var (p, hit) := Search(SeasonOnly, h.working, 0).value;
    }
  }

  lemma EpisodePassBelow100(h: Hints)
    requires Below100(h)
    ensures Below100(EpisodePass(h))
  {
    var r := EpisodePass(h);
    if r.episode.Some? && h.episode.None? {
      var (p, hit) := Search(EpisodeOnly, h.working, 0).value;
    }
  }

  // ---------------------------------------------------------------------------
  // Properties

  /** An SxxEyy token anywhere decides both hints: the leftmost one wins over
      every other pattern. */
  lemma SxxEyyWins(query: string)
    requires Strip(query) != "" && Search(SxxEyy, Strip(query), 0).Some?
    ensures var hit := Search(SxxEyy, Strip(query), 0).value.1;
      var r := ParseSearchQuery(Some(query));
      r.season == Some(hit.first) && r.episode == hit.second && r.episode.Some?
  {
  }

  /** Without an SxxEyy token, "Season N" sets the season, and its optional
      "Episode M" the episode. */
  lemma SeasonWordNext(query: string)
    requires Strip(query) != ""
    requires Search(SxxEyy, Strip(query), 0).None? && Search(SeasonWord, Strip(query), 0).Some?
    ensures var hit := Search(SeasonWord, Strip(query), 0).value.1;
      var r := ParseSearchQuery(Some(query));
      r.season == Some(hit.first) && (hit.second.Some? ==> r.episode == hit.second)
  {
    var raw := Strip(query);
    var h1 := FirstPass(raw);
    var h2 := SeasonPass(h1);
    assert h2 == h1;
    var h3 := EpisodePass(h2);
    assert h3 == TvHints(raw) && h3.season == h1.season;
    if h1.episode.Some? {
      assert h3 == h2;
    }
  }

  /** The bare patterns only fill what is still missing: with no SxxEyy and
      no "Season N" token the season comes from the leftmost "SN", if any. */
  lemma SeasonOnlyFallback(query: string)
    requires Strip(query) != ""
    requires Search(SxxEyy, Strip(query), 0).None? && Search(SeasonWord, Strip(query), 0).None?
    ensures var r := ParseSearchQuery(Some(query));
      var s := Search(SeasonOnly, Strip(query), 0);
      r.season == if s.Some? then Some(s.value.1.first) else None
  {
  }

  /** A title of letters and single spaces, starting and ending with a
      letter. */
  predicate PlainTitle(t: string) {
    && |t| > 0 && IsAlpha(t[0]) && IsAlpha(t[|t| - 1])
    && (forall i :: 0 <= i < |t| ==> IsAlpha(t[i]) || t[i] == ' ')
    && (forall i :: 0 <= i < |t| - 1 ==> !(t[i] == ' ' && t[i + 1] == ' '))
  }

  /** The query "<title> SnnEmm". */
  function EpisodeQuery(t: string, n: nat, m: nat): string {
    t + " S" + Pad2(n) + "E" + Pad2(m)
  }

  /** Round trip: a plain title followed by an SxxEyy token parses back into
      the title, the season and the episode. */
  lemma EpisodeQueryRoundTrip(t: string, n: nat, m: nat)
    requires PlainTitle(t) && n < 100 && m < 100
    ensures ParseSearchQuery(Some(EpisodeQuery(t, n, m))) == ParsedSearchQuery(t, None, Some(n), Some(m))
  {
    var q := EpisodeQuery(t, n, m);
    QueryLayout(t, n, m);
    StripNoop(q);
    EpisodeQueryHints(t, n, m);
    NoYear(t, n, m);
    var h := TvHints(q);
    EpisodeQueryTitle(t, n, m, StripSpans(q, h.tokens));
    SanitizePlain(t);
  }

  /** The SxxEyy token of an episode query sets both hints and is the only
      token removed. */
  lemma EpisodeQueryHints(t: string, n: nat, m: nat)
    requires PlainTitle(t) && n < 100 && m < 100
    ensures var q := EpisodeQuery(t, n, m); var h := TvHints(q);
      h.season == Some(n) && h.episode == Some(m) && h.tokens == [Span(|t| + 1, |q|)]
  {
    var q := EpisodeQuery(t, n, m);
    var p0 := |t| + 1;
    QueryLayout(t, n, m);
    NoSxxEyyBefore(t, n, m);
    var hit := Hit(|q|, n, Some(m));
    SxxEyyAtTag(t, n, m);
    assert Search(SxxEyy, q, 0) == Some((p0, hit));
  }

  /** The title of an episode query is the text before its SxxEyy token. */
  lemma EpisodeQueryTitle(t: string, n: nat, m: nat, cleaned: string)
    requires PlainTitle(t) && n < 100 && m < 100
    ensures var q := EpisodeQuery(t, n, m);
      TitleSource(q, [Span(|t| + 1, |q|)], cleaned) == t
  {
    var q := EpisodeQuery(t, n, m);
    var p0 := |t| + 1;
    QueryLayout(t, n, m);
    assert q[..p0] == t + " ";
    StripTrailingSpace(t);
  }

  lemma QueryLayout(t: string, n: nat, m: nat)
    requires n < 100 && m < 100
    ensures var q := EpisodeQuery(t, n, m); var p0 := |t| + 1;
      && |q| == p0 + 6 && q[..|t|] == t && q[|t|] == ' ' && q[p0] == 'S' && q[p0 + 3] == 'E'
      && q[p0 + 1..p0 + 3] == Pad2(n) && q[p0 + 4..p0 + 6] == Pad2(m)
      && (forall i :: 0 <= i < |t| ==> q[i] == t[i])
      && IsDigit(q[p0 + 1]) && IsDigit(q[p0 + 2]) && IsDigit(q[p0 + 4]) && IsDigit(q[p0 + 5])
  {
    var q := EpisodeQuery(t, n, m);
    var p0 := |t| + 1;
    assert q == t + [' ', 'S'] + Pad2(n) + ['E'] + Pad2(m);
    assert Pad2(n)[0] == q[p0 + 1] && Pad2(n)[1] == q[p0 + 2];
    assert Pad2(m)[0] == q[p0 + 4] && Pad2(m)[1] == q[p0 + 5];
  }

  /** No SxxEyy match starts inside a digit-free title or at the space. */
  lemma NoSxxEyyBefore(t: string, n: nat, m: nat)
    requires PlainTitle(t) && n < 100 && m < 100
    ensures forall p :: 0 <= p <= |t| ==> MatchAt(SxxEyy, EpisodeQuery(t, n, m), p).None?
  {
    var q := EpisodeQuery(t, n, m);
    QueryLayout(t, n, m);
    forall p | 0 <= p <= |t|
      ensures MatchAt(SxxEyy, q, p).None?
    {
      if p < |t| && WordStart(q, p) {
        assert !IsDigit(q[p + 1]) by {
          if p + 1 < |t| {
            assert q[p + 1] == t[p + 1];
          }
        }
        assert DigitRunEnd(q, p + 1) == p + 1;
      }
    }
  }

  /** The SxxEyy match of the tag. */
  lemma SxxEyyAtTag(t: string, n: nat, m: nat)
    requires PlainTitle(t) && n < 100 && m < 100
    ensures var q := EpisodeQuery(t, n, m);
      MatchAt(SxxEyy, q, |t| + 1) == Some(Hit(|q|, n, Some(m)))
  {
    var q := EpisodeQuery(t, n, m);
    var p0 := |t| + 1;
    QueryLayout(t, n, m);
    assert WordStart(q, p0);
    assert CharCI(q, p0, 'S');
    assert DigitRunEnd(q, p0 + 3) == p0 + 3;
    assert DigitRunEnd(q, p0 + 1) == p0 + 3;
    assert OneOrTwoDigits(q, p0 + 1) == Some(p0 + 3);
    assert CharCI(q, p0 + 3, 'E');
    assert DigitRunEnd(q, p0 + 4) == p0 + 6;
    assert NumberAt(q, p0 + 4) == Some((|q|, m));
  }

  /** A digit-free title and a two-digit tag hold no 19xx/20xx year. */
  lemma NoYear(t: string, n: nat, m: nat)
    requires PlainTitle(t) && n < 100 && m < 100
    ensures YearOf(EpisodeQuery(t, n, m)).None?
  {
    var q := EpisodeQuery(t, n, m);
    var p0 := |t| + 1;
    QueryLayout(t, n, m);
    forall p | 0 <= p
      ensures !YearAt(q, p)
    {
      if p < |t| {
        assert q[p] == t[p];
        assert !IsDigit(q[p]);
        YearStartsWithDigit(q, p);
      } else if p == |t| || p == p0 {
        YearStartsWithDigit(q, p);
      } else if p == p0 + 1 {
        assert !IsDigit(q[p + 2]);
      } else if p == p0 + 2 {
        YearStartsWithDigit(q, p);
      }
    }
  }

  /** A year match starts with two digits. */
  lemma YearStartsWithDigit(s: string, p: nat)
    ensures YearAt(s, p) ==> IsDigit(s[p]) && IsDigit(s[p + 1])
  {
    if YearAt(s, p) {
      assert s[p..p + 2][0] == s[p] && s[p..p + 2][1] == s[p + 1];
    }
  }

  /** A plain title survives the clean-up unchanged. */
  lemma SanitizePlain(t: string)
    requires PlainTitle(t)
    ensures SanitizeTitle(t) == t
  {
    SanitizeCharsPlain(t);
    CollapsePlain(t);
    TrimPlain(t);
  }

  lemma SanitizeCharsPlain(t: string)
    requires PlainTitle(t)
    ensures SanitizeChars(t) == t
  {
    forall i | 0 <= i < |t|
      ensures TitleChar(t[i])
    {
      assert IsAlpha(t[i]) || t[i] == ' ';
    }
  }

  lemma CollapsePlain(t: string)
    requires PlainTitle(t)
    ensures CollapseSpaces(t) == t
  {
    forall i | 0 <= i < |t| - 1
      ensures !(IsSpace(t[i]) && IsSpace(t[i + 1]))
    {
      assert IsAlpha(t[i]) || t[i] == ' ';
      assert IsAlpha(t[i + 1]) || t[i + 1] == ' ';
    }
    CollapseSpacesNoop(t);
  }

  lemma TrimPlain(t: string)
    requires PlainTitle(t)
    ensures StripChars(t, TitleTrim) == t
  {
    assert t[0] !in TitleTrim;
    assert LStrip(t, TitleTrim) == t;
    assert t[|t| - 1] !in TitleTrim;
    assert RStrip(t, TitleTrim) == t;
  }
}
