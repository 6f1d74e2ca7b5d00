/** The Pirate Bay scraper (`services/scrapers/tpb.py`): turning the apibay
    JSON entries into ranked results. The HTTP request, the fuzzy ratio and
    `urllib.parse.quote_plus` are parameters. */
module Tpb {
  import opened Wrappers
  import opened Strings
  import opened Values
  import opened Sorting
  import Scoring
  import BotUtils
  import Config

  const DefaultLimit := 40
  const FuzzThreshold := 78
  const StopWords: set<string> := {"the", "a", "an", "of", "and"}

  // ---------------------------------------------------------------------------
  // _safe_int

  /** `_safe_int`: `int(value)` when that is not negative, else 0. */
  function SafeInt(v: Value): (r: nat)
    ensures ToInt(v).Some? && ToInt(v).value >= 0 <==> ToInt(v) == Some(r as int)
  {
    match ToInt(v)
    case Some(i) => if i >= 0 then i else 0
    case None => 0
  }

  /** A count rendered as decimal text reads back as itself. */
  lemma SafeIntOfText(n: nat)
    ensures SafeInt(VStr(NatToString(n))) == n
    ensures SafeInt(VInt(n)) == n
  {
  }

  /** Negative and unparsable values read as 0. */
  lemma SafeIntRejects(i: int)
    requires i < 0
    ensures SafeInt(VInt(i)) == 0 && SafeInt(VNone) == 0 && SafeInt(VStr("")) == 0
  {
  }

  // ---------------------------------------------------------------------------
  // _normalize

  /** A character `_normalize` keeps: ASCII letters, digits, whitespace. */
  predicate KeptChar(c: char) {
    IsAlnum(c) || IsSpace(c)
  }

  /** `re.sub(r"[^a-zA-Z0-9\s]", " ", s)`. */
  function Blank(s: string): (r: string)
    ensures |r| == |s|
    ensures forall i :: 0 <= i < |s| ==> r[i] == if KeptChar(s[i]) then s[i] else ' '
  {
    if |s| == 0 then "" else [if KeptChar(s[0]) then s[0] else ' '] + Blank(s[1..])
  }

  /** The tokens `_normalize` keeps. */
  function DropStopWords(ws: seq<string>): (r: seq<string>)
    ensures forall k :: 0 <= k < |r| ==> r[k] != "" && r[k] !in StopWords
    ensures forall k :: 0 <= k < |r| ==> r[k] in ws
  {
    if |ws| == 0 then []
    else (if ws[0] != "" && ws[0] !in StopWords then [ws[0]] else []) + DropStopWords(ws[1..])
  }

  /** `_normalize`: lower-case, punctuation to blanks, single spaces, stop
      words dropped. */
  function Normalize(value: string): (r: string)
  {
    var text := Strip(CollapseSpaces(Blank(LowerStr(value))));
    if text == "" then text else Join(" ", DropStopWords(SplitOn(text, ' ')))
  }

  /** Lower-case letters, digits and whitespace only. */
  predicate LowerText(s: string) {
    forall i :: 0 <= i < |s| ==> IsLower(s[i]) || IsDigit(s[i]) || IsSpace(s[i])
  }

  /** Lower-case letters, digits and plain spaces only. */
  predicate SpacedText(s: string) {
    forall i :: 0 <= i < |s| ==> IsLower(s[i]) || IsDigit(s[i]) || s[i] == ' '
  }

  /** A token `_normalize` can produce. */
  predicate Token(w: string) {
    w != "" && w !in StopWords && forall i :: 0 <= i < |w| ==> IsLower(w[i]) || IsDigit(w[i])
  }

  predicate Tokens(toks: seq<string>) {
    forall k :: 0 <= k < |toks| ==> Token(toks[k])
  }

  lemma BlankLower(value: string)
    ensures LowerText(Blank(LowerStr(value)))
  {
    var l := LowerStr(value);
    forall i | 0 <= i < |l|
      ensures !IsUpper(l[i])
    {
    }
  }

  lemma {:induction false} CollapseKeeps(s: string)
    requires LowerText(s)
    ensures SpacedText(CollapseSpaces(s))
    decreases |s|
  {
    if |s| > 0 {
      var t := s[1..];
      if IsSpace(s[0]) {
        var l := LStrip(t, Whitespace);
        forall i | 0 <= i < |l|
          ensures IsLower(l[i]) || IsDigit(l[i]) || IsSpace(l[i])
        {
          assert l[i] == s[1 + |t| - |l| + i];
        }
        CollapseKeeps(l);
      } else {
        forall i | 0 <= i < |t|
          ensures IsLower(t[i]) || IsDigit(t[i]) || IsSpace(t[i])
        {
          assert t[i] == s[i + 1];
        }
        CollapseKeeps(t);
      }
    }
  }

  lemma StripKeeps(s: string)
    requires SpacedText(s)
    ensures SpacedText(Strip(s))
  {
    var a, b := StripSlice(s);
    var r := Strip(s);
    forall i | 0 <= i < |r|
      ensures IsLower(r[i]) || IsDigit(r[i]) || r[i] == ' '
    {
      assert r[i] == s[a + i];
    }
  }

  lemma {:induction false} SplitOnKeeps(s: string)
    requires SpacedText(s)
    ensures forall k :: 0 <= k < |SplitOn(s, ' ')| ==> SpacedText(SplitOn(s, ' ')[k])
    decreases |s|
  {
    if |s| > 0 {
      var t := s[1..];
      forall i | 0 <= i < |t|
        ensures IsLower(t[i]) || IsDigit(t[i]) || t[i] == ' '
      {
        assert t[i] == s[i + 1];
      }
      SplitOnKeeps(t);
      if s[0] != ' ' {
        var rest := SplitOn(t, ' ');
        var w := [s[0]] + rest[0];
        assert SpacedText(rest[0]);
        forall i | 0 <= i < |w|
          ensures IsLower(w[i]) || IsDigit(w[i]) || w[i] == ' '
        {
          if i > 0 {
            assert w[i] == rest[0][i - 1];
          }
        }
        assert SplitOn(s, ' ') == [w] + rest[1..];
        forall k | 0 <= k < |SplitOn(s, ' ')|
          ensures SpacedText(SplitOn(s, ' ')[k])
        {
          if k > 0 {
            assert SplitOn(s, ' ')[k] == rest[k];
          }
        }
      }
    }
  }

  /** What `_normalize` returns: tokens of lower-case letters and digits,
      none of them a stop word, joined by single spaces. */
  lemma NormalizeShape(value: string) returns (toks: seq<string>)
    ensures Normalize(value) == Join(" ", toks)
    ensures Tokens(toks)
  {
    var t0 := Blank(LowerStr(value));
    BlankLower(value);
    var t1 := CollapseSpaces(t0);
    CollapseKeeps(t0);
    var text := Strip(t1);
    StripKeeps(t1);
    if text == "" {
      toks := [];
    } else {
      var ws := SplitOn(text, ' ');
      SplitOnKeeps(text);
      toks := DropStopWords(ws);
      forall k | 0 <= k < |toks|
        ensures Token(toks[k])
      {
        var w := toks[k];
        assert w in ws;
        var j :| 0 <= j < |ws| && ws[j] == w;
        assert SpacedText(ws[j]);
        forall i | 0 <= i < |w|
          ensures IsLower(w[i]) || IsDigit(w[i])
        {
          assert ws[j][i] != ' ';
        }
      }
    }
  }

  /** Normalising normalised text changes nothing. */
  lemma NormalizeIdempotent(value: string)
    ensures Normalize(Normalize(value)) == Normalize(value)
  {
    var toks := NormalizeShape(value);
    NormalizeJoined(toks);
  }

  /** Text made of tokens joined by single spaces is already normal. */
  lemma NormalizeJoined(toks: seq<string>)
    requires Tokens(toks)
    ensures Normalize(Join(" ", toks)) == Join(" ", toks)
  {
    var s := Join(" ", toks);
    JoinedChars(toks);
    JoinedSpacing(toks);
    LowerNoop(s);
    BlankNoop(s);
    CollapseNoop(s);
    if toks != [] {
      JoinedEnds(toks);
      StripNoop(s);
      SplitJoin(toks);
      DropNoStopWords(toks);
    } else {
      assert Strip(s) == "";
    }
  }

  lemma LowerNoop(s: string)
    requires SpacedText(s)
    ensures LowerStr(s) == s
  {
  }

  lemma BlankNoop(s: string)
    requires SpacedText(s)
    ensures Blank(s) == s
  {
  }

  lemma {:induction false} JoinedChars(toks: seq<string>)
    requires Tokens(toks)
    ensures SpacedText(Join(" ", toks))
  {
    if |toks| > 1 {
      JoinedChars(toks[1..]);
      var rest := Join(" ", toks[1..]);
      var s := toks[0] + " " + rest;
      assert Join(" ", toks) == s;
      forall i | 0 <= i < |s|
        ensures IsLower(s[i]) || IsDigit(s[i]) || s[i] == ' '
      {
        if i < |toks[0]| {
          assert s[i] == toks[0][i];
        } else if i > |toks[0]| {
          assert s[i] == rest[i - |toks[0]| - 1];
        }
      }
    } else if |toks| == 1 {
      assert Token(toks[0]);
    }
  }

  lemma {:induction false} JoinedEnds(toks: seq<string>)
    requires Tokens(toks) && toks != []
    ensures var s := Join(" ", toks); |s| > 0 && s[0] != ' ' && s[|s| - 1] != ' '
  {
    assert Token(toks[0]);
    if |toks| > 1 {
      JoinedEnds(toks[1..]);
      var rest := Join(" ", toks[1..]);
      var s := toks[0] + " " + rest;
      assert Join(" ", toks) == s;
      assert s[0] == toks[0][0];
      assert s[|s| - 1] == rest[|rest| - 1];
    } else {
      assert toks[0][0] != ' ';
      assert toks[0][|toks[0]| - 1] != ' ';
    }
  }

  /** No two spaces follow each other in joined tokens. */
  predicate SingleSpaced(s: string) {
    forall i :: 0 <= i < |s| - 1 ==> !(s[i] == ' ' && s[i + 1] == ' ')
  }

  lemma {:induction false} JoinedSpacing(toks: seq<string>)
    requires Tokens(toks)
    ensures SingleSpaced(Join(" ", toks))
  {
    if |toks| > 1 {
      JoinedSpacing(toks[1..]);
      JoinedEnds(toks[1..]);
      var rest := Join(" ", toks[1..]);
      var w := toks[0];
      assert Token(w);
      var s := w + " " + rest;
      assert Join(" ", toks) == s;
      forall i | 0 <= i < |s| - 1
        ensures !(s[i] == ' ' && s[i + 1] == ' ')
      {
        if i < |w| {
          assert s[i] == w[i];
        } else if i == |w| {
          assert s[i + 1] == rest[0];
        } else {
          assert s[i] == rest[i - |w| - 1];
          assert s[i + 1] == rest[i - |w|];
        }
      }
    } else if |toks| == 1 {
      assert Token(toks[0]);
    }
  }

  lemma CollapseNoop(s: string)
    requires SpacedText(s) && SingleSpaced(s)
    ensures CollapseSpaces(s) == s
  {
    CollapseSpacesNoop(s);
  }

  /** Splitting joined tokens at the spaces gives the tokens back. */
  lemma {:induction false} SplitJoin(toks: seq<string>)
    requires |toks| > 0
    requires forall k, i :: 0 <= k < |toks| && 0 <= i < |toks[k]| ==> toks[k][i] != ' '
    ensures SplitOn(Join(" ", toks), ' ') == toks
  {
    if |toks| == 1 {
      SplitNoSep(toks[0], ' ');
    } else {
      SplitJoin(toks[1..]);
      SplitAfter(toks[0], ' ', Join(" ", toks[1..]));
      assert Join(" ", toks) == toks[0] + [' '] + Join(" ", toks[1..]);
      assert toks == [toks[0]] + toks[1..];
    }
  }

  lemma {:induction false} SplitNoSep(a: string, sep: char)
    requires forall i :: 0 <= i < |a| ==> a[i] != sep
    ensures SplitOn(a, sep) == [a]
    decreases |a|
  {
    if |a| > 0 {
      SplitNoSep(a[1..], sep);
      assert a == [a[0]] + a[1..];
    }
  }

  lemma {:induction false} SplitAfter(a: string, sep: char, b: string)
    requires forall i :: 0 <= i < |a| ==> a[i] != sep
    ensures SplitOn(a + [sep] + b, sep) == [a] + SplitOn(b, sep)
    decreases |a|
  {
    if |a| == 0 {
      assert a + [sep] + b == [sep] + b;
      assert ([sep] + b)[1..] == b;
    } else {
      SplitAfter(a[1..], sep, b);
      assert (a + [sep] + b)[1..] == a[1..] + [sep] + b;
      assert a == [a[0]] + a[1..];
    }
  }

  lemma {:induction false} DropNoStopWords(toks: seq<string>)
    requires Tokens(toks)
    ensures DropStopWords(toks) == toks
  {
    if |toks| > 0 {
      DropNoStopWords(toks[1..]);
      assert toks == [toks[0]] + toks[1..];
    }
  }

  // ---------------------------------------------------------------------------
  // Season and episode tokens

  /** `_season_tokens`. */
  function SeasonTokens(season: int, episode: int): (r: set<string>)
    ensures ("S" + Pad2(season)) in r && ("S" + IntToString(season)) in r && ("SEASON" + IntToString(season)) in r
    ensures episode > 0 ==> (IntToString(season) + "X" + IntToString(episode)) in r
  {
    var base := {"S" + Pad2(season), "S" + IntToString(season), "SEASON" + IntToString(season)};
    if episode > 0 then
      base + {"S" + Pad2(season) + "E" + Pad2(episode), "S" + IntToString(season) + "E" + IntToString(episode),
              IntToString(season) + "X" + Pad2(episode), IntToString(season) + "X" + IntToString(episode)}
    else base
  }

  /** The "NxM" forms are offered exactly when an episode is targeted: every
      other token starts with "S". */
  lemma SeasonTokensEpisodeForms(season: nat, episode: int)
    ensures episode <= 0 <==> forall t :: t in SeasonTokens(season, episode) ==> StartsWith(t, "S")
  {
    if episode > 0 {
      var t := IntToString(season) + "X" + IntToString(episode);
      assert t[0] == NatToString(season)[0];
      assert IsDigit(t[0]);
      assert !StartsWith(t, "S");
    }
  }

  /** `re.sub(r"[^A-Z0-9]", "", s)`. */
  function Compact(s: string): (r: string)
    ensures |r| <= |s|
    ensures forall i :: 0 <= i < |r| ==> IsUpper(r[i]) || IsDigit(r[i])
  {
    if |s| == 0 then ""
    else (if IsUpper(s[0]) || IsDigit(s[0]) then [s[0]] else []) + Compact(s[1..])
  }

  /** `_title_contains_tokens`: some token occurs in the upper-cased title or
      in its letters-and-digits-only form. */
  predicate TitleContainsTokens(rawTitle: string, tokens: set<string>)
  {
    var upper := UpperStr(rawTitle);
    exists t :: t in tokens && (Contains(upper, t) || Contains(Compact(upper), t))
  }

  lemma NoTokensNoMatch(rawTitle: string)
    ensures !TitleContainsTokens(rawTitle, {})
  {
  }

  /** `_matches_tv`. */
  predicate MatchesTv(parsed: Dict, targetSeason: int, targetEpisode: int, rawTitle: string)
  {
    var season := SafeInt(Get(parsed, "season"));
    var episode := SafeInt(Get(parsed, "episode"));
    var pack := Truthy(Get(parsed, "is_season_pack"));
    var tokens := SeasonTokens(targetSeason, targetEpisode);
    if targetSeason <= 0 then true
    else if targetEpisode > 0 then
      (season == targetSeason && episode == targetEpisode)
      || (pack && season == targetSeason)
      || TitleContainsTokens(rawTitle, tokens)
    else season == targetSeason || TitleContainsTokens(rawTitle, tokens)
  }

  /** What `_matches_tv` accepts, case by case. */
  lemma MatchesTvCases(parsed: Dict, ts: int, te: int, raw: string)
    ensures ts <= 0 ==> MatchesTv(parsed, ts, te, raw)
    ensures ts > 0 && SafeInt(Get(parsed, "season")) == ts && (te <= 0 || SafeInt(Get(parsed, "episode")) == te) ==> MatchesTv(parsed, ts, te, raw)
    ensures ts > 0 && SafeInt(Get(parsed, "season")) == ts && Truthy(Get(parsed, "is_season_pack")) ==> MatchesTv(parsed, ts, te, raw)
    ensures ts > 0 && SafeInt(Get(parsed, "season")) != ts ==>
      (MatchesTv(parsed, ts, te, raw) <==> TitleContainsTokens(raw, SeasonTokens(ts, te)))
  {
  }

  // ---------------------------------------------------------------------------
  // _build_magnet

  const Trackers: seq<string> := [
    "udp://tracker.opentrackr.org:1337/announce",
    "udp://open.stealth.si:80/announce",
    "udp://tracker.torrent.eu.org:451/announce",
    "udp://tracker.dler.org:6969/announce",
    "udp://public.popcorn-tracker.org:6969/announce",
    "udp://tracker.internetwarriors.net:1337/announce"
  ]

  /** `"".join(f"&tr={quote_plus(t)}" for t in trackers)`. */
  function TrackerQuery(trackers: seq<string>, quote: string -> string): (r: string)
    ensures |trackers| > 0 ==> StartsWith(r, "&tr=")
  {
    if |trackers| == 0 then ""
    else
      var head := "&tr=" + quote(trackers[0]);
      assert (head + TrackerQuery(trackers[1..], quote))[..4] == "&tr=";
      head + TrackerQuery(trackers[1..], quote)
  }

  const MagnetPrefix := "magnet:?xt=urn:btih:"

  /** `_build_magnet`. */
  function BuildMagnet(infoHash: string, name: string, quote: string -> string): (r: string)
    ensures StartsWith(r, MagnetPrefix + infoHash + "&dn=" + quote(name))
  {
    var head := MagnetPrefix + infoHash + "&dn=" + quote(name);
    var r := head + TrackerQuery(Trackers, quote);
    assert r[..|head|] == head;
    r
  }

  // ---------------------------------------------------------------------------
  // _transform_results

  /** One element of the JSON payload. */
  datatype Entry = NotADict | EntryDict(d: Dict)

  /** A kept result (`size_gb` is kept as the byte count it is computed from;
      `uploader` is whatever truthy `username` the entry had, or
      "Anonymous"). */
  datatype TpbResult = TpbResult(
    title: string, pageUrl: string, score: int, source: string, uploader: Value,
    sizeBytes: nat, codec: Option<string>, seeders: nat, leechers: nat, year: Option<nat>)

  /** What the search is filtered against. */
  datatype Target = Target(normalized: string, year: nat, season: nat, episode: nat)

  /** The fixed inputs of one transformation: media key, scoring preferences,
      thefuzz's `token_set_ratio` and `quote_plus`. */
  datatype Env = Env(mediaKey: string, prefs: Scoring.Preferences, ratio: (string, string) -> int, quote: string -> string)

  /** The parsed name, as the dictionary `parse_torrent_name` returns. */
  function Parsed(name: string): Dict {
    BotUtils.NameDict(BotUtils.ParseTorrentName(name))
  }

  /** `x or y` on strings. */
  function Or(x: string, y: string): (r: string)
    ensures x != "" ==> r == x
    ensures x == "" ==> r == y
  {
    if x != "" then x else y
  }

  /** The title field of a parsed name, as text (`""` when falsy). */
  function TitleOf(d: Dict): string {
    if Get(d, "title").VStr? then Get(d, "title").s else ""
  }

  /** The filter target: the parsed query's title, year, season and episode;
      an episode without a season is dropped. */
  function TargetOf(query: string, baseFilter: string): (t: Target)
    ensures t.episode != 0 ==> t.season != 0
    ensures var info := Parsed(Or(baseFilter, query));
      t.year == SafeInt(Get(info, "year")) && t.season == SafeInt(Get(info, "season"))
      && (t.season != 0 ==> t.episode == SafeInt(Get(info, "episode")))
  {
    var info := Parsed(Or(baseFilter, query));
    var norm := Normalize(Or(TitleOf(info), Or(baseFilter, query)));
    var season := SafeInt(Get(info, "season"));
    var episode := SafeInt(Get(info, "episode"));
    Target(if norm == "" then Normalize(query) else norm,
           SafeInt(Get(info, "year")), season, if episode != 0 && season == 0 then 0 else episode)
  }

  /** Year rule for movie searches with a target year: the parsed year must
      be the target, or, without one, the year must appear in the raw title. */
  predicate YearOk(targetYear: nat, parsed: Dict, rawTitle: string) {
    var candYear := SafeInt(Get(parsed, "year"));
    if candYear != 0 then candYear == targetYear else Contains(rawTitle, NatToString(targetYear))
  }

  /** The title filters of `_transform_results`: the fuzzy ratio of the
      normalised titles, the year rule for movies, `_matches_tv` for tv. */
  predicate TitleMatches(raw: string, target: Target, env: Env) {
    var parsed := Parsed(raw);
    var cand := Normalize(Or(TitleOf(parsed), raw));
    && env.ratio(target.normalized, if cand == "" then Normalize(raw) else cand) >= FuzzThreshold
    && (env.mediaKey == "movie" && target.year != 0 ==> YearOk(target.year, parsed, raw))
    && (env.mediaKey == "tv" ==> MatchesTv(parsed, target.season, target.episode, raw))
  }

  /** The size bound: positive and at most `MAX_TORRENT_SIZE_GB` GiB. */
  predicate SizeOk(size: nat) {
    0 < size <= Config.MaxTorrentSizeBytes
  }

  /** The uploader the entry is scored with. */
  function UploaderOf(d: Dict): (u: Value)
    ensures Truthy(u)
  {
    if Truthy(Get(d, "username")) then Get(d, "username") else VStr("Anonymous")
  }

  /** The uploader as text for the score; a non-string uploader only matters
      when there are uploader weights, where it raises. */
  function UploaderText(u: Value): string {
    if u.VStr? then u.s else ""
  }

  /** The verdict on one entry, before the duplicate check: dropped, kept
      under its hash, or raising (a truthy non-string `username` has no
      `.lower()` once an uploader weight is compared with it). */
  datatype Verdict = Drop | Crash(hash: string) | Keep(hash: string, result: TpbResult)

  /** What every kept result satisfies: it passed the title filters and the
      size bound, its score is the positive score of its title, uploader and
      seeders, and its link is the magnet of its hash. */
  predicate Acceptable(h: string, r: TpbResult, target: Target, env: Env) {
    && |h| >= 10
    && TitleMatches(r.title, target, env)
    && SizeOk(r.sizeBytes)
    && r.score == Scoring.ScoreTorrentResult(r.title, UploaderText(r.uploader), env.prefs, r.seeders)
    && r.score > 0
    && r.source == "tpb"
    && r.codec == Scoring.ParseCodec(r.title)
    && StartsWith(r.pageUrl, MagnetPrefix + h + "&dn=" + env.quote(r.title))
  }

  /** Everything `_transform_results` checks about one entry except whether
      its hash was already taken. */
  function Judge(e: Entry, target: Target, env: Env): (v: Verdict)
    ensures v.Keep? ==> Acceptable(v.hash, v.result, target, env)
    ensures v.Keep? || v.Crash? ==> e.EntryDict? && Get(e.d, "info_hash") == VStr(v.hash)
    ensures v.Crash? ==> |env.prefs.uploaders| > 0 && !UploaderOf(e.d).VStr?
    ensures e.EntryDict? && Get(e.d, "info_hash").VStr? && Get(e.d, "name").VStr? && |Get(e.d, "info_hash").s| >= 10
            && TitleMatches(Get(e.d, "name").s, target, env) && SizeOk(SafeInt(Get(e.d, "size")))
            && UploaderOf(e.d).VStr?
            && Scoring.ScoreTorrentResult(Get(e.d, "name").s, UploaderOf(e.d).s, env.prefs, SafeInt(Get(e.d, "seeders"))) > 0
            ==> v.Keep?
  {
    match e
    case NotADict => Drop
    case EntryDict(d) =>
      var h := Get(d, "info_hash");
      var n := Get(d, "name");
      if !h.VStr? || !n.VStr? || |h.s| < 10 then Drop
      else if !TitleMatches(n.s, target, env) then Drop
      else
        var size := SafeInt(Get(d, "size"));
        if !SizeOk(size) then Drop
        else
          var up := UploaderOf(d);
          if !up.VStr? && |env.prefs.uploaders| > 0 then Crash(h.s)
          else
            var seeders := SafeInt(Get(d, "seeders"));
            var score := Scoring.ScoreTorrentResult(n.s, UploaderText(up), env.prefs, seeders);
            if score <= 0 then Drop
            else
              var year := SafeInt(Get(Parsed(n.s), "year"));
              Keep(h.s, TpbResult(n.s, BuildMagnet(h.s, n.s, env.quote), score, "tpb", up, size,
                                  Scoring.ParseCodec(n.s), seeders, SafeInt(Get(d, "leechers")),
                                  if year == 0 then None else Some(year)))
  }

  /** The scan over the verdicts with the set of hashes already taken; `None`
      when an entry raises. */
  function Dedup(vs: seq<Verdict>, seen: set<string>): (r: Option<seq<(string, TpbResult)>>)
    ensures r.Some? ==> forall k :: 0 <= k < |r.value| ==> r.value[k].0 !in seen
    ensures r.Some? ==> forall k :: 0 <= k < |r.value| ==> Keep(r.value[k].0, r.value[k].1) in vs
  {
    if |vs| == 0 then Some([])
    else match vs[0]
      case Drop => Dedup(vs[1..], seen)
      case Crash(h) => if h in seen then Dedup(vs[1..], seen) else None
      case Keep(h, res) =>
        if h in seen then Dedup(vs[1..], seen)
        else match Dedup(vs[1..], seen + {h})
          case None => None
          case Some(rest) => Some([(h, res)] + rest)
  }

  /** At most one result per info hash. */
  lemma {:induction false} DedupUnique(vs: seq<Verdict>, seen: set<string>)
    requires Dedup(vs, seen).Some?
    ensures var r := Dedup(vs, seen).value;
      forall i, j :: 0 <= i < j < |r| ==> r[i].0 != r[j].0
  {
    if |vs| > 0 {
      match vs[0]
      case Drop => DedupUnique(vs[1..], seen);
      case Crash(h) => DedupUnique(vs[1..], seen);
      case Keep(h, res) =>
        if h in seen {
          DedupUnique(vs[1..], seen);
        } else {
          DedupUnique(vs[1..], seen + {h});
        }
    }
  }

  /** Every hash kept by some entry is represented (unless it was taken
      before the scan started). */
  lemma {:induction false} DedupComplete(vs: seq<Verdict>, seen: set<string>, k: nat)
    requires Dedup(vs, seen).Some? && k < |vs| && vs[k].Keep?
    ensures vs[k].hash in seen || exists i :: 0 <= i < |Dedup(vs, seen).value| && Dedup(vs, seen).value[i].0 == vs[k].hash
  {
    if k == 0 {
      match vs[0]
      case Keep(h, res) =>
        if h !in seen {
          assert Dedup(vs, seen).value[0].0 == h;
        }
    } else {
      assert vs[1..][k - 1] == vs[k];
      match vs[0]
      case Drop => DedupComplete(vs[1..], seen, k - 1);
      case Crash(h) => DedupComplete(vs[1..], seen, k - 1);
      case Keep(h, res) =>
        if h in seen {
          DedupComplete(vs[1..], seen, k - 1);
        } else {
          DedupComplete(vs[1..], seen + {h}, k - 1);
          var r := Dedup(vs, seen).value;
          var rest := Dedup(vs[1..], seen + {h}).value;
          assert r == [(h, res)] + rest;
          if vs[k].hash == h {
            assert r[0].0 == h;
          } else if vs[k].hash !in seen {
            var i :| 0 <= i < |rest| && rest[i].0 == vs[k].hash;
            assert r[i + 1] == rest[i];
          }
        }
    }
  }

  /** The first entry kept under a hash is the one reported for it. */
  lemma FirstKeepWins(h: string, res: TpbResult, rest: seq<Verdict>)
    requires Dedup([Keep(h, res)] + rest, {}).Some?
    ensures Dedup([Keep(h, res)] + rest, {}).value[0] == (h, res)
  {
    var vs := [Keep(h, res)] + rest;
    assert vs[0] == Keep(h, res) && vs[1..] == rest;
  }

  /** An entry that raises before its hash is taken makes the whole scan
      raise. */
  lemma {:induction false} CrashAborts(vs: seq<Verdict>, seen: set<string>, k: nat)
    requires k < |vs| && vs[k].Crash?
    requires forall j :: 0 <= j < k ==> !(vs[j].Keep? && vs[j].hash == vs[k].hash)
    requires vs[k].hash !in seen
    ensures Dedup(vs, seen).None?
  {
    if k > 0 {
      assert vs[1..][k - 1] == vs[k];
      var seen' := if vs[0].Keep? && vs[0].hash !in seen then seen + {vs[0].hash} else seen;
      CrashAborts(vs[1..], seen', k - 1);
    }
  }

  /** The verdicts on all entries, in payload order. */
  function Verdicts(entries: seq<Entry>, target: Target, env: Env): (vs: seq<Verdict>)
    ensures |vs| == |entries|
    ensures forall i :: 0 <= i < |entries| ==> vs[i] == Judge(entries[i], target, env)
  {
    seq(|entries|, i requires 0 <= i < |entries| => Judge(entries[i], target, env))
  }

  /** The entries kept, one per hash, in payload order. */
  function Kept(entries: seq<Entry>, query: string, baseFilter: string, env: Env): Option<seq<(string, TpbResult)>> {
    Dedup(Verdicts(entries, TargetOf(query, baseFilter), env), {})
  }

  /** Every kept entry is acceptable. */
  lemma KeptAcceptable(entries: seq<Entry>, query: string, baseFilter: string, env: Env)
    requires Kept(entries, query, baseFilter, env).Some?
    ensures var kept := Kept(entries, query, baseFilter, env).value;
      forall k :: 0 <= k < |kept| ==> Acceptable(kept[k].0, kept[k].1, TargetOf(query, baseFilter), env)
  {
    var target := TargetOf(query, baseFilter);
    var vs := Verdicts(entries, target, env);
    var kept := Dedup(vs, {}).value;
    forall k | 0 <= k < |kept|
      ensures Acceptable(kept[k].0, kept[k].1, target, env)
    {
      var v := Keep(kept[k].0, kept[k].1);
      assert v in vs;
      var i :| 0 <= i < |vs| && vs[i] == v;
      assert Judge(entries[i], target, env) == v;
    }
  }

  /** The ranking key: `(seeders, score)`. */
  function RankKey(r: TpbResult): Key {
    (r.seeders, r.score)
  }

  function Results(kept: seq<(string, TpbResult)>): (r: seq<TpbResult>)
    ensures |r| == |kept|
    ensures forall k :: 0 <= k < |r| ==> r[k] == kept[k].1
  {
    if |kept| == 0 then [] else [kept[0].1] + Results(kept[1..])
  }

  /** `limit` as `scrape_tpb` settles it: a positive int, else 40 (a `True`
      passes `isinstance(limit, int)` and counts as 1). */
  function LimitValue(limit: Value): (n: nat)
    ensures n > 0
    ensures limit.VInt? && limit.i > 0 ==> n == limit.i
    ensures !(limit.VInt? && limit.i > 0) && limit != VBool(true) ==> n == DefaultLimit
  {
    match limit
    case VInt(i) => if i > 0 then i else DefaultLimit
    case VBool(b) => if b then 1 else DefaultLimit
    case _ => DefaultLimit
  }

  /** The ranking step: by seeders then score, best first, at most `limit`
      results, all of them when they fit. */
  function Rank(kept: seq<(string, TpbResult)>, limit: nat): (r: seq<TpbResult>)
    ensures |r| <= limit && SortedDesc(r, RankKey)
    ensures multiset(r) <= multiset(Results(kept))
    ensures |kept| <= limit ==> multiset(r) == multiset(Results(kept))
    ensures |r| == if |kept| <= limit then |kept| else limit
    ensures r == SortDesc(Results(kept), RankKey)[..|r|]
  {
    var sorted := SortDesc(Results(kept), RankKey);
    TakeSorted(sorted, RankKey, limit);
    TakeSplits(sorted, limit);
    Take(sorted, limit)
  }

  /** The ranking keeps the top `limit`: every result it drops ranks no
      higher than every result it keeps, and results with equal keys keep
      their payload order (Python's sort is stable). */
  lemma RankKeepsTop(kept: seq<(string, TpbResult)>, limit: nat)
    ensures var r := Rank(kept, limit);
      var dropped := SortDesc(Results(kept), RankKey)[|r|..];
      && multiset(r) + multiset(dropped) == multiset(Results(kept))
      && (forall i, j :: 0 <= i < |r| && 0 <= j < |dropped| ==> KeyLe(RankKey(dropped[j]), RankKey(r[i])))
      && (forall k :: |kept| <= limit ==> WithKey(r, RankKey, k) == WithKey(Results(kept), RankKey, k))
  {
    var sorted := SortDesc(Results(kept), RankKey);
    var r := Rank(kept, limit);
    var dropped := sorted[|r|..];
    assert sorted == r + dropped;
    forall i, j | 0 <= i < |r| && 0 <= j < |dropped|
      ensures KeyLe(RankKey(dropped[j]), RankKey(r[i]))
    {
      assert sorted[i] == r[i] && sorted[|r| + j] == dropped[j];
    }
    forall k | |kept| <= limit
      ensures WithKey(r, RankKey, k) == WithKey(Results(kept), RankKey, k)
    {
      assert r == sorted;
      SortStable(Results(kept), RankKey, k);
    }
  }

  /** `_transform_results`; `None` when it raises. */
  function TransformResults(entries: seq<Entry>, query: string, baseFilter: string, env: Env, limit: nat): (r: Option<seq<TpbResult>>)
    ensures r.Some? <==> Kept(entries, query, baseFilter, env).Some?
    ensures r.Some? ==> r.value == Rank(Kept(entries, query, baseFilter, env).value, limit)
  {
    match Kept(entries, query, baseFilter, env)
    case None => None
    case Some(kept) => Some(Rank(kept, limit))
  }

  /** Every ranked result is one of the kept entries. */
  lemma RankFromKept(kept: seq<(string, TpbResult)>, limit: nat)
    ensures forall x :: x in Rank(kept, limit) ==> exists k :: 0 <= k < |kept| && kept[k].1 == x
  {
    var r := Rank(kept, limit);
    var all := Results(kept);
    forall x | x in r
      ensures exists k :: 0 <= k < |kept| && kept[k].1 == x
    {
      assert x in multiset(r);
      assert x in multiset(all);
      var k :| 0 <= k < |all| && all[k] == x;
      assert kept[k].1 == x;
    }
  }

  /** What `_transform_results` returns: the best `limit` of the acceptable
      results, or all of them when fewer pass, best first. */
  lemma TransformAcceptable(entries: seq<Entry>, query: string, baseFilter: string, env: Env, limit: nat)
    requires TransformResults(entries, query, baseFilter, env, limit).Some?
    ensures var r := TransformResults(entries, query, baseFilter, env, limit).value;
      && |r| <= limit && SortedDesc(r, RankKey)
      && |r| == (var n := |Kept(entries, query, baseFilter, env).value|; if n <= limit then n else limit)
      && forall x :: x in r ==> exists h :: Acceptable(h, x, TargetOf(query, baseFilter), env)
  {
    var kept := Kept(entries, query, baseFilter, env).value;
    var target := TargetOf(query, baseFilter);
    KeptAcceptable(entries, query, baseFilter, env);
    RankFromKept(kept, limit);
    var r := TransformResults(entries, query, baseFilter, env, limit).value;
    forall x | x in r
      ensures exists h :: Acceptable(h, x, target, env)
    {
      var k :| 0 <= k < |kept| && kept[k].1 == x;
      assert Acceptable(kept[k].0, kept[k].1, target, env);
    }
  }

  /** `scrape_tpb` without the request: a blank query or falsy preferences
      give nothing, and so does a failed request or a payload that is not a
      list (`payload == None`). */
  function ScrapeTpb(query: string, mediaType: string, prefs: Option<Scoring.Preferences>, limit: Value,
                     baseFilter: Option<string>, payload: Option<seq<Entry>>,
                     ratio: (string, string) -> int, quote: string -> string): (r: Option<seq<TpbResult>>)
    ensures Strip(query) == "" || prefs.None? || payload.None? ==> r == Some([])
    ensures r.Some? ==> |r.value| <= LimitValue(limit)
    ensures !(Strip(query) == "" || prefs.None? || payload.None?) ==>
      var key := if StartsWith(LowerStr(mediaType), "tv") then "tv" else "movie";
      r == TransformResults(payload.value, query, if baseFilter.Some? then baseFilter.value else query,
                            Env(key, prefs.value, ratio, quote), LimitValue(limit))
  {
    if Strip(query) == "" || prefs.None? || payload.None? then Some([])
    else
      var key := if StartsWith(LowerStr(mediaType), "tv") then "tv" else "movie";
      TransformResults(payload.value, query, if baseFilter.Some? then baseFilter.value else query,
                       Env(key, prefs.value, ratio, quote), LimitValue(limit))
  }
}
