/** Ranking of scraped torrents: the weighted preference score
    (`score_torrent_result`, identical in `scrapers/scoring.py` and
    `search_logic.py`) and the two codec detectors. */
module Scoring {
  import opened Wrappers
  import opened Strings

  /** The items of one preference dictionary, e.g. `{"x265": 2}`; a missing
      dictionary is the empty one. */
  type Weights = seq<(string, int)>

  datatype Preferences = Preferences(codecs: Weights, resolutions: Weights, uploaders: Weights)

  /** Sum of the weights whose key occurs, case-insensitively, in the title. */
  function KeywordScore(ws: Weights, titleLower: string): (r: int)
    ensures (forall i :: 0 <= i < |ws| ==> ws[i].1 >= 0) ==> r >= 0
  {
    if |ws| == 0 then 0
    else (if Contains(titleLower, LowerStr(ws[0].0)) then ws[0].1 else 0) + KeywordScore(ws[1..], titleLower)
  }

  /** Sum of the weights whose key equals the uploader, case-insensitively. */
  function UploaderScore(ws: Weights, uploader: string): (r: int)
    ensures (forall i :: 0 <= i < |ws| ==> ws[i].1 >= 0) ==> r >= 0
  {
    if |ws| == 0 then 0
    else (if LowerStr(ws[0].0) == LowerStr(uploader) then ws[0].1 else 0) + UploaderScore(ws[1..], uploader)
  }

  predicate NonNegative(p: Preferences) {
    && (forall i :: 0 <= i < |p.codecs| ==> p.codecs[i].1 >= 0)
    && (forall i :: 0 <= i < |p.resolutions| ==> p.resolutions[i].1 >= 0)
    && (forall i :: 0 <= i < |p.uploaders| ==> p.uploaders[i].1 >= 0)
  }

  /** `score_torrent_result`. */
  function ScoreTorrentResult(title: string, uploader: string, p: Preferences, seeders: int): (r: int)
    ensures p == Preferences([], [], []) ==> r == seeders
    ensures NonNegative(p) ==> r >= seeders
  {
    var t := LowerStr(title);
    KeywordScore(p.codecs, t) + KeywordScore(p.resolutions, t) + UploaderScore(p.uploaders, uploader) + seeders
  }

  /** Each matching key adds its weight on its own: the score of a list of
      weights is the sum of the scores of its parts. */
  lemma {:induction false} KeywordScoreAppend(a: Weights, b: Weights, t: string)
    ensures KeywordScore(a + b, t) == KeywordScore(a, t) + KeywordScore(b, t)
  {
    if |a| > 0 {
      assert (a + b)[0] == a[0];
      assert (a + b)[1..] == a[1..] + b;
      KeywordScoreAppend(a[1..], b, t);
    } else {
      assert a + b == b;
    }
  }

  /** One more key adds its weight exactly when it occurs in the title. */
  lemma KeywordScoreSnoc(ws: Weights, k: string, v: int, t: string)
    ensures KeywordScore(ws + [(k, v)], t) == KeywordScore(ws, t) + (if Contains(t, LowerStr(k)) then v else 0)
  {
    KeywordScoreAppend(ws, [(k, v)], t);
  }

  /** Dictionary order does not matter: swapping two neighbouring keys leaves
      the score unchanged. */
  lemma KeywordScoreSwap(a: Weights, x: (string, int), y: (string, int), b: Weights, t: string)
    ensures KeywordScore(a + [x, y] + b, t) == KeywordScore(a + [y, x] + b, t)
  {
    KeywordScoreAppend(a + [x, y], b, t);
    KeywordScoreAppend(a + [y, x], b, t);
    KeywordScoreAppend(a, [x, y], t);
    KeywordScoreAppend(a, [y, x], t);
    assert [x, y][1..] == [y];
    assert [y, x][1..] == [x];
  }

  lemma LowerUpper(c: char)
    ensures Lower(Upper(c)) == Lower(c)
  {
  }

  lemma LowerStrUpperStr(s: string)
    ensures LowerStr(UpperStr(s)) == LowerStr(s)
  {
    forall i | 0 <= i < |s|
      ensures LowerStr(UpperStr(s))[i] == LowerStr(s)[i]
    {
      LowerUpper(s[i]);
    }
  }

  /** The score ignores the case of the title and of the uploader. */
  lemma ScoreIgnoresCase(title: string, uploader: string, p: Preferences, seeders: int)
    ensures ScoreTorrentResult(UpperStr(title), UpperStr(uploader), p, seeders) == ScoreTorrentResult(title, uploader, p, seeders)
  {
    LowerStrUpperStr(title);
    LowerStrUpperStr(uploader);
    UploaderCase(p.uploaders, uploader);
  }

  lemma {:induction false} UploaderCase(ws: Weights, uploader: string)
    ensures UploaderScore(ws, UpperStr(uploader)) == UploaderScore(ws, uploader)
  {
    LowerStrUpperStr(uploader);
    if |ws| > 0 {
      UploaderCase(ws[1..], uploader);
    }
  }

  // ---------------------------------------------------------------------------
  // search_logic._parse_codec: plain substring tests

  /** `_parse_codec` of `search_logic.py`. */
  function SubstringCodec(title: string): (r: Option<string>)
    ensures r.None? <==> !Contains(LowerStr(title), "x265") && !Contains(LowerStr(title), "hevc") && !Contains(LowerStr(title), "x264")
    ensures r == Some("x264") ==> !Contains(LowerStr(title), "x265") && !Contains(LowerStr(title), "hevc")
    ensures r.Some? ==> r.value == "x265" || r.value == "x264"
  {
    var t := LowerStr(title);
    if Contains(t, "x265") || Contains(t, "hevc") then Some("x265")
    else if Contains(t, "x264") then Some("x264")
    else None
  }

  // ---------------------------------------------------------------------------
  // scrapers/scoring.parse_codec: case-insensitive patterns with word boundaries

  /** First index at or after `k` that is not whitespace (a greedy `\s*`). */
  function SkipSpaces(t: string, k: nat): (r: nat)
    requires k <= |t|
    ensures k <= r <= |t|
    ensures forall m :: k <= m < r ==> IsSpace(t[m])
    ensures r == |t| || !IsSpace(t[r])
    decreases |t| - k
  {
    if k < |t| && IsSpace(t[k]) then SkipSpaces(t, k + 1) else k
  }

  /** Regular-expression `\b` at position `i`. */
  predicate Boundary(t: string, i: int)
    requires 0 <= i <= |t|
  {
    (i > 0 && IsWordChar(t[i - 1])) != (i < |t| && IsWordChar(t[i]))
  }

  /** End of a match of `lit` at `i`. */
  function LiteralEnd(t: string, i: nat, lit: string): (e: Option<nat>)
    requires i <= |t|
    ensures e.Some? <==> OccursAt(t, lit, i)
    ensures e.Some? ==> e.value == i + |lit| <= |t|
  {
    if i + |lit| <= |t| && t[i..i + |lit|] == lit then Some(i + |lit|) else None
  }

  /** End of a match of `x\s*<digits>` at `i`. */
  function XEnd(t: string, i: nat, digits: string): (e: Option<nat>)
    requires i <= |t|
    ensures e.Some? ==> i < e.value <= |t|
  {
    if i < |t| && t[i] == 'x' then LiteralEnd(t, SkipSpaces(t, i + 1), digits) else None
  }

  /** End of a match of `h\s*[.\s]?<digits>` at `i`: the greedy `\s*` takes
      every blank, after which only a dot can still be optional. */
  function HEnd(t: string, i: nat, digits: string): (e: Option<nat>)
    requires i <= |t|
    ensures e.Some? ==> i < e.value <= |t|
  {
    if i < |t| && t[i] == 'h' then
      var k := SkipSpaces(t, i + 1);
      LiteralEnd(t, if k < |t| && t[k] == '.' then k + 1 else k, digits)
    else None
  }

  predicate BoundedAt(t: string, i: nat, e: Option<nat>)
    requires i <= |t|
  {
    e.Some? && e.value <= |t| && Boundary(t, i) && Boundary(t, e.value)
  }

  datatype Codec = AV1 | X265 | X264

  function CodecLabel(c: Codec): string {
    match c
    case AV1 => "av1"
    case X265 => "x265"
    case X264 => "x264"
  }

  /** One of the codec's alternatives matches, with word boundaries, at `i`
      of the lower-cased title. */
  predicate CodecAt(t: string, i: nat, c: Codec)
    requires i <= |t|
  {
    match c
    case AV1 => BoundedAt(t, i, LiteralEnd(t, i, "av1"))
    case X265 =>
      BoundedAt(t, i, XEnd(t, i, "265")) || BoundedAt(t, i, HEnd(t, i, "265")) || BoundedAt(t, i, LiteralEnd(t, i, "hevc"))
    case X264 =>
      BoundedAt(t, i, XEnd(t, i, "264")) || BoundedAt(t, i, HEnd(t, i, "264"))
      || BoundedAt(t, i, LiteralEnd(t, i, "h264")) || BoundedAt(t, i, LiteralEnd(t, i, "avc"))
  }

  /** `pattern.search(title)` for the codec. */
  predicate CodecIn(title: string, c: Codec) {
    var t := LowerStr(title);
    exists i: nat :: i <= |t| && CodecAt(t, i, c)
  }

  /** `parse_codec`: the first codec, in the order av1, x265, x264, whose
      pattern occurs. */
  function ParseCodec(title: string): (r: Option<string>)
    ensures r.None? <==> !CodecIn(title, AV1) && !CodecIn(title, X265) && !CodecIn(title, X264)
    ensures CodecIn(title, AV1) ==> r == Some("av1")
    ensures r == Some("x265") <==> !CodecIn(title, AV1) && CodecIn(title, X265)
    ensures r == Some("x264") <==> !CodecIn(title, AV1) && !CodecIn(title, X265) && CodecIn(title, X264)
  {
    if CodecIn(title, AV1) then Some(CodecLabel(AV1))
    else if CodecIn(title, X265) then Some(CodecLabel(X265))
    else if CodecIn(title, X264) then Some(CodecLabel(X264))
    else None
  }

  predicate NoWordEdge(a: string, b: string) {
    (|a| == 0 || !IsWordChar(a[|a| - 1])) && (|b| == 0 || !IsWordChar(b[0]))
  }

  /** "hevc" as a separate word gives x265 unless the title also names av1. */
  lemma HevcWordIsX265(a: string, b: string)
    requires NoWordEdge(LowerStr(a), LowerStr(b))
    requires !CodecIn(a + "hevc" + b, AV1)
    ensures ParseCodec(a + "hevc" + b) == Some("x265")
  {
    var t := LowerStr(a + "hevc" + b);
    LoweredAround(a, "hevc", b);
    WordBounded(LowerStr(a), "hevc", LowerStr(b));
    assert LiteralEnd(t, |a|, "hevc") == Some(|a| + 4);
    assert CodecAt(t, |a|, X265);
  }

  /** "av1" as a separate word wins over any other codec in the title. */
  lemma Av1WordWins(a: string, b: string)
    requires NoWordEdge(LowerStr(a), LowerStr(b))
    ensures ParseCodec(a + "av1" + b) == Some("av1")
  {
    var t := LowerStr(a + "av1" + b);
    LoweredAround(a, "av1", b);
    WordBounded(LowerStr(a), "av1", LowerStr(b));
    assert CodecAt(t, |a|, AV1);
  }

  /** Lower-casing around a word that is already lower case. */
  lemma LoweredAround(a: string, w: string, b: string)
    requires LowerStr(w) == w
    ensures LowerStr(a + w + b) == LowerStr(a) + w + LowerStr(b)
  {
    LowerStrConcat(a + w, b);
    LowerStrConcat(a, w);
  }

  /** A word between two non-word neighbours sits at its place with a
      boundary on each side. */
  lemma WordBounded(la: string, w: string, lb: string)
    requires |w| > 0 && IsWordChar(w[0]) && IsWordChar(w[|w| - 1])
    requires NoWordEdge(la, lb)
    ensures var t := la + w + lb;
      && t[|la|..|la| + |w|] == w
      && Boundary(t, |la|) && Boundary(t, |la| + |w|)
  {
    var t := la + w + lb;
    assert t[|la|..|la| + |w|] == w;
    assert t[|la|] == w[0] && t[|la| + |w| - 1] == w[|w| - 1];
    if |la| > 0 { assert t[|la| - 1] == la[|la| - 1]; }
    if |lb| > 0 { assert t[|la| + |w|] == lb[0]; }
  }

  /** The word boundary matters: "x265" glued to a preceding letter is not a
      codec mention, although `_parse_codec` of `search_logic.py` takes it. */
  lemma GluedX265Differs()
    ensures SubstringCodec("ax265") == Some("x265")
    ensures !CodecIn("ax265", X265)
  {
    GluedSubstringFound();
    GluedWordMissed();
  }

  lemma GluedSubstringFound()
    ensures SubstringCodec("ax265") == Some("x265")
  {
    var t := LowerStr("ax265");
    assert t == "ax265";
    assert t[1..5] == "x265";
    assert Contains(t[1..], "x265");
    assert Contains(t, "x265");
  }

  lemma GluedWordMissed()
    ensures !CodecIn("ax265", X265)
  {
    var t := LowerStr("ax265");
    assert t == "ax265";
    forall i: nat | i <= |t|
      ensures !CodecAt(t, i, X265)
    {
      if i == 1 {
        assert !Boundary(t, 1);
      }
    }
  }
}
