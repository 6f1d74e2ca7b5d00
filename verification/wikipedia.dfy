/** `telegram_bot/services/scrapers/wikipedia.py`: the text-level decisions the
    Wikipedia scraper makes around its network calls: how page titles are
    normalised and compared, which search result is taken as the film's page,
    which years are reported, how a season's episode count is chosen from the
    series overview, and the episode-title cache's fast path. Page fetching and
    HTML traversal are the caller's; their results arrive here as text. */
module Wikipedia {
  import opened Wrappers
  import opened Strings
  import opened Seqs
  import TextMatch
  import Franchise
  import BotUtils

  // ---------------------------------------------------------------------------
  // _normalize_for_comparison

  /** `re.sub(r"[\W_]+", "", value).casefold()`: letters and digits only, in
      lower case. */
  function NormalizeForComparison(value: string): (r: string)
    ensures |r| <= |value|
    ensures forall i :: 0 <= i < |r| ==> IsLower(r[i]) || IsDigit(r[i])
  {
    LowerStr(Filter(value, IsAlnum))
  }

  lemma {:induction false} LowerFilterAlnum(s: string)
    ensures LowerStr(Filter(s, IsAlnum)) == Franchise.KeepTitleChars(LowerStr(s))
  {
    if |s| > 0 {
      LowerFilterAlnum(s[1..]);
      assert LowerStr(s)[1..] == LowerStr(s[1..]);
      assert IsAlnum(s[0]) <==> Franchise.TitleKept(Lower(s[0]));
      if IsAlnum(s[0]) {
        assert Filter(s, IsAlnum) == [s[0]] + Filter(s[1..], IsAlnum);
        LowerStrConcat([s[0]], Filter(s[1..], IsAlnum));
      }
    }
  }

  /** The comparison form is the franchise helper's normal form: deleting the
      non-word characters before case folding keeps exactly the `[a-z0-9]`
      characters of the lower-cased text. Hence it ignores case, spacing and
      punctuation, and is a fixed point. */
  lemma NormalizeForComparisonIsTitleNormalForm(value: string, other: string)
    ensures NormalizeForComparison(value) == Franchise.NormalizeTitle(value)
    ensures NormalizeForComparison(UpperStr(value)) == NormalizeForComparison(value)
    ensures NormalizeForComparison(NormalizeForComparison(value)) == NormalizeForComparison(value)
    ensures NormalizeForComparison(value + other) == NormalizeForComparison(value) + NormalizeForComparison(other)
  {
    LowerFilterAlnum(value);
    LowerFilterAlnum(UpperStr(value));
    LowerFilterAlnum(other);
    LowerFilterAlnum(value + other);
    LowerFilterAlnum(NormalizeForComparison(value));
    Franchise.NormalizeTitleIgnoresCase(value);
    Franchise.NormalizeTitleIdempotent(value, other);
  }

  /** Characters that are neither letters nor digits make no difference. */
  lemma {:induction false} NormalizeSkipsPunctuation(a: string, c: char, b: string)
    requires !IsAlnum(c)
    ensures NormalizeForComparison(a + [c] + b) == NormalizeForComparison(a + b)
  {
    FilterDropsOne(a, c, b, IsAlnum);
  }

  // ---------------------------------------------------------------------------
  // A trailing parenthetical: \s*\( [^)]* \)\s*$

  /** A parenthetical from `(` at `o` to `)` at `k` with no `)` between them,
      followed only by whitespace up to the end of the text. */
  predicate GroupAt(s: string, o: int, k: int) {
    0 <= o < k < |s| && s[o] == '(' && s[k] == ')'
    && (forall i :: o < i < k ==> s[i] != ')')
    && (forall i :: k < i < |s| ==> IsSpace(s[i]))
  }

  /** The last character that is not whitespace, when it is `)`. */
  function ClosingParen(s: string): (r: Option<nat>)
    ensures r.Some? ==> r.value < |s| && s[r.value] == ')'
    ensures r.Some? ==> forall i :: r.value < i < |s| ==> IsSpace(s[i])
  {
    var t := RStrip(s, Whitespace);
    assert forall i :: |t| <= i < |s| ==> IsSpace(s[i]) by {
      forall i | |t| <= i < |s| ensures IsSpace(s[i]) { WhitespaceIsSpace(s[i]); }
    }
    if |t| > 0 && t[|t| - 1] == ')' then Some(|t| - 1) else None
  }

  /** The start of the run of characters other than `)` that ends at `k`. */
  function RunStart(s: string, k: nat): (r: nat)
    requires k <= |s|
    ensures r <= k && (r == 0 || s[r - 1] == ')')
    ensures forall i :: r <= i < k ==> s[i] != ')'
  {
    if k == 0 || s[k - 1] == ')' then k else RunStart(s, k - 1)
  }

  /** The first `(` in `s[from..k]`. */
  function FirstOpen(s: string, from: nat, k: nat): (r: Option<nat>)
    requires from <= k <= |s|
    ensures r.Some? ==> from <= r.value < k && s[r.value] == '('
    ensures r.Some? ==> forall i :: from <= i < r.value ==> s[i] != '('
    ensures r.None? ==> forall i :: from <= i < k ==> s[i] != '('
    decreases k - from
  {
    if from == k then None
    else if s[from] == '(' then Some(from)
    else FirstOpen(s, from + 1, k)
  }

  /** Where a trailing parenthetical pattern matches: the leftmost `(` that
      opens a group reaching the final `)`. Every group starts at or after it
      and ends at the same `)`. */
  function TrailingGroup(s: string): (r: Option<(nat, nat)>)
    ensures r.Some? ==> GroupAt(s, r.value.0, r.value.1)
    ensures forall o, k :: GroupAt(s, o, k) ==> r.Some? && r.value.0 <= o && r.value.1 == k
  {
    match ClosingParen(s)
    case None =>
      assert forall o, k :: GroupAt(s, o, k) ==> false by {
        forall o, k | GroupAt(s, o, k) ensures false { GroupEndsAtClosing(s, o, k); }
      }
      None
    case Some(k) =>
      var from := RunStart(s, k);
      match FirstOpen(s, from, k)
      case None =>
        assert forall o, k' :: GroupAt(s, o, k') ==> false by {
          forall o, k' | GroupAt(s, o, k') ensures false {
            GroupEndsAtClosing(s, o, k');
            GroupOpensInRun(s, o, k);
          }
        }
        None
      case Some(o) =>
        assert forall o', k' :: GroupAt(s, o', k') ==> o <= o' && k' == k by {
          forall o', k' | GroupAt(s, o', k') ensures o <= o' && k' == k {
            GroupEndsAtClosing(s, o', k');
            GroupOpensInRun(s, o', k);
          }
        }
        Some((o, k))
  }

  lemma GroupEndsAtClosing(s: string, o: int, k: int)
    requires GroupAt(s, o, k)
    ensures ClosingParen(s) == Some(k)
  {
    var t := RStrip(s, Whitespace);
    WhitespaceIsSpace(s[k]);
    assert k < |t|;
    var last := |t| - 1;
    WhitespaceIsSpace(t[last]);
    assert s[last] == t[last];
  }

  lemma GroupOpensInRun(s: string, o: int, k: nat)
    requires k <= |s| && 0 <= o < k && s[o] == '('
    requires forall i :: o < i < k ==> s[i] != ')'
    ensures RunStart(s, k) <= o
  {
    assert forall i :: o <= i < k ==> s[i] != ')';
  }

  /** What `re.sub(pattern, "", s)` leaves when the pattern matches the group
      opened at `o`: the text before it without the whitespace the leading
      `\s*` takes. */
  function CutAt(s: string, o: nat): (r: string)
    requires o <= |s|
    ensures |r| <= o && r == s[..|r|]
  {
    RStrip(s[..o], Whitespace)
  }

  // ---------------------------------------------------------------------------
  // _normalized_search_title

  /** `_normalized_search_title`: one trailing parenthetical such as "(film)"
      or "(1979 film)" removed, then stripped. */
  function NormalizedSearchTitle(pageTitle: string): (r: string)
  {
    match TrailingGroup(pageTitle)
    case Some((o, _)) => Strip(CutAt(pageTitle, o))
    case None => Strip(pageTitle)
  }

  /** Appending " (film)" to a stripped title without `(` is undone by the
      search normalisation (the qualified retry hands back its base). */
  lemma FilmQualifierStripsBack(t: string)
    requires |t| == 0 || (!IsSpace(t[0]) && !IsSpace(t[|t| - 1]))
    requires forall i :: 0 <= i < |t| ==> t[i] != '('
    ensures NormalizedSearchTitle(t + " (film)") == t
  {
    FilmGroup(t);
    var s := t + " (film)";
    assert s[..|t| + 1] == t + " ";
    CutTrailingSpace(t);
    StripNoop(t);
  }

  /** In "Title (film)" the trailing group is the suffix. */
  lemma FilmGroup(t: string)
    requires forall i :: 0 <= i < |t| ==> t[i] != '('
    ensures TrailingGroup(t + " (film)") == Some((|t| + 1, |t| + 6))
  {
    var g := " (film)";
    var s := t + g;
    var o := |t| + 1;
    var k := |t| + 6;
    assert s[o] == '(' && s[k] == ')';
    forall i | o < i < k ensures s[i] != ')' {
      assert s[i] == g[i - |t|];
    }
    assert GroupAt(s, o, k);
    forall i | 0 <= i < o ensures s[i] != '(' {
      if i < |t| {
        assert s[i] == t[i];
      } else {
        assert s[i] == g[0];
      }
    }
    var tg := TrailingGroup(s).value;
    assert tg.0 == o by {
      assert s[tg.0] == '(';
    }
  }

  /** Cutting a title followed by one space drops just the space. */
  lemma CutTrailingSpace(t: string)
    requires |t| == 0 || !IsSpace(t[|t| - 1])
    ensures RStrip(t + " ", Whitespace) == t
  {
    WhitespaceIsSpace(' ');
    assert (t + " ")[..|t|] == t;
    if |t| > 0 { WhitespaceIsSpace(t[|t| - 1]); }
  }

  /** `_candidate_matches_title`: the result page's base title and the
      searched title agree in comparison form. */
  predicate CandidateMatchesTitle(candidate: string, titleKey: string) {
    NormalizeForComparison(NormalizedSearchTitle(candidate)) == titleKey
  }

  // ---------------------------------------------------------------------------
  // _sanitize_wikipedia_title

  /** Case-insensitive `lit` at `p`, inside `s[..end]`. */
  predicate WordCI(s: string, p: int, lit: string, end: int) {
    0 <= p && p + |lit| <= end <= |s| && forall i :: 0 <= i < |lit| ==> Lower(s[p + i]) == lit[i]
  }

  /** The end of the maximal whitespace run starting at `i`. */
  function SpaceRunEnd(s: string, i: nat): (e: nat)
    requires i <= |s|
    ensures i <= e <= |s|
    ensures forall k :: i <= k < e ==> IsSpace(s[k])
    ensures e == |s| || !IsSpace(s[e])
    decreases |s| - i
  {
    if i < |s| && IsSpace(s[i]) then SpaceRunEnd(s, i + 1) else i
  }

  /** `mini[-\s]?series` or `(?:tv|television)\s+series`, case-insensitive,
      starting at `q` and ending by `end`. */
  predicate SeriesWordAt(s: string, q: int, end: int) {
    0 <= q <= end <= |s|
    && ((WordCI(s, q, "mini", end)
         && (WordCI(s, q + 4, "series", end)
             || (q + 4 < end && (s[q + 4] == '-' || IsSpace(s[q + 4])) && WordCI(s, q + 5, "series", end))))
      || (WordCI(s, q, "tv", end) && SpaceRunEnd(s, q + 2) > q + 2
          && WordCI(s, SpaceRunEnd(s, q + 2), "series", end))
      || (WordCI(s, q, "television", end) && SpaceRunEnd(s, q + 10) > q + 10
          && WordCI(s, SpaceRunEnd(s, q + 10), "series", end)))
  }

  /** The group `s[o..k]` holds a series qualifier after a word boundary. */
  predicate HasSeriesQualifier(s: string, o: nat, k: nat) {
    exists q :: o < q < k && TextMatch.NonWordAt(s, q - 1) && SeriesWordAt(s, q, k)
  }

  /** One pass of the loop body: `_WIKIPEDIA_TRAILING_QUALIFIER_PATTERN.sub("",
      cleaned).strip()`. The pattern is the trailing parenthetical restricted
      to groups holding a series qualifier. */
  function StripQualifierOnce(s: string): (r: string)
    ensures |r| <= |s| && (|r| == |s| ==> r == s)
  {
    match TrailingGroup(s)
    case Some((o, k)) =>
      if HasSeriesQualifier(s, o, k) then
        var c := CutAt(s, o);
        StripShortens(c);
        Strip(c)
      else StripShortens(s); Strip(s)
    case None => StripShortens(s); Strip(s)
  }

  /** The pattern only differs from the search normalisation in what the
      group must contain: where it removes something, it removes the same
      group. */
  lemma QualifierIsTrailingGroup(s: string)
    requires StripQualifierOnce(s) != Strip(s)
    ensures StripQualifierOnce(s) == NormalizedSearchTitle(s)
    ensures exists o, k :: GroupAt(s, o, k) && HasSeriesQualifier(s, o, k)
  {
  }

  /** The `while True` loop: repeat until a pass changes nothing. */
  function SanitizeLoop(cleaned: string): (r: string)
    ensures |r| <= |cleaned|
    ensures StripQualifierOnce(r) == r
    decreases |cleaned|
  {
    var next := StripQualifierOnce(cleaned);
    if next == cleaned then cleaned else SanitizeLoop(next)
  }

  /** `_sanitize_wikipedia_title`: series qualifiers stripped until none is
      left; the original title when nothing would remain. */
  function SanitizeWikipediaTitle(title: string): (r: string)
    ensures title == "" <==> r == ""
    ensures r == title || StripQualifierOnce(r) == r
  {
    if title == "" then title
    else
      var cleaned := SanitizeLoop(title);
      if cleaned == "" then title else cleaned
  }

  /** Sanitising twice changes nothing. */
  lemma SanitizeIdempotent(title: string)
    ensures SanitizeWikipediaTitle(SanitizeWikipediaTitle(title)) == SanitizeWikipediaTitle(title)
  {
  }

  /** "TV series" is a series qualifier. */
  lemma TvSeriesWord(s: string, q: nat)
    requires q + 9 <= |s| && s[q..q + 9] == "TV series"
    ensures SeriesWordAt(s, q, q + 9)
  {
    var t := "TV series";
    assert forall i :: 0 <= i < 9 ==> s[q + i] == t[i];
    assert Lower('T') == 't' && Lower('V') == 'v' by {
      assert 'T' as int + 32 == 't' as int && 'V' as int + 32 == 'v' as int;
    }
    assert WordCI(s, q, "tv", q + 9) by {
      assert s[q] == 'T' && s[q + 1] == 'V';
    }
    assert IsSpace(s[q + 2]) && !IsSpace(s[q + 3]) by {
      assert s[q + 2] == ' ' && s[q + 3] == 's';
    }
    assert SpaceRunEnd(s, q + 2) == q + 3;
    assert WordCI(s, q + 3, "series", q + 9) by {
      assert t[3..] == "series";
      assert forall i :: 0 <= i < 6 ==> s[q + 3 + i] == t[3 + i] == "series"[i];
    }
  }

  /** In "Name (TV series)" the group is the suffix, and it holds the qualifier. */
  lemma TvSeriesGroup(name: string)
    requires forall i :: 0 <= i < |name| ==> IsAlpha(name[i]) || name[i] == ' '
    ensures TrailingGroup(name + " (TV series)") == Some((|name| + 1, |name| + 11))
    ensures HasSeriesQualifier(name + " (TV series)", |name| + 1, |name| + 11)
  {
    var s := name + " (TV series)";
    var n := |name|;
    var o, q, k := n + 1, n + 2, n + 11;
    TvSeriesLayout(name);
    var tg := TrailingGroup(s).value;
    assert tg.0 == o by {
      assert s[tg.0] == '(';
    }
    TvSeriesWord(s, q);
    QualifierWitness(s, o, q, k);
  }

  /** Where the parts of "Name (TV series)" sit. */
  lemma TvSeriesLayout(name: string)
    requires forall i :: 0 <= i < |name| ==> IsAlpha(name[i]) || name[i] == ' '
    ensures var s := name + " (TV series)"; var n := |name|;
      && GroupAt(s, n + 1, n + 11)
      && (forall i :: 0 <= i < n + 1 ==> s[i] != '(')
      && s[n + 2..n + 11] == "TV series"
  {
    var g := " (TV series)";
    var s := name + g;
    var n := |name|;
    assert |s| == n + 12;
    assert s[n + 1] == '(' && s[n + 11] == ')';
    forall i | n + 1 < i < n + 11 ensures s[i] != ')' {
      assert s[i] == g[i - n];
    }
    assert GroupAt(s, n + 1, n + 11);
    forall i | 0 <= i < n + 1 ensures s[i] != '(' {
      if i < n {
        assert s[i] == name[i];
      } else {
        assert s[i] == g[0];
      }
    }
    assert s[n + 2..n + 11] == "TV series" by {
      var t := s[n + 2..n + 11];
      forall i | 0 <= i < 9 ensures t[i] == g[2..11][i] {
        assert t[i] == s[n + 2 + i];
      }
      assert g[2..11] == "TV series";
    }
  }

  lemma QualifierWitness(s: string, o: nat, q: nat, k: nat)
    requires o < q < k <= |s| && s[q - 1] == '(' && SeriesWordAt(s, q, k)
    ensures HasSeriesQualifier(s, o, k)
  {
    assert TextMatch.NonWordAt(s, q - 1);
  }

  /** A series suffix is removed whole, and the loop stops at the bare title:
      "Name (TV series)" becomes "Name" for a title of words. */
  lemma SanitizeDropsTvSeries(name: string)
    requires |name| > 0 && IsAlpha(name[0]) && IsAlpha(name[|name| - 1])
    requires forall i :: 0 <= i < |name| ==> IsAlpha(name[i]) || name[i] == ' '
    ensures SanitizeWikipediaTitle(name + " (TV series)") == name
  {
    var s := name + " (TV series)";
    StripTvSeriesOnce(name);
    BareTitleStays(name);
    assert SanitizeLoop(s) == SanitizeLoop(name);
  }

  /** One pass removes the " (TV series)" suffix. */
  lemma StripTvSeriesOnce(name: string)
    requires |name| > 0 && IsAlpha(name[0]) && IsAlpha(name[|name| - 1])
    requires forall i :: 0 <= i < |name| ==> IsAlpha(name[i]) || name[i] == ' '
    ensures StripQualifierOnce(name + " (TV series)") == name
  {
    var s := name + " (TV series)";
    var n := |name|;
    TvSeriesGroup(name);
    assert s[..n + 1] == name + " ";
    assert (name + " ")[..n] == name;
    WhitespaceIsSpace(' ');
    WhitespaceIsSpace(name[n - 1]);
    assert CutAt(s, n + 1) == name;
    StripNoop(name);
  }

  /** A title of words with no parentheses is left as it is. */
  lemma BareTitleStays(name: string)
    requires |name| > 0 && IsAlpha(name[0]) && IsAlpha(name[|name| - 1])
    requires forall i :: 0 <= i < |name| ==> IsAlpha(name[i]) || name[i] == ' '
    ensures SanitizeLoop(name) == name
  {
    StripNoop(name);
    assert TrailingGroup(name) == None by {
      assert forall o', k' :: !GroupAt(name, o', k');
    }
  }

  // ---------------------------------------------------------------------------
  // _extract_years_from_text: re.finditer(r"\b(19\d{2}|20\d{2})\b", text)

  lemma FourDigitYear(y: string)
    requires |y| == 4 && AllDigits(y)
    requires (y[0] == '1' && y[1] == '9') || (y[0] == '2' && y[1] == '0')
    ensures 1900 <= DigitsValue(y) <= 2099
  {
    assert y[..3][..2][..1][..0] == [];
    assert y[..3][..2][..1] == [y[0]];
    assert y[..3][..2] == y[..2];
    assert DigitsValue(y[..2]) == DigitValue(y[0]) * 10 + DigitValue(y[1]);
    assert DigitsValue(y[..3]) == DigitsValue(y[..2]) * 10 + DigitValue(y[2]);
  }

  /** The value of the year match at `p`. */
  function YearValue(s: string, p: nat): (y: nat)
    requires TextMatch.YearAt(s, p)
    ensures 1900 <= y <= 2099
  {
    var t := TextMatch.YearText(s, p);
    assert t[0] == s[p] && t[1] == s[p + 1] && s[p..p + 2][0] == s[p] && s[p..p + 2][1] == s[p + 1];
    FourDigitYear(t);
    DigitsValue(t)
  }

  /** `_extract_years_from_text`: the years of the successive non-overlapping
      matches from `from` on. */
  function ExtractYears(text: string, from: nat): (r: seq<nat>)
    requires from <= |text|
    ensures forall i :: 0 <= i < |r| ==> 1900 <= r[i] <= 2099
    decreases |text| - from
  {
    match TextMatch.FindYear(text, from)
    case None => []
    case Some(p) => [YearValue(text, p)] + ExtractYears(text, p + 4)
  }

  /** Every position from `i` on where a year stands as a word, in order. */
  function YearsScan(text: string, i: nat): (r: seq<nat>)
    requires i <= |text|
    decreases |text| - i
  {
    if i == |text| then []
    else (if TextMatch.YearAt(text, i) then [YearValue(text, i)] else []) + YearsScan(text, i + 1)
  }

  lemma {:induction false} ScanSkips(text: string, a: nat, b: nat)
    requires a <= b <= |text|
    requires forall q :: a <= q < b ==> !TextMatch.YearAt(text, q)
    ensures YearsScan(text, a) == YearsScan(text, b)
    decreases b - a
  {
    if a < b {
      ScanSkips(text, a + 1, b);
    }
  }

  /** Successive matches cannot overlap, so the search finds every year in the
      text: none is skipped and none is counted twice. */
  lemma {:induction false} ExtractYearsFindsAll(text: string, from: nat)
    requires from <= |text|
    ensures ExtractYears(text, from) == YearsScan(text, from)
    decreases |text| - from
  {
    match TextMatch.FindYear(text, from)
    case None =>
      ScanSkips(text, from, |text|);
    case Some(p) =>
      ScanSkips(text, from, p);
      YearsDoNotOverlap(text, p);
      ScanSkips(text, p + 1, p + 4);
      ExtractYearsFindsAll(text, p + 4);
      assert YearsScan(text, p) == [YearValue(text, p)] + YearsScan(text, p + 1);
  }

  /** No year match starts inside another. */
  lemma YearsDoNotOverlap(text: string, p: nat)
    requires TextMatch.YearAt(text, p)
    ensures forall q :: p < q < p + 4 ==> !TextMatch.YearAt(text, q)
  {
    assert text[p..p + 2][0] == text[p] && text[p..p + 2][1] == text[p + 1];
    assert IsDigit(text[p]) && IsDigit(text[p + 1]) && IsDigit(text[p + 2]);
  }

  // ---------------------------------------------------------------------------
  // The film patterns of fetch_movie_years_from_wikipedia

  /** Case-insensitive "film)" at `i`. */
  predicate FilmCloseAt(s: string, i: int) {
    WordCI(s, i, "film", |s|) && i + 4 < |s| && s[i + 4] == ')'
  }

  /** `\((19\d{2}|20\d{2})\s+film\)` (case-insensitive) at `p`. */
  predicate YearFilmAt(s: string, p: int) {
    0 <= p && p + 5 <= |s| && s[p] == '('
    && ((s[p + 1] == '1' && s[p + 2] == '9') || (s[p + 1] == '2' && s[p + 2] == '0'))
    && IsDigit(s[p + 3]) && IsDigit(s[p + 4])
    && SpaceRunEnd(s, p + 5) > p + 5 && FilmCloseAt(s, SpaceRunEnd(s, p + 5))
  }

  /** `\((?:feature\s+)?film\)` (case-insensitive) at `p`. */
  predicate GenericFilmAt(s: string, p: int) {
    0 <= p < |s| && s[p] == '('
    && (FilmCloseAt(s, p + 1)
        || (WordCI(s, p + 1, "feature", |s|) && SpaceRunEnd(s, p + 8) > p + 8
            && FilmCloseAt(s, SpaceRunEnd(s, p + 8))))
  }

  /** The leftmost year-qualified film match at or after `from`. */
  function FindYearFilm(s: string, from: nat): (r: Option<nat>)
    requires from <= |s|
    ensures r.Some? ==> from <= r.value && YearFilmAt(s, r.value)
    ensures r.Some? ==> forall q :: from <= q < r.value ==> !YearFilmAt(s, q)
    ensures r.None? <==> forall q :: from <= q ==> !YearFilmAt(s, q)
    decreases |s| - from
  {
    if from == |s| then None
    else if YearFilmAt(s, from) then Some(from)
    else FindYearFilm(s, from + 1)
  }

  /** `_year_from_title`: the year of the first "(YYYY film)" qualifier. */
  function YearFromTitle(pageTitle: string): (r: Option<nat>)
    ensures r.Some? <==> exists p :: YearFilmAt(pageTitle, p)
    ensures r.Some? ==> 1900 <= r.value <= 2099
  {
    match FindYearFilm(pageTitle, 0)
    case None => None
    case Some(p) =>
      var y := pageTitle[p + 1..p + 5];
      assert y[0] == pageTitle[p + 1] && y[1] == pageTitle[p + 2];
      FourDigitYear(y);
      Some(DigitsValue(y))
  }

  predicate HasGenericFilm(s: string) {
    exists p :: 0 <= p < |s| && GenericFilmAt(s, p)
  }

  /** `"film" in candidate.lower()`. */
  predicate MentionsFilm(s: string) {
    Contains(LowerStr(s), "film")
  }

  lemma FilmCloseMentionsFilm(s: string, i: nat)
    requires FilmCloseAt(s, i)
    ensures MentionsFilm(s)
  {
    var l := LowerStr(s);
    assert l[i..i + 4] == "film";
    ContainsAt(l, "film", i);
  }

  lemma FilmPatternsMentionFilm(s: string, p: nat)
    ensures YearFilmAt(s, p) ==> MentionsFilm(s)
    ensures GenericFilmAt(s, p) ==> MentionsFilm(s)
  {
    if YearFilmAt(s, p) {
      FilmCloseMentionsFilm(s, SpaceRunEnd(s, p + 5));
    }
    if GenericFilmAt(s, p) {
      if FilmCloseAt(s, p + 1) {
        FilmCloseMentionsFilm(s, p + 1);
      } else {
        FilmCloseMentionsFilm(s, SpaceRunEnd(s, p + 8));
      }
    }
  }

  // ---------------------------------------------------------------------------
  // _pick_film_candidate

  const DisambiguationSuffix := "(disambiguation)"

  /** `\(disambiguation\)\Z` (case-insensitive): the title ends with it. */
  predicate IsDisambiguation(c: string) {
    |c| >= |DisambiguationSuffix| && WordCI(c, |c| - |DisambiguationSuffix|, DisambiguationSuffix, |c|)
  }

  /** What the loop body tests about one search result. */
  datatype Candidate = Candidate(
    title: string,
    matches: bool,        // _candidate_matches_title
    yearFilm: bool,       // year_film_pat.search
    genericFilm: bool,    // generic_film_pat.search
    mentionsFilm: bool,   // "film" in candidate.lower()
    disambiguation: bool) // disamb_pat.search

  function Classify(title: string, titleKey: string): (c: Candidate)
    ensures c.title == title
    ensures c.genericFilm ==> c.mentionsFilm
    ensures c.yearFilm ==> c.mentionsFilm
  {
    FilmMatchesMentionFilm(title);
    Candidate(title, CandidateMatchesTitle(title, titleKey), FindYearFilm(title, 0).Some?,
              HasGenericFilm(title), MentionsFilm(title), IsDisambiguation(title))
  }

  /** Both film patterns spell "film", so a title they match also passes the
      plain `"film" in candidate.lower()` test. */
  lemma FilmMatchesMentionFilm(title: string)
    ensures FindYearFilm(title, 0).Some? ==> MentionsFilm(title)
    ensures HasGenericFilm(title) ==> MentionsFilm(title)
  {
    var y := FindYearFilm(title, 0);
    if y.Some? {
      FilmPatternsMentionFilm(title, y.value);
    }
    if HasGenericFilm(title) {
      var p :| 0 <= p < |title| && GenericFilmAt(title, p);
      FilmPatternsMentionFilm(title, p);
    }
  }

  datatype Pick = Pick(best: Option<string>, disambiguation: Option<string>)

  /** The loop over the search results, carrying `best` and `disamb`. */
  function PickFrom(cs: seq<Candidate>, best: Option<string>, disamb: Option<string>): Pick
    decreases |cs|
  {
    if |cs| == 0 then Pick(best, disamb)
    else
      var c := cs[0];
      var d := if disamb.None? && c.disambiguation then Some(c.title) else disamb;
      if !c.matches then PickFrom(cs[1..], best, d)
      else if c.yearFilm then Pick(Some(c.title), d)
      else if best.None? && c.genericFilm then PickFrom(cs[1..], Some(c.title), d)
      else if best.None? && c.mentionsFilm then PickFrom(cs[1..], Some(c.title), d)
      else PickFrom(cs[1..], best, d)
  }

  /** `_pick_film_candidate(search_results)`, with the searched title's
      comparison form. */
  function PickFilmCandidate(searchResults: seq<string>, titleKey: string): Pick
  {
    if |searchResults| == 0 then Pick(None, None)
    else PickFrom(Classified(searchResults, titleKey), None, None)
  }

  /** Every search result with its tests. */
  function Classified(searchResults: seq<string>, titleKey: string): (cs: seq<Candidate>)
    ensures |cs| == |searchResults|
    ensures forall i :: 0 <= i < |cs| ==> cs[i] == Classify(searchResults[i], titleKey)
    ensures WellFormed(cs)
  {
    seq(|searchResults|, i requires 0 <= i < |searchResults| => Classify(searchResults[i], titleKey))
  }

  /** The generic film pattern is never matched without the word "film". */
  predicate WellFormed(cs: seq<Candidate>) {
    forall k :: 0 <= k < |cs| ==> cs[k].genericFilm ==> cs[k].mentionsFilm
  }

  /** A matching result whose title carries "(YYYY film)". */
  predicate YearFilmHit(c: Candidate) { c.matches && c.yearFilm }

  /** A matching result whose title mentions "film". */
  predicate FilmHit(c: Candidate) { c.matches && c.mentionsFilm }

  predicate Disambiguation(c: Candidate) { c.disambiguation }

  function TitleOf(c: Option<Candidate>): Option<string> {
    match c
    case Some(x) => Some(x.title)
    case None => None
  }

  /** The candidate the loop settles on: the first matching result with a year
      qualifier, as soon as it is seen; without one, the first matching result
      that mentions "film". The disambiguation page is the first result ending
      in "(disambiguation)" among those looked at before returning.
      `PickFilmCandidate(results, key)` runs this loop on
      `Classified(results, key)`, which is well formed. */
  lemma PickFilmCandidateSpec(cs: seq<Candidate>)
    requires WellFormed(cs)
    ensures match FirstIndex(cs, YearFilmHit)
      case Some(j) =>
        PickFrom(cs, None, None) == Pick(Some(cs[j].title), TitleOf(FirstOf(cs[..j + 1], Disambiguation)))
      case None =>
        PickFrom(cs, None, None) == Pick(TitleOf(FirstOf(cs, FilmHit)), TitleOf(FirstOf(cs, Disambiguation)))
  {
    PickFromSpec(cs, None, None);
  }

  lemma {:induction false} PickFromSpec(cs: seq<Candidate>, best: Option<string>, disamb: Option<string>)
    requires WellFormed(cs)
    ensures match FirstIndex(cs, YearFilmHit)
      case Some(j) =>
        PickFrom(cs, best, disamb)
          == Pick(Some(cs[j].title), if disamb.Some? then disamb else TitleOf(FirstOf(cs[..j + 1], Disambiguation)))
      case None =>
        PickFrom(cs, best, disamb)
          == Pick(if best.Some? then best else TitleOf(FirstOf(cs, FilmHit)),
                  if disamb.Some? then disamb else TitleOf(FirstOf(cs, Disambiguation)))
    decreases |cs|
  {
    if |cs| > 0 {
      var c := cs[0];
      var rest := cs[1..];
      if YearFilmHit(c) {
        PickFromYearHit(cs, best, disamb);
      } else {
        var d := if disamb.None? && c.disambiguation then Some(c.title) else disamb;
        var b := if FilmHit(c) && best.None? then Some(c.title) else best;
        PickFromStep(cs, best, disamb);
        WellFormedTail(cs);
        PickFromSpec(rest, b, d);
        FirstIndexCons(cs, YearFilmHit);
        match FirstIndex(rest, YearFilmHit)
        case Some(j) =>
          assert FirstIndex(cs, YearFilmHit) == Some(j + 1) && cs[j + 1] == rest[j];
          DisambiguationCarried(cs, j, disamb);
        case None =>
          assert FirstIndex(cs, YearFilmHit).None?;
          FirstOfCons(cs, Disambiguation);
          FirstOfCons(cs, FilmHit);
      }
    }
  }

  /** The disambiguation page a year hit at `j + 1` reports: the one carried
      in, else the first among `cs[..j + 2]`. */
  lemma DisambiguationCarried(cs: seq<Candidate>, j: nat, disamb: Option<string>)
    requires j + 2 <= |cs|
    ensures var d := if disamb.None? && cs[0].disambiguation then Some(cs[0].title) else disamb;
      (if d.Some? then d else TitleOf(FirstOf(cs[1..][..j + 1], Disambiguation)))
        == (if disamb.Some? then disamb else TitleOf(FirstOf(cs[..j + 2], Disambiguation)))
  {
    PrefixFirstOfCons(cs, j, Disambiguation);
  }

  lemma WellFormedTail(cs: seq<Candidate>)
    requires |cs| > 0 && WellFormed(cs)
    ensures WellFormed(cs[1..])
  {
    assert forall k :: 0 <= k < |cs| - 1 ==> cs[1..][k] == cs[k + 1];
  }

  /** A matching year-qualified result ends the loop at once. */
  lemma PickFromYearHit(cs: seq<Candidate>, best: Option<string>, disamb: Option<string>)
    requires |cs| > 0 && YearFilmHit(cs[0])
    ensures FirstIndex(cs, YearFilmHit) == Some(0)
    ensures PickFrom(cs, best, disamb)
      == Pick(Some(cs[0].title), if disamb.Some? then disamb else TitleOf(FirstOf(cs[..1], Disambiguation)))
  {
    assert cs[..1] == [cs[0]];
    FirstOfCons(cs[..1], Disambiguation);
  }

  /** Any other result only updates `best` and `disamb`. */
  lemma PickFromStep(cs: seq<Candidate>, best: Option<string>, disamb: Option<string>)
    requires |cs| > 0 && !YearFilmHit(cs[0]) && WellFormed(cs)
    ensures var c := cs[0];
      PickFrom(cs, best, disamb)
      == PickFrom(cs[1..], if FilmHit(c) && best.None? then Some(c.title) else best,
                  if disamb.None? && c.disambiguation then Some(c.title) else disamb)
  {
    assert cs[0].genericFilm ==> cs[0].mentionsFilm;
  }

  /** The first element of `xs[..j + 2]` satisfying `P`: the head, or the
      first of `xs[1..][..j + 1]`. */
  lemma PrefixFirstOfCons<T>(xs: seq<T>, j: nat, P: T -> bool)
    requires j + 2 <= |xs|
    ensures FirstOf(xs[..j + 2], P) == if P(xs[0]) then Some(xs[0]) else FirstOf(xs[1..][..j + 1], P)
  {
    assert xs[..j + 2][1..] == xs[1..][..j + 1];
    FirstOfCons(xs[..j + 2], P);
  }

  lemma FirstIndexCons<T>(xs: seq<T>, P: T -> bool)
    requires |xs| > 0 && !P(xs[0])
    ensures FirstIndex(xs, P) == match FirstIndex(xs[1..], P) case Some(j) => Some(j + 1) case None => None
  {
  }

  // ---------------------------------------------------------------------------
  // The years fetch_movie_years_from_wikipedia reports

  predicate StrictlyAscending(s: seq<nat>) {
    forall i, j :: 0 <= i < j < |s| ==> s[i] < s[j]
  }

  function InsertYear(y: nat, s: seq<nat>): (r: seq<nat>)
    requires StrictlyAscending(s)
    ensures StrictlyAscending(r)
    ensures forall x :: x in r <==> x == y || x in s
  {
    if |s| == 0 then [y]
    else if y < s[0] then [y] + s
    else if y == s[0] then s
    else
      var rest := InsertYear(y, s[1..]);
      assert forall x :: x in s <==> x == s[0] || x in s[1..];
      assert forall k :: 0 <= k < |rest| ==> s[0] < rest[k] by {
        forall k | 0 <= k < |rest| ensures s[0] < rest[k] {
          assert rest[k] in rest;
        }
      }
      [s[0]] + rest
  }

  /** `sorted(equal_precision_years)`: the set the years were added to, in
      ascending order. */
  function SortedYearSet(years: seq<nat>): (r: seq<nat>)
    ensures StrictlyAscending(r)
    ensures forall x :: x in r <==> x in years
  {
    if |years| == 0 then []
    else
      var r := InsertYear(years[|years| - 1], SortedYearSet(years[..|years| - 1]));
      assert forall x :: x in years <==> x == years[|years| - 1] || x in years[..|years| - 1] by {
        assert years == years[..|years| - 1] + [years[|years| - 1]];
      }
      r
  }

  /** The years of `ys` that do not occur earlier, in their order. */
  function FirstOccurrences(ys: seq<nat>): (r: seq<nat>)
    ensures forall i, j :: 0 <= i < j < |r| ==> r[i] != r[j]
    ensures forall x :: x in r <==> x in ys
  {
    if |ys| == 0 then []
    else
      var prefix := ys[..|ys| - 1];
      var last := ys[|ys| - 1];
      var r := FirstOccurrences(prefix);
      assert ys == prefix + [last];
      if last in prefix then r else r + [last]
  }

  /** The loop with a `seen` set that de-duplicates the heuristic years. */
  method DedupYears(years: seq<nat>) returns (preferred: seq<nat>)
    ensures preferred == FirstOccurrences(years)
  {
    var seen: set<nat> := {};
    preferred := [];
    var i := 0;
    while i < |years|
      invariant 0 <= i <= |years|
      invariant preferred == FirstOccurrences(years[..i])
      invariant seen == set y | y in years[..i]
    {
      var y := years[i];
      assert years[..i + 1] == years[..i] + [y];
      assert years[..i + 1][..i] == years[..i];
      if y !in seen {
        seen := seen + {y};
        preferred := preferred + [y];
      }
      i := i + 1;
    }
    assert years[..i] == years;
  }

  /** The years reported for a movie title: none for a blank title; otherwise
      the ascending set of years read from "(YYYY film)" qualifiers when there
      is one, else the heuristic years without repeats, in first-seen order. */
  method MovieYears(movieTitle: string, equalPrecision: seq<nat>, heuristic: seq<nat>) returns (years: seq<nat>)
    ensures IsBlank(movieTitle) ==> years == []
    ensures !IsBlank(movieTitle) && |equalPrecision| > 0 ==>
      StrictlyAscending(years) && forall y :: y in years <==> y in equalPrecision
    ensures !IsBlank(movieTitle) && |equalPrecision| == 0 ==> years == FirstOccurrences(heuristic)
  {
    StripEmptyIffBlank(movieTitle);
    if Strip(movieTitle) == "" {
      return [];
    }
    if |equalPrecision| > 0 {
      years := SortedYearSet(equalPrecision);
    } else {
      years := DedupYears(heuristic);
    }
  }

  /** Without years, a first search retries once with " (film)" appended,
      unless the title already names a film. */
  predicate RetryWithFilmQualifier(years: seq<nat>, lastResort: bool, title: string) {
    |years| == 0 && !lastResort && !Contains(LowerStr(title), "(film)")
  }

  // ---------------------------------------------------------------------------
  // fetch_season_episode_count_from_wikipedia: choosing the count

  /** `count_from_titles`: the highest episode number the season's episode
      list names (`ep_numbers[-1]` of the sorted keys), `None` for none. */
  function CountFromTitles(episodeNumbers: seq<int>): (r: Option<int>)
    ensures r.None? <==> |episodeNumbers| == 0
    ensures r.Some? ==> r.value in episodeNumbers && forall k :: 0 <= k < |episodeNumbers| ==> episodeNumbers[k] <= r.value
  {
    if |episodeNumbers| == 0 then None
    else
      var rest := CountFromTitles(episodeNumbers[1..]);
      assert forall k :: 1 <= k < |episodeNumbers| ==> episodeNumbers[k] == episodeNumbers[1..][k - 1];
      if rest.Some? && rest.value > episodeNumbers[0] then rest else Some(episodeNumbers[0])
  }

  /** `isinstance(count_from_titles, int) and count_from_titles > 0`. */
  predicate TitlesCountUsable(titlesCount: Option<int>) {
    titlesCount.Some? && titlesCount.value > 0
  }

  /** A table cell's text as `get_text(strip=True)` and `get_text(" ", strip=True)` give it. */
  datatype Cell = Cell(text: string, spacedText: string)

  /** A `wikitable`: the texts of its first row's header cells, and its later rows. */
  datatype Table = Table(headers: seq<string>, rows: seq<seq<Cell>>)

  predicate IsEpisodesHeader(h: string) { Contains(h, "episode") }
  predicate IsLastAiredHeader(h: string) { Contains(h, "last") && Contains(h, "air") }
  predicate IsFirstAiredHeader(h: string) {
    (Contains(h, "originally") && Contains(h, "air")) || (Contains(h, "original") && Contains(h, "release"))
  }

  function LowerHeaders(t: Table): (hs: seq<string>)
    ensures |hs| == |t.headers| && forall i :: 0 <= i < |hs| ==> hs[i] == LowerStr(t.headers[i])
  {
    seq(|t.headers|, i requires 0 <= i < |t.headers| => LowerStr(t.headers[i]))
  }

  /** The "Series overview" table: its first header names the season and some
      header names the episodes. */
  predicate IsOverviewTable(t: Table) {
    var hs := LowerHeaders(t);
    |hs| > 0 && Contains(hs[0], "season") && exists i :: 0 <= i < |hs| && IsEpisodesHeader(hs[i])
  }

  /** The first row that reaches the episodes column and whose first cell
      starts with the season's number. */
  function FindSeasonRow(rows: seq<seq<Cell>>, episodesCol: nat, season: int): (r: Option<nat>)
    ensures r.Some? ==> r.value < |rows| && SeasonRow(rows[r.value], episodesCol, season)
    ensures r.Some? ==> forall k :: 0 <= k < r.value ==> !SeasonRow(rows[k], episodesCol, season)
    ensures r.None? ==> forall k :: 0 <= k < |rows| ==> !SeasonRow(rows[k], episodesCol, season)
  {
    FirstIndexFrom(rows, SeasonRowOf(episodesCol, season), 0)
  }

  function SeasonRowOf(episodesCol: nat, season: int): seq<Cell> -> bool {
    row => SeasonRow(row, episodesCol, season)
  }

  predicate SeasonRow(row: seq<Cell>, episodesCol: nat, season: int) {
    episodesCol < |row|
    && var n := BotUtils.ExtractFirstInt(row[0].text); n.Some? && n.value == season
  }

  /** `_cell_text(i)` for a column that was found; "" for a missing column or cell. */
  function AiredText(row: seq<Cell>, col: Option<nat>): string {
    if col.Some? && col.value < |row| then row[col.value].spacedText else ""
  }

  predicate Ongoing(airText: string) {
    Contains(airText, "present") || Contains(airText, "tba") || Contains(airText, "ongoing")
  }

  /** The count read from the season's overview row. An ongoing season trusts
      only the episode list; otherwise the overview's number, raised to the
      episode list's count when both are known. */
  function SeasonRowCount(titlesCount: Option<int>, row: seq<Cell>, episodesCol: nat,
                          lastCol: Option<nat>, firstCol: Option<nat>): (r: Option<int>)
    requires episodesCol < |row|
    ensures Ongoing(LowerStr(AiredText(row, lastCol) + " " + AiredText(row, firstCol))) ==>
      r == (if TitlesCountUsable(titlesCount) then titlesCount else None)
    ensures !Ongoing(LowerStr(AiredText(row, lastCol) + " " + AiredText(row, firstCol))) ==>
      var ep := BotUtils.ExtractFirstInt(row[episodesCol].text);
      (TitlesCountUsable(titlesCount) && ep.Some? && ep.value > 0 ==>
         r.Some? && r.value >= titlesCount.value && r.value >= ep.value
         && (r.value == titlesCount.value || r.value == ep.value))
      && (!(TitlesCountUsable(titlesCount) && ep.Some? && ep.value > 0) ==>
         (r.Some? <==> ep.Some?) && (r.Some? ==> r.value == ep.value))
  {
    var airText := LowerStr(AiredText(row, lastCol) + " " + AiredText(row, firstCol));
    if Ongoing(airText) then
      if TitlesCountUsable(titlesCount) then titlesCount else None
    else
      var ep := BotUtils.ExtractFirstInt(row[episodesCol].text);
      if TitlesCountUsable(titlesCount) && ep.Some? && ep.value != 0 then
        Some(if titlesCount.value >= ep.value then titlesCount.value else ep.value)
      else if ep.Some? then Some(ep.value)
      else None
  }

  /** What the count lookup does once the page is parsed. */
  datatype CountAnswer = Count(count: Option<int>) | RetryWithSeriesQualifier

  /** Choosing the season's episode count from the episode list's count and
      the page's `wikitable`s. */
  function EpisodeCount(titlesCount: Option<int>, tables: seq<Table>, season: int, lastResort: bool): (r: CountAnswer)
    ensures r.RetryWithSeriesQualifier? <==>
      (forall k :: 0 <= k < |tables| ==> !IsOverviewTable(tables[k])) && !TitlesCountUsable(titlesCount) && !lastResort
  {
    match FirstIndex(tables, IsOverviewTable)
    case None =>
      if TitlesCountUsable(titlesCount) then Count(titlesCount)
      else if !lastResort then RetryWithSeriesQualifier
      else Count(None)
    case Some(ti) =>
      var t := tables[ti];
      var hs := LowerHeaders(t);
      match FirstIndex(hs, IsEpisodesHeader)
      case None => Count(None)
      case Some(e) =>
        match FindSeasonRow(t.rows, e, season)
        case None => Count(if TitlesCountUsable(titlesCount) then titlesCount else None)
        case Some(i) =>
          Count(SeasonRowCount(titlesCount, t.rows[i], e,
                               FirstIndex(hs, IsLastAiredHeader), FirstIndex(hs, IsFirstAiredHeader)))
  }

  /** `n` is the number in column `col` of a row for `season` of an overview
      table. */
  ghost predicate OverviewSays(tables: seq<Table>, season: int, n: int) {
    exists ti, ri, col :: 0 <= ti < |tables| && IsOverviewTable(tables[ti])
      && 0 <= ri < |tables[ti].rows| && 0 <= col && SeasonRow(tables[ti].rows[ri], col, season)
      && NumberIn(tables[ti].rows[ri][col], n)
  }

  predicate NumberIn(cell: Cell, n: int) {
    var m := BotUtils.ExtractFirstInt(cell.text);
    m.Some? && m.value == n
  }

  /** Some overview table has a row for `season`. */
  ghost predicate HasSeasonRow(tables: seq<Table>, season: int) {
    exists ti, ri, col :: 0 <= ti < |tables| && IsOverviewTable(tables[ti])
      && 0 <= ri < |tables[ti].rows| && 0 <= col && SeasonRow(tables[ti].rows[ri], col, season)
  }

  /** The count is never invented: it is the episode list's count or the
      overview's number for the season. */
  lemma EpisodeCountSources(titlesCount: Option<int>, tables: seq<Table>, season: int, lastResort: bool)
    ensures var r := EpisodeCount(titlesCount, tables, season, lastResort);
      r.Count? && r.count.Some? ==>
        (TitlesCountUsable(titlesCount) && r.count == titlesCount) || OverviewSays(tables, season, r.count.value)
  {
    match FirstIndex(tables, IsOverviewTable)
    case None =>
    case Some(ti) =>
      var t := tables[ti];
      var hs := LowerHeaders(t);
      OverviewHasEpisodesColumn(t);
      var e := FirstIndex(hs, IsEpisodesHeader).value;
      match FindSeasonRow(t.rows, e, season)
      case None =>
      case Some(ri) =>
        var row := t.rows[ri];
        var lc, fc := FirstIndex(hs, IsLastAiredHeader), FirstIndex(hs, IsFirstAiredHeader);
        var c := SeasonRowCount(titlesCount, row, e, lc, fc);
        assert EpisodeCount(titlesCount, tables, season, lastResort) == Count(c);
        RowCountSources(titlesCount, row, e, lc, fc);
        if c.Some? && !(TitlesCountUsable(titlesCount) && c == titlesCount) {
          OverviewWitness(tables, season, ti, ri, e, c.value);
        }
  }

  /** Without a row for the season in an overview table, a usable episode-list
      count is the answer. */
  lemma EpisodeCountFallback(titlesCount: Option<int>, tables: seq<Table>, season: int, lastResort: bool)
    requires !HasSeasonRow(tables, season) && TitlesCountUsable(titlesCount)
    ensures EpisodeCount(titlesCount, tables, season, lastResort) == Count(titlesCount)
  {
    match FirstIndex(tables, IsOverviewTable)
    case None =>
    case Some(ti) =>
      var t := tables[ti];
      OverviewHasEpisodesColumn(t);
      var e := FirstIndex(LowerHeaders(t), IsEpisodesHeader).value;
      match FindSeasonRow(t.rows, e, season)
      case None =>
      case Some(ri) =>
        assert HasSeasonRow(tables, season);
  }

  /** An overview table always has its episodes column. */
  lemma OverviewHasEpisodesColumn(t: Table)
    requires IsOverviewTable(t)
    ensures FirstIndex(LowerHeaders(t), IsEpisodesHeader).Some?
  {
  }

  lemma OverviewWitness(tables: seq<Table>, season: int, ti: nat, ri: nat, col: nat, n: int)
    requires ti < |tables| && IsOverviewTable(tables[ti]) && ri < |tables[ti].rows|
    requires SeasonRow(tables[ti].rows[ri], col, season)
    requires NumberIn(tables[ti].rows[ri][col], n)
    ensures OverviewSays(tables, season, n)
  {
  }

  /** The row's count is the episode list's count or the row's own number. */
  lemma RowCountSources(titlesCount: Option<int>, row: seq<Cell>, e: nat, lc: Option<nat>, fc: Option<nat>)
    requires e < |row|
    ensures var r := SeasonRowCount(titlesCount, row, e, lc, fc);
      r.Some? ==> ((TitlesCountUsable(titlesCount) && r == titlesCount) || NumberIn(row[e], r.value))
  {
  }

  // ---------------------------------------------------------------------------
  // The episode-title cache

  /** `_WIKI_TITLES_CACHE`: per show and season, the episode titles and the
      corrected show title. */
  type TitlesCache = map<(string, int), (map<int, string>, Option<string>)>

  /** `(show_title.strip().lower(), season)`. */
  function CacheKey(showTitle: string, season: int): (string, int) {
    (LowerStr(Strip(showTitle)), season)
  }

  /** The fast path: on a hit, the cached title of the episode (if any) and the
      cached correction; `None` means a miss and a page lookup. */
  function CachedEpisodeTitle(cache: TitlesCache, showTitle: string, season: int, episode: int)
    : (r: Option<(Option<string>, Option<string>)>)
    ensures r.Some? <==> CacheKey(showTitle, season) in cache
  {
    var key := CacheKey(showTitle, season);
    if key in cache then
      var entry := cache[key];
      Some((if episode in entry.0 then Some(entry.0[episode]) else None, entry.1))
    else None
  }

  /** Populating the cache after a page lookup: only a non-empty title map is
      stored. */
  function StoreSeasonTitles(cache: TitlesCache, showTitle: string, season: int,
                             titles: map<int, string>, corrected: Option<string>): (r: TitlesCache)
    ensures |titles| == 0 ==> r == cache
    ensures |titles| > 0 ==> r.Keys == cache.Keys + {CacheKey(showTitle, season)}
  {
    if |titles| > 0 then cache[CacheKey(showTitle, season) := (titles, corrected)] else cache
  }

  /** After a season is stored, every later request for it, spelt with any
      case or surrounding whitespace, is answered from the cache with the
      stored episode title and correction. */
  lemma CacheFastPath(cache: TitlesCache, showTitle: string, season: int, titles: map<int, string>,
                      corrected: Option<string>, other: string, episode: int)
    requires |titles| > 0
    ensures var stored := StoreSeasonTitles(cache, showTitle, season, titles, corrected);
      var hit := Some((if episode in titles then Some(titles[episode]) else None, corrected));
      CachedEpisodeTitle(stored, showTitle, season, episode) == hit
      && CachedEpisodeTitle(stored, UpperStr(showTitle), season, episode) == hit
      && CachedEpisodeTitle(stored, " " + showTitle + "\n", season, episode) == hit
  {
    CacheKeyIgnoresCase(showTitle);
    CacheKeyIgnoresPadding(showTitle);
  }

  lemma CacheKeyIgnoresCase(s: string)
    ensures LowerStr(Strip(UpperStr(s))) == LowerStr(Strip(s))
  {
    StripUpper(s);
    Franchise.LowerUpper(Strip(s));
  }

  lemma CacheKeyIgnoresPadding(s: string)
    ensures Strip(" " + s + "\n") == Strip(s)
  {
    var pre, post := " ", "\n";
    assert " " + s + "\n" == pre + (s + post);
    WhitespaceIsSpace(' ');
    WhitespaceIsSpace('\n');
    LStripPrepend(pre, s + post);
    LStripAppend(s, post);
  }

  /** Whitespace in front is stripped away. */
  lemma {:induction false} LStripPrepend(pre: string, s: string)
    requires forall i :: 0 <= i < |pre| ==> pre[i] in Whitespace
    ensures LStrip(pre + s, Whitespace) == LStrip(s, Whitespace)
  {
    if |pre| > 0 {
      assert (pre + s)[1..] == pre[1..] + s;
      LStripPrepend(pre[1..], s);
    } else {
      assert pre + s == s;
    }
  }

  /** Left-stripping text followed by whitespace. */
  lemma {:induction false} LStripAppend(s: string, tail: string)
    requires forall i :: 0 <= i < |tail| ==> tail[i] in Whitespace
    ensures RStrip(LStrip(s + tail, Whitespace), Whitespace) == RStrip(LStrip(s, Whitespace), Whitespace)
  {
    if |s| > 0 && s[0] in Whitespace {
      TailOfAppend(s, tail);
      assert LStrip(s + tail, Whitespace) == LStrip(s[1..] + tail, Whitespace);
      LStripAppend(s[1..], tail);
    } else if |s| == 0 {
      assert s + tail == tail;
      assert LStrip(tail, Whitespace) == [] by { LStripAllWhitespace(tail); }
    } else {
      RStripAppend(s, tail);
    }
  }

  lemma {:induction false} LStripAllWhitespace(t: string)
    requires forall i :: 0 <= i < |t| ==> t[i] in Whitespace
    ensures LStrip(t, Whitespace) == []
  {
    if |t| > 0 {
      LStripAllWhitespace(t[1..]);
    }
  }

  lemma {:induction false} RStripAppend(s: string, tail: string)
    requires forall i :: 0 <= i < |tail| ==> tail[i] in Whitespace
    ensures RStrip(s + tail, Whitespace) == RStrip(s, Whitespace)
    decreases |tail|
  {
    if |tail| > 0 {
      var u := s + tail;
      assert u[..|u| - 1] == s + tail[..|tail| - 1];
      RStripAppend(s, tail[..|tail| - 1]);
    } else {
      assert s + tail == s;
    }
  }

  /** Upper-casing keeps whitespace where it is, so it commutes with `strip()`. */
  lemma StripUpper(s: string)
    ensures Strip(UpperStr(s)) == UpperStr(Strip(s))
  {
    LStripUpper(s);
    RStripUpper(LStrip(s, Whitespace));
  }

  lemma {:induction false} LStripUpper(s: string)
    ensures LStrip(UpperStr(s), Whitespace) == UpperStr(LStrip(s, Whitespace))
  {
    if |s| > 0 {
      assert UpperStr(s)[1..] == UpperStr(s[1..]);
      assert UpperStr(s)[0] in Whitespace <==> s[0] in Whitespace;
      LStripUpper(s[1..]);
    }
  }

  lemma {:induction false} RStripUpper(s: string)
    ensures RStrip(UpperStr(s), Whitespace) == UpperStr(RStrip(s, Whitespace))
  {
    if |s| > 0 {
      var u := UpperStr(s);
      assert u[..|u| - 1] == UpperStr(s[..|s| - 1]);
      assert u[|u| - 1] in Whitespace <==> s[|s| - 1] in Whitespace;
      RStripUpper(s[..|s| - 1]);
    }
  }
}
