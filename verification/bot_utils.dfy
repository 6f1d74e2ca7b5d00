/** The pure helpers of `telegram_bot/utils.py`: the first-integer extractor,
    the torrent-name parser and the site-name shortener. */
module BotUtils {
  import opened Wrappers
  import opened Strings
  import opened Values
  import opened TextMatch
  import opened Paths
  import Seqs

  // ---------------------------------------------------------------------------
  // extract_first_int

  /** Start of the first digit at or after `i`, if any. */
  function FirstDigit(s: string, i: nat): (r: Option<nat>)
    requires i <= |s|
    ensures r.Some? ==> i <= r.value < |s| && IsDigit(s[r.value])
    ensures r.Some? ==> forall k :: i <= k < r.value ==> !IsDigit(s[k])
    ensures r.None? ==> forall k :: i <= k < |s| ==> !IsDigit(s[k])
    decreases |s| - i
  {
    if i == |s| then None
    else if IsDigit(s[i]) then Some(i)
    else FirstDigit(s, i + 1)
  }

  /** The value of the first maximal run of digits in `t`, if there is one. */
  function FirstInt(t: string): (r: Option<nat>)
    ensures r.None? <==> forall k :: 0 <= k < |t| ==> !IsDigit(t[k])
  {
    match FirstDigit(t, 0)
    case None => None
    case Some(i) => Some(DigitsValue(t[i..DigitRunEnd(t, i)]))
  }

  /** `extract_first_int`: `None` for empty text, otherwise the value of the
      first maximal run of digits of the stripped text
      (`re.search(r"\d+", text.strip())`). */
  function ExtractFirstInt(text: string): (r: Option<nat>)
    ensures text == "" ==> r.None?
  {
    if text == "" then None else FirstInt(Strip(text))
  }

  /** Text without a digit yields no number. */
  lemma ExtractNoDigits(text: string)
    requires forall k :: 0 <= k < |text| ==> !IsDigit(text[k])
    ensures ExtractFirstInt(text).None?
  {
    if text != "" {
      var a, b := StripSlice(text);
      var t := Strip(text);
      forall k | 0 <= k < |t| ensures !IsDigit(t[k]) {
        assert t[k] == text[a + k];
      }
      assert FirstInt(t).None?;
    }
  }

  /** `strip()` of a text whose characters at `lo` and `hi - 1` are not
      whitespace keeps at least `s[lo..hi]`. */
  lemma StripWindow(s: string, lo: nat, hi: nat) returns (a: nat, b: nat)
    requires lo < hi <= |s| && !IsSpace(s[lo]) && !IsSpace(s[hi - 1])
    ensures a <= lo && hi <= b <= |s| && Strip(s) == s[a..b]
  {
    var l := LStrip(s, Whitespace);
    a := |s| - |l|;
    assert a <= lo by {
      WhitespaceIsSpace(s[lo]);
    }
    assert l == s[a..];
    assert l[hi - 1 - a] == s[hi - 1];
    var r := RStrip(l, Whitespace);
    assert |r| >= hi - a by {
      WhitespaceIsSpace(l[hi - 1 - a]);
    }
    b := a + |r|;
    assert Strip(s) == r;
    Seqs.TakeOfDrop(s, a, |r|);
  }

  /** A number written into text is read back: with no digit before it and none
      right after it, `extract_first_int` returns exactly that number. */
  lemma ExtractRendered(prefix: string, n: nat, suffix: string)
    requires forall k :: 0 <= k < |prefix| ==> !IsDigit(prefix[k])
    requires |suffix| == 0 || !IsDigit(suffix[0])
    ensures ExtractFirstInt(prefix + NatToString(n) + suffix) == Some(n)
  {
    ExtractDigitsBetween(prefix, NatToString(n), suffix);
  }

  /** The same for any run of digits, read back as its value. */
  lemma ExtractDigitsBetween(prefix: string, d: string, suffix: string)
    requires |d| > 0 && AllDigits(d)
    requires forall k :: 0 <= k < |prefix| ==> !IsDigit(prefix[k])
    requires |suffix| == 0 || !IsDigit(suffix[0])
    ensures ExtractFirstInt(prefix + d + suffix) == Some(DigitsValue(d))
  {
    RenderedLayout(prefix, d, suffix);
    ReadBackText(prefix + d + suffix, |prefix|, d);
  }

  /** Digits at `lo` with no digit before them and none right after them are
      the number `extract_first_int` finds. */
  lemma ReadBackText(text: string, lo: nat, d: string)
    requires |d| > 0 && AllDigits(d) && lo + |d| <= |text|
    requires forall k :: 0 <= k < |d| ==> text[lo + k] == d[k]
    requires forall k :: 0 <= k < lo ==> !IsDigit(text[k])
    requires lo + |d| == |text| || !IsDigit(text[lo + |d|])
    requires !IsSpace(text[lo]) && !IsSpace(text[lo + |d| - 1])
    ensures ExtractFirstInt(text) == Some(DigitsValue(d))
  {
    var a, b := StripWindow(text, lo, lo + |d|);
    ReadBackWindow(text, lo, d, a, b);
  }

  /** Where the digits sit in `prefix + d + suffix`, and what surrounds them. */
  lemma RenderedLayout(prefix: string, d: string, suffix: string)
    requires |d| > 0 && AllDigits(d)
    requires forall k :: 0 <= k < |prefix| ==> !IsDigit(prefix[k])
    requires |suffix| == 0 || !IsDigit(suffix[0])
    ensures var text := prefix + d + suffix; var lo := |prefix|;
      && lo + |d| <= |text|
      && (forall k :: 0 <= k < |d| ==> text[lo + k] == d[k])
      && (forall k :: 0 <= k < lo ==> !IsDigit(text[k]))
      && (lo + |d| == |text| || !IsDigit(text[lo + |d|]))
      && !IsSpace(text[lo]) && !IsSpace(text[lo + |d| - 1])
  {
    var text := prefix + d + suffix;
    var lo, hi := |prefix|, |prefix| + |d|;
    assert forall k :: 0 <= k < |d| ==> text[lo + k] == d[k];
    assert forall k :: 0 <= k < lo ==> text[k] == prefix[k];
    assert hi < |text| ==> text[hi] == suffix[0];
    assert IsDigit(text[lo]) && IsDigit(text[hi - 1]);
  }

  /** Reading the first number out of the window `text[a..b]` finds `d` when it
      sits at `lo` inside the window, after no other digit. */
  lemma ReadBackWindow(text: string, lo: nat, d: string, a: nat, b: nat)
    requires a <= lo && lo + |d| <= b <= |text|
    requires |d| > 0 && AllDigits(d)
    requires forall k :: 0 <= k < |d| ==> text[lo + k] == d[k]
    requires forall k :: 0 <= k < lo ==> !IsDigit(text[k])
    requires lo + |d| == |text| || !IsDigit(text[lo + |d|])
    ensures FirstInt(text[a..b]) == Some(DigitsValue(d))
  {
    var i := lo - a;
    WindowNoDigitBefore(text, a, b, i);
    WindowHoldsDigits(text, a, b, i, d);
    WindowEndsRun(text, a, b, i, |d|);
    FirstNumberIn(text[a..b], i, d);
  }

  lemma WindowNoDigitBefore(text: string, a: nat, b: nat, i: nat)
    requires a + i <= b <= |text|
    requires forall k :: 0 <= k < a + i ==> !IsDigit(text[k])
    ensures forall k :: 0 <= k < i ==> !IsDigit(text[a..b][k])
  {
    var t := text[a..b];
    forall k | 0 <= k < i ensures !IsDigit(t[k]) {
      assert t[k] == text[a + k];
    }
  }

  lemma WindowHoldsDigits(text: string, a: nat, b: nat, i: nat, d: string)
    requires a + i + |d| <= b <= |text|
    requires forall k :: 0 <= k < |d| ==> text[a + i + k] == d[k]
    ensures i + |d| <= |text[a..b]| && text[a..b][i..i + |d|] == d
  {
    assert text[a + i..a + i + |d|] == d;
    Seqs.SliceOfSlice(text, a, b, i, i + |d|);
  }

  lemma WindowEndsRun(text: string, a: nat, b: nat, i: nat, n: nat)
    requires a + i + n <= b <= |text|
    requires a + i + n == |text| || !IsDigit(text[a + i + n])
    ensures i + n == |text[a..b]| || !IsDigit(text[a..b][i + n])
  {
    if i + n < b - a {
      assert text[a..b][i + n] == text[a + i + n];
    }
  }

  /** The first digit run of `t` is `d`, found at `i`. */
  lemma FirstNumberIn(t: string, i: nat, d: string)
    requires i + |d| <= |t| && |d| > 0 && AllDigits(d)
    requires forall k :: 0 <= k < i ==> !IsDigit(t[k])
    requires t[i..i + |d|] == d
    requires i + |d| == |t| || !IsDigit(t[i + |d|])
    ensures FirstInt(t) == Some(DigitsValue(d))
  {
    assert forall k :: i <= k < i + |d| ==> t[k] == d[k - i];
    FirstDigitAt(t, 0, i);
    DigitRunCovers(t, i, |d|);
    assert t[i..DigitRunEnd(t, i)] == d;
  }

  lemma {:induction false} FirstDigitAt(t: string, from: nat, i: nat)
    requires from <= i < |t| && IsDigit(t[i])
    requires forall k :: from <= k < i ==> !IsDigit(t[k])
    ensures FirstDigit(t, from) == Some(i)
    decreases i - from
  {
    if from < i {
      FirstDigitAt(t, from + 1, i);
    }
  }

  lemma {:induction false} DigitRunCovers(s: string, i: nat, n: nat)
    requires i + n <= |s|
    requires forall k :: i <= k < i + n ==> IsDigit(s[k])
    ensures DigitRunEnd(s, i) >= i + n
    decreases n
  {
    if n > 0 {
      DigitRunCovers(s, i + 1, n - 1);
    }
  }

  // ---------------------------------------------------------------------------
  // parse_torrent_name

  /** `re.sub(r"[._]", " ", name)`. */
  function CleanName(name: string): (r: string)
    ensures |r| == |name|
    ensures forall k :: 0 <= k < |r| ==> r[k] == (if name[k] == '.' || name[k] == '_' then ' ' else name[k])
  {
    seq(|name|, k requires 0 <= k < |name| => if name[k] == '.' || name[k] == '_' then ' ' else name[k])
  }

  datatype TvHit = TvHit(start: nat, season: nat, episode: nat)

  /** `\b(S(\d{1,2})E(\d{1,2})|(\d{1,2})x(\d{1,2}))\b`, case-insensitive, at `p`. */
  function TvMatchAt(s: string, p: nat): (r: Option<TvHit>)
    ensures r.Some? ==> r.value.start == p && r.value.season < 100 && r.value.episode < 100
    ensures r.Some? ==> WordStart(s, p)
  {
    if !WordStart(s, p) then None
    else
      var afterTag :=
        if CharCI(s, p, 'S') then Some(p + 1)
        else if IsDigit(s[p]) then Some(p) else None;
      if afterTag.None? then None
      else
        var sepChar := if CharCI(s, p, 'S') then 'E' else 'x';
        match OneOrTwoDigits(s, afterTag.value)
        case None => None
        case Some(e1) =>
          if !CharCI(s, e1, sepChar) then None
          else
            match OneOrTwoDigits(s, e1 + 1)
            case None => None
            case Some(e2) =>
              if !NonWordAt(s, e2) then None
              else
                DigitsBelow100(s[afterTag.value..e1]);
                DigitsBelow100(s[e1 + 1..e2]);
                Some(TvHit(p, DigitsValue(s[afterTag.value..e1]), DigitsValue(s[e1 + 1..e2])))
  }

  /** The leftmost TV marker at or after `from`. */
  function FindTv(s: string, from: nat): (r: Option<TvHit>)
    requires from <= |s|
    ensures r.Some? ==> from <= r.value.start < |s| && TvMatchAt(s, r.value.start) == r
    ensures r.Some? ==> forall q :: from <= q < r.value.start ==> TvMatchAt(s, q).None?
    ensures r.None? ==> forall q :: from <= q < |s| ==> TvMatchAt(s, q).None?
    decreases |s| - from
  {
    if from == |s| then None
    else if TvMatchAt(s, from).Some? then TvMatchAt(s, from)
    else FindTv(s, from + 1)
  }

  /** What `parse_torrent_name` returns, by its `type` key. */
  datatype ParsedName =
    | TvName(title: string, season: nat, episode: nat)
    | MovieName(title: string, year: string)
    | UnknownName(title: string)

  /** The result as the dictionary the rest of the bot reads. */
  function NameDict(p: ParsedName): (d: Dict)
    ensures "type" in d && "title" in d && d["title"] == VStr(p.title)
    ensures p.TvName? <==> d["type"] == VStr("tv")
    ensures p.TvName? ==> "season" in d && "episode" in d && d["season"] == VInt(p.season) && d["episode"] == VInt(p.episode)
    ensures !p.TvName? ==> "episode" !in d && "season" !in d
  {
    match p
    case TvName(t, s, e) => map["type" := VStr("tv"), "title" := VStr(t), "season" := VInt(s), "episode" := VInt(e)]
    case MovieName(t, y) => map["type" := VStr("movie"), "title" := VStr(t), "year" := VStr(y)]
    case UnknownName(t) => map["type" := VStr("unknown"), "title" := VStr(t)]
  }

  /** The separators `rstrip(" _.-([")` trims off a title. */
  const TitleTrail: set<char> := {' ', '_', '.', '-', '(', '['}

  function TrimTitle(t: string): (r: string)
    ensures |r| <= |t|
    ensures |r| == 0 || (!IsSpace(r[0]) && !IsSpace(r[|r| - 1]))
  {
    Strip(RStrip(t, TitleTrail))
  }

  /** `parse_torrent_name`, as written. */
  function ParseTorrentName(name: string): (r: ParsedName)
    ensures var c := CleanName(name);
      && (FindTv(c, 0).Some? <==> r.TvName?)
      && (r.TvName? ==> r.season == FindTv(c, 0).value.season && r.episode == FindTv(c, 0).value.episode)
      && (r.MovieName? <==> FindTv(c, 0).None? && FindYear(c, 0).Some?)
      && (r.MovieName? ==> r.year == YearText(c, FindYear(c, 0).value))
  {
    var c := CleanName(name);
    match FindTv(c, 0)
    case Some(hit) =>
      var title := Strip(RemoveTags(Strip(c[..hit.start])));
      TvName(TrimTitle(title), hit.season, hit.episode)
    case None =>
      match FindYear(c, 0)
      case Some(p) => MovieName(TrimTitle(Strip(c[..p])), YearText(c, p))
      case None => UnknownName(FallbackTitle(SplitExt(c).0))
  }

  function FallbackTitle(noExt: string): string {
    Strip(CollapseSpaces(Strip(RemoveTags(noExt))))
  }

  /** Lower-cased first letters of the quality tags. */
  const TagInitials: set<char> := {'1', '7', '4', 'x', 'h', 'b', 'w', 'a', 'd', 'r'}

  /** A plain word: letters only, not starting like a quality tag. */
  predicate PlainWord(w: string) {
    |w| > 0 && (forall k :: 0 <= k < |w| ==> IsAlpha(w[k])) && Lower(w[0]) !in TagInitials
  }

  /** Every dot has become a space before `splitext` runs, so the fallback never
      removes an extension: "Nature.mkv" is titled "Nature mkv". */
  lemma FallbackKeepsExtension(base: string, ext: string)
    requires PlainWord(base) && PlainWord(ext)
    ensures ParseTorrentName(base + "." + ext) == UnknownName(base + " " + ext)
  {
    var c := CleanName(base + "." + ext);
    CleanPlainPair(base, ext);
    PlainPairFacts(base, ext);
    assert FindTv(c, 0).None? by { NoDigitsNoTv(c, 0); }
    assert FindYear(c, 0).None?;
    assert SplitExt(c).0 == c by { NoDotNoExt(c); }
    assert FallbackTitle(c) == c by { PlainPairTitle(base, ext); }
  }

  /** Facts about two plain words joined by one space. */
  lemma PlainPairFacts(base: string, ext: string)
    requires PlainWord(base) && PlainWord(ext)
    ensures var w := base + " " + ext;
      && (forall k :: 0 <= k < |w| ==> !IsDigit(w[k]) && w[k] != '.' && w[k] != '[' && w[k] != '(')
      && (forall k :: 0 <= k < |w| ==> (IsSpace(w[k]) <==> k == |base|))
      && (forall k :: 0 <= k < |w| && WordStart(w, k) ==> k == 0 || k == |base| + 1)
  {
    var w := base + " " + ext;
    assert forall k :: 0 <= k < |base| ==> w[k] == base[k];
    assert forall k :: |base| < k < |w| ==> w[k] == ext[k - |base| - 1];
  }

  /** Tag removal, stripping and whitespace collapse leave two plain words alone. */
  lemma PlainPairTitle(base: string, ext: string)
    requires PlainWord(base) && PlainWord(ext)
    ensures FallbackTitle(base + " " + ext) == base + " " + ext
  {
    var w := base + " " + ext;
    PlainPairFacts(base, ext);
    assert w[0] == base[0];
    assert w[|base| + 1] == ext[0];
    forall k | 0 <= k < |w| && WordStart(w, k)
      ensures TagWordAt(w, k, QualityTags).None?
    {
      QualityTagInitials();
      NoTagWith(w, k, QualityTags);
    }
    RemoveTagsFromNoopTags(w, 0);
    StripNoop(w);
    CollapseNoDoubleSpace(w);
  }

  lemma QualityTagInitials()
    ensures forall k :: 0 <= k < |QualityTags| ==> |QualityTags[k]| > 0 && Lower(QualityTags[k][0]) in TagInitials
  {
    assert Lower('B') == 'b' by { assert 'B' as int + 32 == 'b' as int; }
    assert Lower('W') == 'w' by { assert 'W' as int + 32 == 'w' as int; }
    assert Lower('A') == 'a' by { assert 'A' as int + 32 == 'a' as int; }
    assert Lower('D') == 'd' by { assert 'D' as int + 32 == 'd' as int; }
    assert Lower('H') == 'h' by { assert 'H' as int + 32 == 'h' as int; }
    assert Lower('R') == 'r' by { assert 'R' as int + 32 == 'r' as int; }
  }

  /** No tag of `tags` can match where a character no tag starts with stands. */
  lemma {:induction false} NoTagWith(s: string, p: nat, tags: seq<string>)
    requires p < |s| && Lower(s[p]) !in TagInitials
    requires forall k :: 0 <= k < |tags| ==> |tags[k]| > 0 && Lower(tags[k][0]) in TagInitials
    ensures TagWordAt(s, p, tags).None?
    decreases |tags|
  {
    if |tags| > 0 {
      NoTagWith(s, p, tags[1..]);
    }
  }

  /** Text without digits holds no TV marker. */
  lemma {:induction false} NoDigitsNoTv(s: string, from: nat)
    requires from <= |s|
    requires forall k :: 0 <= k < |s| ==> !IsDigit(s[k])
    ensures FindTv(s, from).None?
    decreases |s| - from
  {
    if from < |s| {
      assert OneOrTwoDigits(s, from).None?;
      assert from + 1 > |s| || OneOrTwoDigits(s, from + 1).None?;
      NoDigitsNoTv(s, from + 1);
    }
  }

  /** Without a dot there is no extension. */
  lemma NoDotNoExt(p: string)
    requires forall k :: 0 <= k < |p| ==> p[k] != '.'
    ensures SplitExt(p) == (p, "")
  {
  }

  /** The fallback with the extension split off the raw name, before dots turn
      into spaces. */
  function ParseTorrentNameFixed(name: string): (r: ParsedName)
    ensures FindTv(CleanName(name), 0).Some? || FindYear(CleanName(name), 0).Some? ==> r == ParseTorrentName(name)
    ensures FindTv(CleanName(name), 0).None? && FindYear(CleanName(name), 0).None? ==>
      r == UnknownName(FallbackTitle(CleanName(SplitExt(name).0)))
  {
    var c := CleanName(name);
    if FindTv(c, 0).Some? || FindYear(c, 0).Some? then ParseTorrentName(name)
    else UnknownName(FallbackTitle(CleanName(SplitExt(name).0)))
  }

  /** The corrected fallback titles "Nature.mkv" as "Nature": the extension
      never reaches the title. */
  lemma FixedFallbackDropsExtension(base: string, ext: string)
    requires PlainWord(base) && PlainWord(ext)
    ensures ParseTorrentNameFixed(base + "." + ext) == UnknownName(base)
  {
    var c := CleanName(base + "." + ext);
    CleanPlainPair(base, ext);
    PlainPairFacts(base, ext);
    NoDigitsNoTv(c, 0);
    assert FindYear(c, 0).None?;
    SplitPlainPair(base, ext);
    assert CleanName(base) == base;
    PlainWordTitle(base);
  }

  /** Cleaning turns the dot between two plain words into a space. */
  lemma CleanPlainPair(base: string, ext: string)
    requires PlainWord(base) && PlainWord(ext)
    ensures CleanName(base + "." + ext) == base + " " + ext
  {
    var name := base + "." + ext;
    assert forall k :: 0 <= k < |base| ==> name[k] == base[k];
    assert forall k :: |base| < k < |name| ==> name[k] == ext[k - |base| - 1];
  }

  /** `os.path.splitext` separates a plain word from its extension. */
  lemma SplitPlainPair(base: string, ext: string)
    requires PlainWord(base) && PlainWord(ext)
    ensures SplitExt(base + "." + ext).0 == base
  {
    var e := "." + ext;
    forall k | 1 <= k < |e| ensures e[k] != '.' && e[k] != '/' {
      assert e[k] == ext[k - 1];
    }
    assert base[0] != '.' && base[0] != '/' && forall m :: 0 < m < |base| ==> base[m] != '/';
    SplitExtOfSuffix(base, e);
    assert base + "." + ext == base + e;
  }

  lemma PlainWordTitle(w: string)
    requires PlainWord(w)
    ensures FallbackTitle(w) == w
  {
    forall k | 0 <= k < |w| && WordStart(w, k)
      ensures TagWordAt(w, k, QualityTags).None?
    {
      assert k == 0;
      QualityTagInitials();
      NoTagWith(w, k, QualityTags);
    }
    RemoveTagsFromNoopTags(w, 0);
    StripNoop(w);
    CollapseNoDoubleSpace(w);
  }

  /** Tag removal leaves text alone when no bracket opens and no quality tag
      starts a word. */
  lemma {:induction false} RemoveTagsFromNoopTags(s: string, i: nat)
    requires i <= |s|
    requires forall k :: i <= k < |s| ==> s[k] != '[' && s[k] != '('
    requires forall k :: i <= k < |s| && WordStart(s, k) ==> TagWordAt(s, k, QualityTags).None?
    ensures RemoveTagsFrom(s, i) == s[i..]
    decreases |s| - i
  {
    if i < |s| {
      RemoveTagsFromNoopTags(s, i + 1);
      assert s[i..] == [s[i]] + s[i + 1..];
    }
  }

  /** Text whose only whitespace is single spaces is left alone by the
      whitespace collapse. */
  lemma {:induction false} CollapseNoDoubleSpace(s: string)
    requires forall k :: 0 <= k < |s| ==> (IsSpace(s[k]) ==> s[k] == ' ')
    requires forall k :: 0 <= k < |s| - 1 ==> !(IsSpace(s[k]) && IsSpace(s[k + 1]))
    ensures CollapseSpaces(s) == s
    decreases |s|
  {
    if |s| > 0 {
      var t := s[1..];
      assert forall k :: 0 <= k < |t| ==> t[k] == s[k + 1];
      if IsSpace(s[0]) {
        if |t| > 0 {
          assert !IsSpace(t[0]);
          WhitespaceIsSpace(t[0]);
        }
        assert LStrip(t, Whitespace) == t;
      }
      CollapseNoDoubleSpace(t);
      assert s == [s[0]] + t;
    }
  }

  // ---------------------------------------------------------------------------
  // Round trip of the TV branch

  /** A title as release names spell it: letters, dots and spaces, with a
      letter at both ends. */
  predicate TitleText(t: string) {
    |t| > 0 && IsAlpha(t[0]) && IsAlpha(t[|t| - 1])
    && forall k :: 0 <= k < |t| ==> IsAlpha(t[k]) || t[k] == '.' || t[k] == ' '
  }

  /** No quality tag starts a word of `t`. */
  predicate NoTagWords(t: string) {
    forall k :: 0 <= k < |t| && WordStart(t, k) ==> TagWordAt(t, k, QualityTags).None?
  }

  /** The release name of an episode: title, then `.SxxEyy`, then anything
      that does not continue the marker's word. */
  function EpisodeName(title: string, season: nat, episode: nat, rest: string): string {
    title + ".S" + Pad2(season) + "E" + Pad2(episode) + rest
  }

  /** Parsing an episode's release name gives back its title (dots read as
      spaces), season and episode. */
  lemma TvNameRoundTrip(title: string, season: nat, episode: nat, rest: string)
    requires TitleText(title) && NoTagWords(CleanName(title))
    requires season < 100 && episode < 100
    requires rest == "" || rest[0] == '.' || rest[0] == '_' || !IsWordChar(rest[0])
    ensures ParseTorrentName(EpisodeName(title, season, episode, rest)) == TvName(CleanName(title), season, episode)
  {
    EpisodeFindTv(title, season, episode, rest);
    CleanTitleFacts(title);
    TvTitle(CleanName(title));
  }

  /** The leftmost TV marker of an episode name is the one after the title. */
  lemma EpisodeFindTv(title: string, season: nat, episode: nat, rest: string)
    requires TitleText(title)
    requires season < 100 && episode < 100
    requires rest == "" || rest[0] == '.' || rest[0] == '_' || !IsWordChar(rest[0])
    ensures var c := CleanName(EpisodeName(title, season, episode, rest));
      && |title| + 1 <= |c|
      && FindTv(c, 0) == Some(TvHit(|title| + 1, season, episode))
      && c[..|title| + 1] == CleanName(title) + " "
  {
    var c := CleanName(EpisodeName(title, season, episode, rest));
    var m := |title|;
    EpisodeLayout(title, season, episode, rest);
    MarkerAfterTitle(c, m, season, episode);
    NoMarkerInTitle(c, m);
    FindTvAt(c, 0, m + 1);
  }

  /** The `S<nn>E<nn>` written after the title and a space is a TV marker. */
  lemma MarkerAfterTitle(c: string, m: nat, season: nat, episode: nat)
    requires season < 100 && episode < 100
    requires |c| >= m + 7 && c[m] == ' ' && c[m + 1] == 'S' && c[m + 4] == 'E'
    requires c[m + 2..m + 4] == Pad2(season) && c[m + 5..m + 7] == Pad2(episode)
    requires |c| == m + 7 || !IsWordChar(c[m + 7])
    ensures TvMatchAt(c, m + 1) == Some(TvHit(m + 1, season, episode))
  {
    assert Lower('S') == 's' by { assert 'S' as int + 32 == 's' as int; }
    assert Lower('E') == 'e' by { assert 'E' as int + 32 == 'e' as int; }
    EpisodeMarker(c, m + 1, Pad2(season), Pad2(episode));
  }

  /** No TV marker starts inside a title without digits. */
  lemma NoMarkerInTitle(c: string, m: nat)
    requires |c| >= m + 2 && forall q :: 0 <= q <= m + 1 ==> !IsDigit(c[q])
    ensures forall q :: 0 <= q < m + 1 ==> TvMatchAt(c, q).None?
  {
    forall q | 0 <= q < m + 1 ensures TvMatchAt(c, q).None? {
      assert !IsDigit(c[q + 1]);
      assert DigitRunEnd(c, q + 1) == q + 1;
    }
  }

  /** The title part of the TV branch leaves a cleaned title alone. */
  lemma TvTitle(ct: string)
    requires |ct| > 0 && IsAlpha(ct[0]) && IsAlpha(ct[|ct| - 1]) && NoTagWords(ct)
    requires forall k :: 0 <= k < |ct| ==> ct[k] != '[' && ct[k] != '('
    ensures TrimTitle(Strip(RemoveTags(Strip(ct + " ")))) == ct
  {
    StripTrailingSpace(ct);
    RemoveTagsFromNoopTags(ct, 0);
    StripNoop(ct);
    TrimAlphaEnds(ct);
  }

  /** Replacing dots and underscores commutes with concatenation. */
  lemma CleanConcat(a: string, b: string)
    ensures CleanName(a + b) == CleanName(a) + CleanName(b)
  {
    assert forall k :: 0 <= k < |a| ==> (a + b)[k] == a[k];
    assert forall k :: |a| <= k < |a| + |b| ==> (a + b)[k] == b[k - |a|];
  }

  /** Where the pieces of an episode name sit once dots and underscores are spaces. */
  lemma EpisodeLayout(title: string, season: nat, episode: nat, rest: string)
    requires TitleText(title)
    requires season < 100 && episode < 100
    requires rest == "" || rest[0] == '.' || rest[0] == '_' || !IsWordChar(rest[0])
    ensures var c := CleanName(EpisodeName(title, season, episode, rest));
      var m := |title|;
      && |c| >= m + 7
      && c[..m + 1] == CleanName(title) + " "
      && c[m] == ' ' && c[m + 1] == 'S' && c[m + 4] == 'E'
      && c[m + 2..m + 4] == Pad2(season) && c[m + 5..m + 7] == Pad2(episode)
      && (|c| == m + 7 || !IsWordChar(c[m + 7]))
      && (forall q :: 0 <= q <= m + 1 ==> !IsDigit(c[q]))
  {
    var ps := Pad2(season);
    var pe := Pad2(episode);
    var ct := CleanName(title);
    var cr := CleanName(rest);
    CleanConcat(title, ".S");
    CleanConcat(title + ".S", ps);
    CleanConcat(title + ".S" + ps, "E");
    CleanConcat(title + ".S" + ps + "E", pe);
    CleanConcat(title + ".S" + ps + "E" + pe, rest);
    assert CleanName(".S") == " S";
    assert CleanName("E") == "E";
    assert CleanName(ps) == ps;
    assert CleanName(pe) == pe;
    assert CleanName(EpisodeName(title, season, episode, rest)) == ct + " S" + ps + "E" + pe + cr;
    CleanTitleFacts(title);
    MarkerLayout(ct, ps, pe, cr);
  }

  lemma MarkerLayout(ct: string, ps: string, pe: string, cr: string)
    requires |ps| == 2 && |pe| == 2
    requires forall k :: 0 <= k < |ct| ==> !IsDigit(ct[k])
    requires cr == "" || !IsWordChar(cr[0])
    ensures var c := ct + " S" + ps + "E" + pe + cr;
      var m := |ct|;
      && |c| >= m + 7
      && c[..m + 1] == ct + " "
      && c[m] == ' ' && c[m + 1] == 'S' && c[m + 4] == 'E'
      && c[m + 2..m + 4] == ps && c[m + 5..m + 7] == pe
      && (|c| == m + 7 || !IsWordChar(c[m + 7]))
      && (forall q :: 0 <= q <= m + 1 ==> !IsDigit(c[q]))
  {
    var c := ct + " S" + ps + "E" + pe + cr;
    var m := |ct|;
    assert forall k :: 0 <= k < m ==> c[k] == ct[k];
    assert c[..m + 1] == ct + " ";
    assert c[m + 2..m + 4] == ps;
    assert c[m + 5..m + 7] == pe;
    assert |c| > m + 7 ==> c[m + 7] == cr[0];
  }

  /** A four-digit year of the 1900s or 2000s as text. */
  predicate YearString(y: string) {
    |y| == 4 && AllDigits(y) && (y[..2] == "19" || y[..2] == "20")
  }

  /** Parsing a film's release name, `title.year` followed by digit-free text,
      gives back its title (dots read as spaces) and year. */
  lemma MovieNameRoundTrip(title: string, year: string, rest: string)
    requires TitleText(title) && YearString(year)
    requires forall k :: 0 <= k < |rest| ==> !IsDigit(rest[k])
    requires rest == "" || rest[0] == '.' || rest[0] == '_' || !IsWordChar(rest[0])
    ensures ParseTorrentName(title + "." + year + rest) == MovieName(CleanName(title), year)
  {
    MovieFindYear(title, year, rest);
    CleanTitleFacts(title);
    MovieTitle(CleanName(title));
  }

  /** The title part of the movie branch leaves a cleaned title alone. */
  lemma MovieTitle(ct: string)
    requires |ct| > 0 && IsAlpha(ct[0]) && IsAlpha(ct[|ct| - 1])
    ensures TrimTitle(Strip(ct + " ")) == ct
  {
    StripTrailingSpace(ct);
    TrimAlphaEnds(ct);
  }

  /** Text with a letter at both ends has nothing to trim. */
  lemma TrimAlphaEnds(t: string)
    requires |t| > 0 && IsAlpha(t[0]) && IsAlpha(t[|t| - 1])
    ensures TrimTitle(t) == t
  {
    assert t[|t| - 1] !in TitleTrail;
    assert RStrip(t, TitleTrail) == t;
    StripNoop(t);
  }

  /** A movie name holds no TV marker, and its leftmost year is the one after
      the title. */
  lemma MovieFindYear(title: string, year: string, rest: string)
    requires TitleText(title) && YearString(year)
    requires forall k :: 0 <= k < |rest| ==> !IsDigit(rest[k])
    requires rest == "" || rest[0] == '.' || rest[0] == '_' || !IsWordChar(rest[0])
    ensures var c := CleanName(title + "." + year + rest);
      && FindTv(c, 0).None?
      && FindYear(c, 0) == Some(|title| + 1)
      && YearText(c, |title| + 1) == year
      && c[..|title| + 1] == CleanName(title) + " "
  {
    var c := CleanName(title + "." + year + rest);
    var ct := CleanName(title);
    var cr := CleanName(rest);
    var m := |title|;
    CleanConcat(title, ".");
    CleanConcat(title + ".", year);
    CleanConcat(title + "." + year, rest);
    assert CleanName(".") == " ";
    assert CleanName(year) == year;
    assert c == ct + " " + year + cr;
    CleanTitleFacts(title);
    assert forall k :: 0 <= k < |cr| ==> !IsDigit(cr[k]);
    YearLayout(ct, year, cr);
    YearNameNoTv(c, m);
    assert forall q :: 0 <= q < m + 1 ==> !YearAt(c, q);
    FindYearAt(c, 0, m + 1);
  }

  lemma YearLayout(ct: string, y: string, cr: string)
    requires forall k :: 0 <= k < |ct| ==> !IsDigit(ct[k])
    requires YearString(y)
    requires forall k :: 0 <= k < |cr| ==> !IsDigit(cr[k])
    requires cr == "" || !IsWordChar(cr[0])
    ensures var c := ct + " " + y + cr;
      var m := |ct|;
      && |c| >= m + 5
      && c[..m + 1] == ct + " " && c[m] == ' '
      && c[m + 1..m + 5] == y && c[m + 1..m + 3] == y[..2]
      && (forall k :: m + 1 <= k < m + 5 ==> IsDigit(c[k]))
      && (|c| == m + 5 || !IsWordChar(c[m + 5]))
      && (forall q :: 0 <= q <= m ==> !IsDigit(c[q]))
      && (forall q :: m + 5 <= q < |c| ==> !IsDigit(c[q]))
  {
    var c := ct + " " + y + cr;
    var m := |ct|;
    assert forall k :: 0 <= k < m ==> c[k] == ct[k];
    assert forall k :: 0 <= k < 4 ==> c[m + 1 + k] == y[k];
    assert forall k :: m + 5 <= k < |c| ==> c[k] == cr[k - m - 5];
    assert c[..m + 1] == ct + " ";
    assert c[m + 1..m + 5] == y;
    assert c[m + 1..m + 3] == y[..2];
  }

  /** The only digits of a movie name are the year's four, which are too many
      for a TV marker. */
  lemma YearNameNoTv(c: string, m: nat)
    requires |c| >= m + 5 && c[m] == ' '
    requires forall k :: m + 1 <= k < m + 5 ==> IsDigit(c[k])
    requires forall q :: 0 <= q <= m ==> !IsDigit(c[q])
    requires forall q :: m + 5 <= q < |c| ==> !IsDigit(c[q])
    ensures FindTv(c, 0).None?
  {
    forall q | 0 <= q < |c| ensures TvMatchAt(c, q).None? {
      if m + 2 <= q <= m + 4 {
        assert IsDigit(c[q - 1]);
        assert !WordStart(c, q);
      } else if q == m + 1 {
        DigitRunCovers(c, q, 4);
      } else {
        assert !IsDigit(c[q]);
        if q + 1 < |c| && q != m {
          assert !IsDigit(c[q + 1]);
          assert DigitRunEnd(c, q + 1) == q + 1;
        }
      }
    }
  }

  lemma {:induction false} FindYearAt(s: string, from: nat, p: nat)
    requires from <= p && YearAt(s, p)
    requires forall q :: from <= q < p ==> !YearAt(s, q)
    ensures FindYear(s, from) == Some(p)
    decreases p - from
  {
    if from < p {
      FindYearAt(s, from + 1, p);
    }
  }

  /** The marker `S<two digits>E<two digits>` (either case) at a word start,
      followed by a non-word character, matches with those numbers. */
  lemma EpisodeMarker(c: string, p: nat, ps: string, pe: string)
    requires p + 6 <= |c| && NonWordAt(c, p - 1)
    requires CharCI(c, p, 'S') && CharCI(c, p + 3, 'E')
    requires |ps| == 2 && |pe| == 2 && AllDigits(ps) && AllDigits(pe)
    requires c[p + 1..p + 3] == ps && c[p + 4..p + 6] == pe
    requires p + 6 == |c| || !IsWordChar(c[p + 6])
    ensures TvMatchAt(c, p) == Some(TvHit(p, DigitsValue(ps), DigitsValue(pe)))
  {
    assert IsDigit(c[p + 1]) && IsDigit(c[p + 2]) by { assert c[p + 1] == ps[0] && c[p + 2] == ps[1]; }
    assert IsDigit(c[p + 4]) && IsDigit(c[p + 5]) by { assert c[p + 4] == pe[0] && c[p + 5] == pe[1]; }
    assert DigitRunEnd(c, p + 1) == p + 3;
    assert DigitRunEnd(c, p + 4) == p + 6;
    assert IsWordChar(c[p]) by {
      assert Lower(c[p]) == 's';
    }
    assert !IsDigit(c[p]) by {
      assert Lower(c[p]) == 's';
    }
  }

  lemma {:induction false} FindTvAt(s: string, from: nat, p: nat)
    requires from <= p < |s| && TvMatchAt(s, p).Some?
    requires forall q :: from <= q < p ==> TvMatchAt(s, q).None?
    ensures FindTv(s, from) == TvMatchAt(s, p)
    decreases p - from
  {
    if from < p {
      FindTvAt(s, from + 1, p);
    }
  }

  /** Cleaning a title turns its dots into spaces and keeps its letters. */
  lemma CleanTitleFacts(title: string)
    requires TitleText(title)
    ensures var ct := CleanName(title);
      && |ct| == |title| && IsAlpha(ct[0]) && IsAlpha(ct[|ct| - 1])
      && forall k :: 0 <= k < |ct| ==> ct[k] != '[' && ct[k] != '(' && !IsDigit(ct[k]) && (IsAlpha(ct[k]) || ct[k] == ' ')
  {
  }

  // ---------------------------------------------------------------------------
  // get_site_name_from_url

  /** `get_site_name_from_url`; `netloc` stands for `urlparse(url).netloc`. */
  function SiteName(url: string, netloc: string -> string): (r: string)
    ensures url == "" || netloc(url) == "" ==> r == "Unknown"
    ensures url != "" && netloc(url) != "" ==> forall k :: 0 <= k < |r| ==> r[k] != '.' && !IsLower(r[k])
  {
    if url == "" then "Unknown"
    else
      var host := netloc(url);
      if host == "" then "Unknown"
      else
        var h := if StartsWith(host, "www.") then host[4..] else host;
        UpperStr(SplitOn(h, '.')[0])
  }

  /** A leading "www." never changes the site name. */
  lemma SiteNameIgnoresWww(url1: string, url2: string, netloc: string -> string)
    requires url1 != "" && url2 != ""
    requires |netloc(url2)| > 0 && !StartsWith(netloc(url2), "www.")
    requires netloc(url1) == "www." + netloc(url2)
    ensures SiteName(url1, netloc) == SiteName(url2, netloc)
  {
    var h := netloc(url1);
    assert h[..4] == "www.";
    assert h[4..] == netloc(url2);
  }

  /** The site name is the upper-cased first label of the host. */
  lemma SiteNameIsFirstLabel(url: string, netloc: string -> string, first: string, rest: string)
    requires url != ""
    requires netloc(url) == first + rest
    requires |first| > 0 && forall k :: 0 <= k < |first| ==> first[k] != '.'
    requires !StartsWith(first + rest, "www.")
    requires rest == "" || rest[0] == '.'
    ensures SiteName(url, netloc) == UpperStr(first)
  {
    var h := first + rest;
    FirstPieceOfSplit(first, rest, '.');
  }

  lemma {:induction false} FirstPieceOfSplit(a: string, b: string, sep: char)
    requires forall k :: 0 <= k < |a| ==> a[k] != sep
    requires b == "" || b[0] == sep
    ensures SplitOn(a + b, sep)[0] == a
    decreases |a|
  {
    if |a| == 0 {
      if |b| > 0 {
        assert b == [sep] + b[1..];
      }
    } else {
      FirstPieceOfSplit(a[1..], b, sep);
      assert (a + b)[1..] == a[1..] + b;
    }
  }
}
