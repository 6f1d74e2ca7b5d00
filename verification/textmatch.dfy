/** The handful of regular-expression shapes the bot's parsers use, written out
    as the leftmost-match search Python's `re` performs (ASCII classes only).

    Two facts about Python regexes carry most of the weight here:
    - `\b` holds at a position exactly when the characters on its two sides
      differ in being word characters (the outside of the string counts as
      non-word);
    - `\d{1,2}` followed by something that cannot be a digit (a letter, `\b`
      after a digit) only matches when the maximal digit run there has one or
      two digits. */
module TextMatch {
  import opened Wrappers
  import opened Strings

  /** Position `i` holds no word character (outside the string counts as none). */
  predicate NonWordAt(s: string, i: int) {
    i < 0 || i >= |s| || !IsWordChar(s[i])
  }

  /** `\b` before a word character at `p`. */
  predicate WordStart(s: string, p: int) {
    0 <= p < |s| && IsWordChar(s[p]) && NonWordAt(s, p - 1)
  }

  /** The end of the maximal run of digits starting at `i`. */
  function DigitRunEnd(s: string, i: nat): (e: nat)
    requires i <= |s|
    ensures i <= e <= |s|
    ensures forall k :: i <= k < e ==> IsDigit(s[k])
    ensures e == |s| || !IsDigit(s[e])
    decreases |s| - i
  {
    if i < |s| && IsDigit(s[i]) then DigitRunEnd(s, i + 1) else i
  }

  /** `\d{1,2}` at `i` when the next pattern element cannot match a digit: the
      digit run at `i` must have one or two digits. Returns the run's end. */
  function OneOrTwoDigits(s: string, i: nat): (r: Option<nat>)
    requires i <= |s|
    ensures r.Some? ==> i < r.value <= i + 2 && r.value <= |s| && AllDigits(s[i..r.value])
    ensures r.Some? ==> r.value == |s| || !IsDigit(s[r.value])
    ensures r.Some? <==> 1 <= DigitRunEnd(s, i) - i <= 2
  {
    var e := DigitRunEnd(s, i);
    if 1 <= e - i <= 2 then Some(e) else None
  }

  /** Case-insensitive comparison of `s[p..]` with the literal `lit`. */
  predicate LiteralAtCI(s: string, p: nat, lit: string) {
    p + |lit| <= |s| && LowerStr(s[p..p + |lit|]) == LowerStr(lit)
  }

  predicate CharCI(s: string, p: int, c: char) {
    0 <= p < |s| && Lower(s[p]) == Lower(c)
  }

  // ---------------------------------------------------------------------------
  // \b(19\d{2}|20\d{2})\b

  predicate YearAt(s: string, p: int) {
    0 <= p && p + 4 <= |s|
    && (s[p..p + 2] == "19" || s[p..p + 2] == "20")
    && IsDigit(s[p + 2]) && IsDigit(s[p + 3])
    && NonWordAt(s, p - 1) && NonWordAt(s, p + 4)
  }

  /** The leftmost year match at or after `from`. */
  function FindYear(s: string, from: nat): (r: Option<nat>)
    requires from <= |s|
    ensures r.Some? ==> from <= r.value && YearAt(s, r.value)
    ensures r.Some? ==> forall q :: from <= q < r.value ==> !YearAt(s, q)
    ensures r.None? ==> forall q :: from <= q ==> !YearAt(s, q)
    decreases |s| - from
  {
    if from + 4 > |s| then None
    else if YearAt(s, from) then Some(from)
    else FindYear(s, from + 1)
  }

  /** The text of a year match. */
  function YearText(s: string, p: nat): (y: string)
    requires YearAt(s, p)
    ensures |y| == 4 && IsDigitString(y)
  {
    assert s[p..p + 2][0] == s[p] && s[p..p + 2][1] == s[p + 1];
    s[p..p + 4]
  }

  // ---------------------------------------------------------------------------
  // \[.*?\] | \(.*?\) | \b(1080p|720p|...|RM4k)\b   (case-insensitive)

  const QualityTags: seq<string> :=
    ["1080p", "720p", "480p", "x264", "x265", "hevc", "BluRay", "WEB-DL", "AAC", "DTS", "HDTV", "RM4k"]

  /** Index of the first `close` at or after `i` on the same line, for the lazy `.*?`. */
  function FindClose(s: string, i: nat, close: char): (r: Option<nat>)
    requires i <= |s|
    ensures r.Some? ==> i <= r.value < |s| && s[r.value] == close
    ensures r.Some? ==> forall k :: i <= k < r.value ==> s[k] != close && s[k] != '\n'
    decreases |s| - i
  {
    if i == |s| || s[i] == '\n' then None
    else if s[i] == close then Some(i)
    else FindClose(s, i + 1, close)
  }

  /** The first tag of `tags` (in order) matching at `p` with a word boundary after it. */
  function TagWordAt(s: string, p: nat, tags: seq<string>): (r: Option<nat>)
    ensures r.Some? ==> exists k :: 0 <= k < |tags| && |tags[k]| > 0 && r.value == p + |tags[k]| && LiteralAtCI(s, p, tags[k])
    ensures r.Some? ==> p < r.value <= |s| && NonWordAt(s, r.value)
  {
    if |tags| == 0 then None
    else if |tags[0]| > 0 && LiteralAtCI(s, p, tags[0]) && NonWordAt(s, p + |tags[0]|) then Some(p + |tags[0]|)
    else TagWordAt(s, p, tags[1..])
  }

  /** End of a tag match starting at `p`, trying the three alternatives in order. */
  function TagMatchAt(s: string, p: nat): (r: Option<nat>)
    requires p < |s|
    ensures r.Some? ==> p < r.value <= |s|
  {
    if s[p] == '[' && FindClose(s, p + 1, ']').Some? then Some(FindClose(s, p + 1, ']').value + 1)
    else if s[p] == '(' && FindClose(s, p + 1, ')').Some? then Some(FindClose(s, p + 1, ')').value + 1)
    else if WordStart(s, p) then TagWordAt(s, p, QualityTags)
    else None
  }

  /** `re.sub(tags, "", s[i..], flags=re.I)`, scanning left to right. */
  function RemoveTagsFrom(s: string, i: nat): (r: string)
    requires i <= |s|
    ensures |r| <= |s| - i
    decreases |s| - i
  {
    if i == |s| then ""
    else match TagMatchAt(s, i)
      case Some(e) => RemoveTagsFrom(s, e)
      case None => [s[i]] + RemoveTagsFrom(s, i + 1)
  }

  function RemoveTags(s: string): (r: string)
    ensures |r| <= |s|
  {
    RemoveTagsFrom(s, 0)
  }

  /** Text without any bracket or quality tag passes through unchanged. */
  lemma {:induction false} RemoveTagsFromNoop(s: string, i: nat)
    requires i <= |s|
    requires forall k :: i <= k < |s| ==> s[k] != '[' && s[k] != '(' && !WordStart(s, k)
    ensures RemoveTagsFrom(s, i) == s[i..]
    decreases |s| - i
  {
    if i < |s| {
      RemoveTagsFromNoop(s, i + 1);
      assert s[i..] == [s[i]] + s[i + 1..];
    }
  }
}
