/** `telegram_bot/config.py`: the bot's constants and the reading of
    `config.ini`. The file system and the environment are left out; the
    parsers work on the file's lines, and `configparser`, `json.loads` and
    `os.path.expanduser` are parameters. */
module Config {
  import opened Wrappers
  import opened Strings
  import Seqs
  import Values

  /** `MAX_TORRENT_SIZE_GB`. */
  const MaxTorrentSizeGb := 21
  const GiB := 1024 * 1024 * 1024
  /** `MAX_TORRENT_SIZE_BYTES`. */
  const MaxTorrentSizeBytes := MaxTorrentSizeGb * GiB

  const SearchHeader := "[search]"
  /** The bot token shipped in the sample configuration. */
  const TokenPlaceholder := "PLACE_TOKEN_HERE"
  /** The Plex token the code compares against (note the missing `L`). */
  const PexPlaceholder := "YOUR_PEX_TOKEN_HERE"
  /** The Plex token shipped in the sample configuration. */
  const PlexPlaceholder := "YOUR_PLEX_TOKEN_HERE"

  /** Why reading the configuration stops: a `ValueError` or `sys.exit(1)`. */
  datatype ConfigError =
    | InvalidSearchJson
    | BotTokenMissing
    | DefaultPathMissing
    | BadUserId(item: string)

  // ---------------------------------------------------------------------
  // Section scanning (`_is_in_section`)
  // ---------------------------------------------------------------------

  /** A stripped line that looks like `[...]`. */
  predicate IsHeader(stripped: string) {
    StartsWith(stripped, "[") && EndsWith(stripped, "]")
  }

  /** The nearest header line at or above line `i`. */
  function HeaderAtOrAbove(lines: seq<string>, i: nat): (r: Option<nat>)
    requires i < |lines|
    ensures r.Some? ==> r.value <= i && IsHeader(Strip(lines[r.value]))
    ensures r.Some? ==> forall j :: r.value < j <= i ==> !IsHeader(Strip(lines[j]))
    ensures r.None? <==> forall j :: 0 <= j <= i ==> !IsHeader(Strip(lines[j]))
  {
    Seqs.LastAtOrBefore(lines, HeaderLine, i)
  }

  predicate HeaderLine(line: string) {
    IsHeader(Strip(line))
  }

  /** The section the line at position `p` sits in, judged by position: the
      stripped text of the nearest header at or above it. */
  function SectionAt(lines: seq<string>, p: nat): (r: Option<string>)
    requires p < |lines|
    ensures r.Some? <==> exists j :: 0 <= j <= p && IsHeader(Strip(lines[j]))
    ensures r.Some? ==> IsHeader(r.value)
  {
    match HeaderAtOrAbove(lines, p)
    case None => None
    case Some(h) => Some(Strip(lines[h]))
  }

  predicate IsLine(line: string, l: string) { l == line }

  /** `_is_in_section`: a line is looked up by its FIRST occurrence, and
      belongs to the section whose header is nearest at or above it. */
  function IsInSection(header: string, line: string, lines: seq<string>): (r: bool)
    ensures r ==> line in lines
  {
    match Seqs.FirstIndex(lines, l => IsLine(line, l))
    case None => false
    case Some(i) =>
      match HeaderAtOrAbove(lines, i)
      case None => false
      case Some(h) => Strip(lines[h]) == header
  }

  /** For a line's first copy the lookup agrees with the positional section. */
  lemma FirstCopyFollowsPosition(header: string, lines: seq<string>, p: nat)
    requires p < |lines|
    requires forall j :: 0 <= j < p ==> lines[j] != lines[p]
    ensures IsInSection(header, lines[p], lines) <==> SectionAt(lines, p) == Some(header)
  {
    Seqs.FirstIndexIs(lines, l => IsLine(lines[p], l), p);
  }

  /** Every copy of a line is judged like the first copy. */
  lemma CopiesShareSection(header: string, lines: seq<string>, i: nat, p: nat)
    requires i <= p < |lines| && lines[i] == lines[p]
    requires forall j :: 0 <= j < i ==> lines[j] != lines[i]
    ensures IsInSection(header, lines[p], lines) <==> SectionAt(lines, i) == Some(header)
  {
    FirstCopyFollowsPosition(header, lines, i);
  }

  /** Lines that come before every header belong to no section. */
  lemma BeforeHeadersInNoSection(header: string, lines: seq<string>, p: nat)
    requires p < |lines|
    requires forall j :: 0 <= j <= p ==> !IsHeader(Strip(lines[j]))
    ensures !IsInSection(header, lines[p], lines)
  {
    var f := Seqs.FirstIndex(lines, l => IsLine(lines[p], l));
    assert f.Some? && f.value <= p;
  }

  /** A line that repeats a line of an earlier section (a blank line, say)
      is judged by that earlier copy: here the second `b` sits under the
      header `h2` but is not taken to be in that section, so when `h2` is
      `[search]` it stays in the text handed to `configparser`. */
  lemma RepeatedLineJudgedByFirstCopy(h1: string, b: string, h2: string)
    requires IsHeader(Strip(h1)) && IsHeader(Strip(h2)) && !IsHeader(Strip(b))
    requires Strip(h1) != Strip(h2) && b != h1
    ensures var lines := [h1, b, h2, b];
            SectionAt(lines, 3) == Some(Strip(h2)) && !IsInSection(Strip(h2), lines[3], lines)
  {
    var lines := [h1, b, h2, b];
    assert lines[0] != lines[1] && lines[1] == lines[3];
    assert HeaderAtOrAbove(lines, 1) == Some(0);
    assert SectionAt(lines, 1) == Some(Strip(h1));
    CopiesShareSection(Strip(h2), lines, 1, 3);
    assert HeaderAtOrAbove(lines, 3) == Some(2);
  }

  /** The lines handed to `configparser`: every line not judged to be in `[search]`. */
  function CleanLines(lines: seq<string>): (r: seq<string>)
    ensures forall l :: l in r <==> l in lines && !IsInSection(SearchHeader, l, lines)
  {
    Seqs.Filter(lines, l => !IsInSection(SearchHeader, l, lines))
  }

  // ---------------------------------------------------------------------
  // The `[search]` section (`_parse_search_section`)
  // ---------------------------------------------------------------------

  /** `"=" in line and line.strip().startswith(("websites", "preferences"))`. */
  predicate IsValueStart(line: string) {
    Contains(line, "=")
    && (StartsWith(Strip(line), "websites") || StartsWith(Strip(line), "preferences"))
  }

  /** Where `line.split("=", 1)` cuts: the first `=`. */
  function FirstEquals(line: string): (i: nat)
    requires Contains(line, "=")
    ensures i < |line| && line[i] == '='
    ensures forall j :: 0 <= j < i ==> line[j] != '='
  {
    var i := Find(line, "=");
    assert line[i..i + 1] == "=";
    forall j | 0 <= j < i
      ensures line[j] != '='
    {
      assert !OccursAt(line, "=", j);
      assert line[j..j + 1] == [line[j]];
    }
    i
  }

  /** `line.split("=", 1)`, both halves stripped. */
  function KeyValue(line: string): (string, string)
    requires Contains(line, "=")
  {
    var i := FirstEquals(line);
    (Strip(line[..i]), Strip(line[i + 1..]))
  }

  /** The scanner's state inside the section: the key being collected and
      the raw text gathered per key. */
  datatype Scan = Scan(current: Option<string>, content: map<string, string>)

  predicate ScanOk(st: Scan) {
    st.current.Some? ==> st.current.value in st.content
  }

  /** A line that continues the current value: not a header and not a new key. */
  predicate IsContinuation(line: string) {
    Strip(line) != SearchHeader && !IsValueStart(line) && !StartsWith(Strip(line), "[")
  }

  predicate OpensSearch(line: string) { Strip(line) == SearchHeader }

  /** A header other than `[search]`: it ends the section. */
  predicate EndsSection(line: string) {
    IsHeader(Strip(line)) && Strip(line) != SearchHeader
  }

  /** How the scanner treats a line inside the section: another `[search]`
      line is skipped, a `websites`/`preferences` line with `=` opens a value,
      another line starting with `[` is skipped, any other line is text. */
  datatype LineKind = Reopen | KeyLine(key: string, value: string) | Bracketed | Text(line: string)

  function KindOf(line: string): (k: LineKind)
  {
    var stripped := Strip(line);
    if stripped == SearchHeader then Reopen
    else if IsValueStart(line) then
      var (key, value) := KeyValue(line);
      KeyLine(key, value)
    else if StartsWith(stripped, "[") then Bracketed
    else Text(line)
  }

  /** The line kinds agree with the predicates the properties are stated in. */
  lemma KindOfAgrees(line: string)
    ensures KindOf(line).Reopen? <==> OpensSearch(line)
    ensures KindOf(line).KeyLine? <==> !OpensSearch(line) && IsValueStart(line)
    ensures IsContinuation(line) <==> KindOf(line) == Text(line)
  {
  }

  function Kinds(lines: seq<string>): (r: seq<LineKind>)
    ensures |r| == |lines|
  {
    Seqs.Map(lines, KindOf)
  }

  lemma KindsAppend(a: seq<string>, b: seq<string>)
    ensures Kinds(a + b) == Kinds(a) + Kinds(b)
  {
    Seqs.MapAppend(a, b, KindOf);
  }

  /** One line of the section's body. */
  function Step(st: Scan, kind: LineKind): (r: Scan)
    requires ScanOk(st)
    ensures ScanOk(r)
    ensures r.content.Keys >= st.content.Keys
  {
    match kind
    case Reopen => st
    case KeyLine(k, v) => Scan(Some(k), st.content[k := v])
    case Bracketed => st
    case Text(line) =>
      if st.current.Some? && st.current.value != "" then
        var k := st.current.value;
        Scan(st.current, st.content[k := st.content[k] + "\n" + line])
      else st
  }

  /** The state after reading `kinds` in order, starting from `st`. */
  function Run(st: Scan, kinds: seq<LineKind>): (r: Scan)
    requires ScanOk(st)
    ensures ScanOk(r)
    ensures r.content.Keys >= st.content.Keys
  {
    if |kinds| == 0 then st
    else Step(Run(st, kinds[..|kinds| - 1]), kinds[|kinds| - 1])
  }

  /** The state after the section's body, from an empty start. */
  function Accumulate(kinds: seq<LineKind>): (st: Scan)
    ensures ScanOk(st)
  {
    Run(Scan(None, map[]), kinds)
  }

  lemma AccumulateAppend(kinds: seq<LineKind>, kind: LineKind)
    ensures Accumulate(kinds + [kind]) == Step(Accumulate(kinds), kind)
  {
    assert (kinds + [kind])[..|kinds|] == kinds;
  }

  /** Reading two stretches of lines is reading the first, then the second. */
  lemma {:induction false} RunAppend(st: Scan, a: seq<LineKind>, b: seq<LineKind>)
    requires ScanOk(st)
    ensures Run(st, a + b) == Run(Run(st, a), b)
    decreases |b|
  {
    if |b| == 0 {
      assert a + b == a;
    } else {
      var init := b[..|b| - 1];
      RunAppend(st, a, init);
      assert (a + b)[..|a + b| - 1] == a + init;
      assert (a + b)[|a + b| - 1] == b[|b| - 1];
    }
  }

  /** The elements from index `from` up to the next one satisfying `ends`. */
  function BodyFrom<T>(xs: seq<T>, ends: T -> bool, from: nat): (r: seq<T>)
    requires from <= |xs|
  {
    match Seqs.FirstIndexFrom(xs, ends, from)
    case None => xs[from..]
    case Some(e) => xs[from..e]
  }

  /** The elements after the first one satisfying `opens`, up to the next one
      satisfying `ends`. */
  function BodyAfter<T>(xs: seq<T>, opens: T -> bool, ends: T -> bool): (r: seq<T>)
  {
    match Seqs.FirstIndexFrom(xs, opens, 0)
    case None => []
    case Some(s) => BodyFrom(xs, ends, s + 1)
  }

  /** The body holds no element that ends it. */
  lemma BodyAfterNoEnd<T>(xs: seq<T>, opens: T -> bool, ends: T -> bool)
    ensures forall k :: 0 <= k < |BodyAfter(xs, opens, ends)| ==> !ends(BodyAfter(xs, opens, ends)[k])
  {
    match Seqs.FirstIndexFrom(xs, opens, 0)
    case None =>
    case Some(s) =>
      var r := BodyFrom(xs, ends, s + 1);
      assert BodyAfter(xs, opens, ends) == r;
      forall k | 0 <= k < |r|
        ensures !ends(r[k])
      {
        assert r[k] == xs[s + 1 + k];
      }
  }

  /** The body after index `s` of `pre + xs` is the one after `s` in `xs`,
      shifted by the prefix. */
  lemma BodyFromShift<T>(pre: seq<T>, xs: seq<T>, ends: T -> bool, s: nat)
    requires s < |xs|
    ensures BodyFrom(pre + xs, ends, |pre| + s + 1) == BodyFrom(xs, ends, s + 1)
  {
    var from := s + 1;
    Seqs.FirstIndexFromShift(pre, xs, ends, from);
    assert |pre| + s + 1 == |pre| + from;
    match Seqs.FirstIndexFrom(xs, ends, from)
    case Some(e) =>
      Seqs.AppendSlice(pre, xs, from, e);
    case None =>
      Seqs.AppendSlice(pre, xs, from, |xs|);
      assert (pre + xs)[|pre| + from..] == (pre + xs)[|pre| + from..|pre| + |xs|];
  }

  lemma BodyAfterPrefix<T>(pre: seq<T>, xs: seq<T>, opens: T -> bool, ends: T -> bool)
    requires forall j :: 0 <= j < |pre| ==> !opens(pre[j])
    ensures BodyAfter(pre + xs, opens, ends) == BodyAfter(xs, opens, ends)
  {
    Seqs.FirstIndexPastPrefix(pre, xs, opens);
    var found := Seqs.FirstIndexFrom(xs, opens, 0);
    if found.Some? {
      var s := found.value;
      var t := |pre| + s;
      BodyFromShift(pre, xs, ends, s);
      BodyAfterShifted(xs, pre + xs, opens, ends, s, t);
    }
  }

  /** Two sequences whose bodies start at `s` and `t` and agree from there
      have the same body. */
  lemma BodyAfterShifted<T>(xs: seq<T>, all: seq<T>, opens: T -> bool, ends: T -> bool, s: nat, t: nat)
    requires Seqs.FirstIndexFrom(xs, opens, 0) == Some(s)
    requires Seqs.FirstIndexFrom(all, opens, 0) == Some(t)
    requires s < |xs| && t < |all| && BodyFrom(all, ends, t + 1) == BodyFrom(xs, ends, s + 1)
    ensures BodyAfter(all, opens, ends) == BodyAfter(xs, opens, ends)
  {
    BodyAfterAt(xs, opens, ends, s);
    BodyAfterAt(all, opens, ends, t);
  }

  lemma BodyAfterAt<T>(xs: seq<T>, opens: T -> bool, ends: T -> bool, s: nat)
    requires Seqs.FirstIndexFrom(xs, opens, 0) == Some(s)
    ensures s < |xs| && BodyAfter(xs, opens, ends) == BodyFrom(xs, ends, s + 1)
  {
  }

  lemma BodyAfterStops<T>(head: T, body: seq<T>, next: T, post: seq<T>, opens: T -> bool, ends: T -> bool)
    requires opens(head) && ends(next)
    requires forall k :: 0 <= k < |body| ==> !ends(body[k])
    ensures BodyAfter([head] + body + [next] + post, opens, ends) == body
  {
    var xs := [head] + body + [next] + post;
    Seqs.FirstIndexFromIs(xs, opens, 0, 0);
    assert forall j :: 1 <= j < 1 + |body| ==> xs[j] == body[j - 1];
    assert xs[1 + |body|] == next;
    Seqs.FirstIndexFromIs(xs, ends, 1, 1 + |body|);
    assert xs[1..1 + |body|] == body;
  }

  /** The lines after the first `[search]` line, up to the next other header. */
  function SectionBody(lines: seq<string>): (r: seq<string>)
    ensures forall k :: 0 <= k < |r| ==> !EndsSection(r[k])
  {
    BodyAfterNoEnd(lines, OpensSearch, EndsSection);
    BodyAfter(lines, OpensSearch, EndsSection)
  }

  /** What `_parse_search_section` collects, before JSON decoding. */
  function SearchContent(lines: seq<string>): map<string, string> {
    Accumulate(Kinds(SectionBody(lines))).content
  }

  lemma BodyEndsAt<T>(xs: seq<T>, opens: T -> bool, ends: T -> bool, s: nat, i: nat)
    requires s < i <= |xs| && Seqs.FirstIndexFrom(xs, opens, 0) == Some(s)
    requires forall j :: s < j < i ==> !ends(xs[j])
    requires i < |xs| ==> ends(xs[i])
    ensures BodyAfter(xs, opens, ends) == xs[s + 1..i]
  {
    if i < |xs| {
      Seqs.FirstIndexFromIs(xs, ends, s + 1, i);
    } else {
      assert Seqs.FirstIndexFrom(xs, ends, s + 1).None?;
    }
    assert BodyAfter(xs, opens, ends) == BodyFrom(xs, ends, s + 1);
  }

  lemma ReadOneMore<T>(xs: seq<T>, kind: T -> LineKind, s: nat, i: nat)
    requires s < i < |xs|
    ensures Accumulate(Seqs.Map(xs[s + 1..i + 1], kind)) == Step(Accumulate(Seqs.Map(xs[s + 1..i], kind)), kind(xs[i]))
  {
    Seqs.MapAppend(xs[s + 1..i], [xs[i]], kind);
    assert xs[s + 1..i + 1] == xs[s + 1..i] + [xs[i]];
    AccumulateAppend(Seqs.Map(xs[s + 1..i], kind), kind(xs[i]));
  }

  /** No element strictly between `lo` and `hi` satisfies `P`. */
  ghost predicate NoneBetween<T>(xs: seq<T>, P: T -> bool, lo: nat, hi: nat)
    requires hi <= |xs|
  {
    forall j :: lo < j < hi ==> !P(xs[j])
  }

  /** The loop of `_parse_search_section`, with its three line tests as
      parameters: `opens` is the `[search]` line, `ends` a header that breaks
      out, and `kind` what a line inside the section does. */
  method ScanSection<T>(xs: seq<T>, opens: T -> bool, ends: T -> bool, kind: T -> LineKind)
    returns (st: Scan)
    ensures st == Accumulate(Seqs.Map(BodyAfter(xs, opens, ends), kind))
  {
    var inSection := false;
    st := Scan(None, map[]);
    ghost var s := 0;
    var i := 0;
    while i < |xs|
      invariant 0 <= i <= |xs|
      invariant !inSection ==> st == Scan(None, map[])
      invariant !inSection ==> forall j :: 0 <= j < i ==> !opens(xs[j])
      invariant inSection ==> s < i && Seqs.FirstIndexFrom(xs, opens, 0) == Some(s)
      invariant inSection ==> NoneBetween(xs, ends, s, i)
      invariant inSection ==> st == Accumulate(Seqs.Map(xs[s + 1..i], kind))
    {
      if !inSection {
        if opens(xs[i]) {
          Seqs.FirstIndexFromIs(xs, opens, 0, i);
          s := i;
          assert xs[s + 1..i + 1] == [];
          inSection := true;
        }
      } else {
        if ends(xs[i]) {
          BodyEndsAt(xs, opens, ends, s, i);
          break;
        }
        ReadOneMore(xs, kind, s, i);
        st := Step(st, kind(xs[i]));
      }
      i := i + 1;
    }
    if inSection && i == |xs| {
      BodyEndsAt(xs, opens, ends, s, i);
    }
  }

  /** `_parse_search_section` up to the JSON decoding: it collects exactly
      the body of the first `[search]` section. Inside the section another
      `[search]` line is skipped, so only other headers end it. */
  method ParseSearchSection(lines: seq<string>) returns (content: map<string, string>)
    ensures content == SearchContent(lines)
  {
    var st := ScanSection(lines, OpensSearch, EndsSection, KindOf);
    content := st.content;
  }

  /** Lines before the first `[search]` line change nothing. */
  lemma PrefixIgnored(pre: seq<string>, lines: seq<string>)
    requires forall j :: 0 <= j < |pre| ==> !OpensSearch(pre[j])
    ensures SearchContent(pre + lines) == SearchContent(lines)
  {
    BodyAfterPrefix(pre, lines, OpensSearch, EndsSection);
  }

  /** Collection stops at the next header: what follows it changes nothing. */
  lemma StopsAtNextHeader(head: string, body: seq<string>, next: string, post: seq<string>)
    requires OpensSearch(head) && EndsSection(next)
    requires forall k :: 0 <= k < |body| ==> !EndsSection(body[k])
    ensures SearchContent([head] + body + [next] + post) == Accumulate(Kinds(body)).content
  {
    BodyAfterStops(head, body, next, post, OpensSearch, EndsSection);
  }

  /** Without a `[search]` line nothing is collected. */
  lemma NoSearchSectionNoContent(lines: seq<string>)
    requires forall j :: 0 <= j < |lines| ==> !OpensSearch(lines[j])
    ensures SearchContent(lines) == map[]
  {
  }

  /** Continuation lines joined onto a value: each one preceded by a newline. */
  function Continued(cs: seq<string>): (r: string)
    ensures |cs| == 0 ==> r == ""
  {
    if |cs| == 0 then "" else Continued(cs[..|cs| - 1]) + "\n" + cs[|cs| - 1]
  }

  /** A `websites` or `preferences` line starts a new value under its key and
      leaves the other keys alone. */
  lemma ValueStartsNewKey(body: seq<string>, line: string)
    requires IsValueStart(line) && !OpensSearch(line)
    ensures var kv := KeyValue(line);
            && Accumulate(Kinds(body + [line])).current == Some(kv.0)
            && Accumulate(Kinds(body + [line])).content == Accumulate(Kinds(body)).content[kv.0 := kv.1]
  {
    KindsAppend(body, [line]);
    AccumulateAppend(Kinds(body), KindOf(line));
  }

  function AsText(line: string): LineKind { Text(line) }

  /** Text lines are appended, each after a newline, to the value being
      collected; the other keys keep their values. */
  lemma {:induction false} TextAppends(st: Scan, texts: seq<string>)
    requires ScanOk(st) && st.current.Some? && st.current.value != ""
    ensures Run(st, Seqs.Map(texts, AsText)).current == st.current
    ensures var k := st.current.value;
            Run(st, Seqs.Map(texts, AsText)).content == st.content[k := st.content[k] + Continued(texts)]
    decreases |texts|
  {
    var k := st.current.value;
    var ks := Seqs.Map(texts, AsText);
    if |texts| == 0 {
      assert st.content[k] + Continued(texts) == st.content[k];
    } else {
      var init := texts[..|texts| - 1];
      var last := texts[|texts| - 1];
      TextAppends(st, init);
      assert ks[..|ks| - 1] == Seqs.Map(init, AsText);
      assert ks[|ks| - 1] == Text(last);
      var mid := Run(st, Seqs.Map(init, AsText));
      assert Run(st, ks) == Step(mid, Text(last));
      assert Continued(texts) == Continued(init) + "\n" + last;
      assert mid.content[k] + "\n" + last == st.content[k] + Continued(texts);
    }
  }

  /** Lines that are neither headers nor new keys are text lines. */
  lemma ContinuationKinds(cs: seq<string>)
    requires forall k :: 0 <= k < |cs| ==> IsContinuation(cs[k])
    ensures Kinds(cs) == Seqs.Map(cs, AsText)
  {
    forall k | 0 <= k < |cs|
      ensures Kinds(cs)[k] == Text(cs[k])
    {
      KindOfAgrees(cs[k]);
    }
  }

  /** Every other line inside the section is appended, after a newline, to
      the value being collected; the other keys keep their values. */
  lemma ContinuationsAppend(body: seq<string>, cs: seq<string>)
    requires Accumulate(Kinds(body)).current.Some? && Accumulate(Kinds(body)).current.value != ""
    requires forall k :: 0 <= k < |cs| ==> IsContinuation(cs[k])
    ensures Accumulate(Kinds(body + cs)).current == Accumulate(Kinds(body)).current
    ensures var before := Accumulate(Kinds(body));
            var k := before.current.value;
            Accumulate(Kinds(body + cs)).content == before.content[k := before.content[k] + Continued(cs)]
  {
    KindsAppend(body, cs);
    ContinuationKinds(cs);
    RunAppend(Scan(None, map[]), Kinds(body), Kinds(cs));
    TextAppends(Accumulate(Kinds(body)), cs);
  }

  /** Kinds read before any key line leave the state empty. */
  lemma {:induction false} NoKeyNoContent(ks: seq<LineKind>)
    requires forall k :: 0 <= k < |ks| ==> !ks[k].KeyLine?
    ensures Accumulate(ks) == Scan(None, map[])
    decreases |ks|
  {
    if |ks| > 0 {
      NoKeyNoContent(ks[..|ks| - 1]);
      assert ks == ks[..|ks| - 1] + [ks[|ks| - 1]];
      AccumulateAppend(ks[..|ks| - 1], ks[|ks| - 1]);
    }
  }

  /** Lines before the first key line are dropped. */
  lemma NothingBeforeFirstKey(cs: seq<string>)
    requires forall k :: 0 <= k < |cs| ==> !IsValueStart(cs[k])
    ensures Accumulate(Kinds(cs)) == Scan(None, map[])
  {
    forall k | 0 <= k < |cs|
      ensures !Kinds(cs)[k].KeyLine?
    {
      KindOfAgrees(cs[k]);
    }
    NoKeyNoContent(Kinds(cs));
  }

  /** The two JSON values `_parse_search_section` decodes. */
  predicate IsSearchKey(k: string) { k == "websites" || k == "preferences" }

  /** The decoding of the collected text: `parse` is `json.loads` (`None`
      when it raises); a value that is not JSON raises `ValueError`. */
  function DecodeSearch<J>(content: map<string, string>, parse: string -> Option<J>): (r: Result<map<string, J>, ConfigError>)
    ensures r.Err? ==> r.error == InvalidSearchJson
    ensures r.Ok? <==> forall k :: k in content && IsSearchKey(k) ==> parse(content[k]).Some?
    ensures r.Ok? ==> forall k :: k in r.value <==> k in content && IsSearchKey(k)
    ensures r.Ok? ==> forall k :: k in r.value ==> parse(content[k]) == Some(r.value[k])
  {
    var websites: Option<Option<J>> := if "websites" in content then Some(parse(content["websites"])) else None;
    var preferences: Option<Option<J>> := if "preferences" in content then Some(parse(content["preferences"])) else None;
    if websites == Some(None) || preferences == Some(None) then Err(InvalidSearchJson)
    else
      var m: map<string, J> := map[];
      var m := if websites.Some? then m["websites" := websites.value.value] else m;
      var m := if preferences.Some? then m["preferences" := preferences.value.value] else m;
      Ok(m)
  }

  // ---------------------------------------------------------------------
  // Values read through `configparser`
  // ---------------------------------------------------------------------

  /** What `configparser` makes of the remaining text: options per section. */
  type Ini = map<string, map<string, string>>

  /** `config.get(section, option, fallback=None)`. */
  function GetOption(ini: Ini, section: string, option: string): (r: Option<string>)
    ensures r.Some? <==> section in ini && option in ini[section]
  {
    if section in ini && option in ini[section] then Some(ini[section][option]) else None
  }

  /** Python truthiness of an optional string. */
  predicate IsSet(v: Option<string>) { v.Some? && v.value != "" }

  /** `not token or token == "PLACE_TOKEN_HERE"` ends the program. */
  predicate TokenUsable(token: Option<string>) {
    IsSet(token) && token.value != TokenPlaceholder
  }

  datatype Paths = Paths(default: string, movies: string, tvShows: string)

  /** `_load_and_validate_paths` without the directory creation: the default
      save path is mandatory and the movie and TV paths fall back to it.
      `expand` is `os.path.expanduser`. */
  function LoadPaths(ini: Ini, expand: string -> string): (r: Result<Paths, ConfigError>)
    ensures r.Err? <==> !IsSet(GetOption(ini, "host", "default_save_path"))
    ensures r.Err? ==> r.error == DefaultPathMissing
    ensures r.Ok? ==> r.value.default == expand(Strip(GetOption(ini, "host", "default_save_path").value))
    ensures r.Ok? ==> var m := GetOption(ini, "host", "movies_save_path");
                      r.value.movies == if IsSet(m) then expand(Strip(m.value)) else r.value.default
    ensures r.Ok? ==> var t := GetOption(ini, "host", "tv_shows_save_path");
                      r.value.tvShows == if IsSet(t) then expand(Strip(t.value)) else r.value.default
  {
    var d := GetOption(ini, "host", "default_save_path");
    if !IsSet(d) then Err(DefaultPathMissing)
    else
      var default := expand(Strip(d.value));
      var m := GetOption(ini, "host", "movies_save_path");
      var t := GetOption(ini, "host", "tv_shows_save_path");
      Ok(Paths(default,
               if IsSet(m) then expand(Strip(m.value)) else default,
               if IsSet(t) then expand(Strip(t.value)) else default))
  }

  /** With only the default save path configured, every path is that path. */
  lemma OnlyDefaultPath(path: string, expand: string -> string)
    requires path != ""
    ensures var ini := map["host" := map["default_save_path" := path]];
            var p := expand(Strip(path));
            LoadPaths(ini, expand) == Ok(Paths(p, p, p))
  {
    var ini := map["host" := map["default_save_path" := path]];
    assert "movies_save_path" !in ini["host"];
    assert "tv_shows_save_path" !in ini["host"];
  }

  /** The items of `allowed_user_ids` after the comma split: blank items are
      skipped and the rest go through `int(id.strip())`. */
  function ParseIds(items: seq<string>): (r: Result<seq<int>, ConfigError>)
    ensures r.Ok? ==> |r.value| <= |items|
    ensures r.Ok? <==> forall k :: 0 <= k < |items| ==> ValidId(items[k])
    ensures r.Err? ==> r.error.BadUserId?
  {
    if |items| == 0 then Ok([])
    else
      var rest := ParseIds(items[1..]);
      ValidIdsCons(items);
      IdStep(Strip(items[0]), rest)
  }

  /** An item `int(id.strip())` accepts, or a blank one the loop skips. */
  predicate ValidId(item: string) {
    Strip(item) != "" ==> Values.ParseInt(Strip(item)).Some?
  }

  lemma ValidIdsCons(items: seq<string>)
    requires |items| > 0
    ensures (forall k :: 0 <= k < |items| ==> ValidId(items[k]))
            <==> ValidId(items[0]) && forall k :: 0 <= k < |items| - 1 ==> ValidId(items[1..][k])
  {
    assert forall k :: 1 <= k < |items| ==> items[k] == items[1..][k - 1];
  }

  /** One item of the loop in front of the result for the items after it. */
  function IdStep(item: string, rest: Result<seq<int>, ConfigError>): (r: Result<seq<int>, ConfigError>)
    ensures r.Ok? <==> rest.Ok? && (item == "" || Values.ParseInt(item).Some?)
    ensures r.Ok? ==> |r.value| <= |rest.value| + 1
    ensures r.Err? ==> r == rest || r.error.BadUserId?
  {
    if item == "" then rest
    else match Values.ParseInt(item)
      case None => Err(BadUserId(item))
      case Some(n) =>
        if rest.Err? then rest else Ok([n] + rest.value)
  }

  lemma ParseIdsCons(items: seq<string>)
    requires |items| > 0
    ensures ParseIds(items) == IdStep(Strip(items[0]), ParseIds(items[1..]))
  {
  }

  /** `allowed_user_ids`: comma-separated user ids; an empty setting allows
      nobody in particular (`[]`). */
  function AllowedIds(setting: string): (r: Result<seq<int>, ConfigError>)
    ensures setting == "" ==> r == Ok([])
    ensures r.Err? ==> r.error.BadUserId?
  {
    if setting == "" then Ok([]) else ParseIds(SplitOn(setting, ','))
  }

  /** Blank items anywhere in the list are ignored. */
  lemma {:induction false} BlankItemsIgnored(items: seq<string>, blank: string)
    requires IsBlank(blank)
    ensures ParseIds(items + [blank]) == ParseIds(items)
    decreases |items|
  {
    StripEmptyIffBlank(blank);
    var all := items + [blank];
    ParseIdsCons(all);
    if |items| == 0 {
      assert all[1..] == [];
    } else {
      Seqs.TailOfAppend(items, [blank]);
      BlankItemsIgnored(items[1..], blank);
      ParseIdsCons(items);
    }
  }

  /** Comma-joined decimal ids. */
  function IdList(ids: seq<nat>): (r: string)
  {
    if |ids| == 0 then "" else if |ids| == 1 then NatToString(ids[0]) else NatToString(ids[0]) + "," + IdList(ids[1..])
  }

  lemma DigitsHaveNoComma(s: string)
    requires AllDigits(s)
    ensures forall i :: 0 <= i < |s| ==> s[i] != ','
  {
  }

  lemma NatReadsBack(n: nat)
    ensures Strip(NatToString(n)) == NatToString(n)
    ensures Values.ParseInt(NatToString(n)) == Some(n as int)
  {
    var s := NatToString(n);
    assert !IsSpace(s[0]) && !IsSpace(s[|s| - 1]) by {
      assert IsDigit(s[0]) && IsDigit(s[|s| - 1]);
    }
    StripNoop(s);
  }

  function AsInts(ids: seq<nat>): (r: seq<int>)
    ensures |r| == |ids|
  {
    if |ids| == 0 then [] else [ids[0] as int] + AsInts(ids[1..])
  }

  /** Round trip: a comma-joined list of ids reads back as the same ids. */
  lemma {:induction false} IdListRoundTrip(ids: seq<nat>)
    requires |ids| > 0
    ensures ParseIds(SplitOn(IdList(ids), ',')) == Ok(AsInts(ids))
    decreases |ids|
  {
    var first := NatToString(ids[0]);
    NatReadsBack(ids[0]);
    DigitsHaveNoComma(first);
    if |ids| == 1 {
      SplitOnPlain(first, ',');
      assert ([first])[1..] == [];
      assert IdList(ids) == first;
      assert ParseIds([first]) == Ok([ids[0] as int] + []);
    } else {
      SplitOnJoin(first, ',', IdList(ids[1..]));
      assert IdList(ids) == first + [','] + IdList(ids[1..]);
      IdListRoundTrip(ids[1..]);
      var parts := [first] + SplitOn(IdList(ids[1..]), ',');
      assert parts[1..] == SplitOn(IdList(ids[1..]), ',');
      assert parts[0] == first;
    }
  }

  /** `allowed_user_ids` read back: the setting built from ids yields the ids. */
  lemma AllowedIdsRoundTrip(ids: seq<nat>)
    ensures AllowedIds(IdList(ids)) == Ok(AsInts(ids))
  {
    if |ids| > 0 {
      IdListRoundTrip(ids);
      assert |IdList(ids)| > 0 by {
        if |ids| > 1 {
          assert IdList(ids) == NatToString(ids[0]) + "," + IdList(ids[1..]);
        }
      }
    }
  }

  // ---------------------------------------------------------------------
  // Plex (`_load_plex_config`)
  // ---------------------------------------------------------------------

  datatype PlexConfig = PlexConfig(url: string, token: string)

  /** `_load_plex_config` with the placeholder it refuses as a parameter:
      `{}` (`None`) unless the `[plex]` section has a URL and a token other
      than the placeholder. */
  function PlexConfigRefusing(ini: Ini, placeholder: string): (r: Option<PlexConfig>)
    ensures r.Some? <==> ("plex" in ini && IsSet(GetOption(ini, "plex", "plex_url"))
                          && IsSet(GetOption(ini, "plex", "plex_token"))
                          && GetOption(ini, "plex", "plex_token").value != placeholder)
    ensures r.Some? ==> (Some(r.value.url) == GetOption(ini, "plex", "plex_url")
                         && Some(r.value.token) == GetOption(ini, "plex", "plex_token"))
  {
    if "plex" !in ini then None
    else
      var url := GetOption(ini, "plex", "plex_url");
      var token := GetOption(ini, "plex", "plex_token");
      if IsSet(url) && IsSet(token) && token.value != placeholder then
        Some(PlexConfig(url.value, token.value))
      else None
  }

  /** As written: the code compares against "YOUR_PEX_TOKEN_HERE". */
  function PlexConfigAsWritten(ini: Ini): (r: Option<PlexConfig>)
    ensures r.Some? ==> Some(r.value.token) == GetOption(ini, "plex", "plex_token")
    ensures r.Some? ==> r.value.token != PexPlaceholder
  {
    PlexConfigRefusing(ini, PexPlaceholder)
  }

  /** As intended: the sample placeholder "YOUR_PLEX_TOKEN_HERE" leaves Plex off. */
  function PlexConfigFixed(ini: Ini): (r: Option<PlexConfig>)
    ensures r.Some? ==> Some(r.value.token) == GetOption(ini, "plex", "plex_token")
    ensures r.Some? ==> r.value.token != PlexPlaceholder
  {
    PlexConfigRefusing(ini, PlexPlaceholder)
  }

  function SamplePlexIni(token: string): Ini {
    map["plex" := map["plex_url" := "http://example.com", "plex_token" := token]]
  }

  /** The misspelled comparison lets the sample placeholder through. */
  lemma PlexPlaceholderAcceptedAsWritten()
    ensures PlexConfigAsWritten(SamplePlexIni(PlexPlaceholder)) == Some(PlexConfig("http://example.com", PlexPlaceholder))
  {
    assert PlexPlaceholder != PexPlaceholder by {
      assert |PlexPlaceholder| != |PexPlaceholder|;
    }
    var ini := SamplePlexIni(PlexPlaceholder);
    assert GetOption(ini, "plex", "plex_url") == Some("http://example.com");
    assert GetOption(ini, "plex", "plex_token") == Some(PlexPlaceholder);
  }

  /** The corrected comparison refuses the placeholder and keeps every real token. */
  lemma PlexPlaceholderRefusedFixed(url: string, token: string)
    ensures PlexConfigFixed(SamplePlexIni(PlexPlaceholder)) == None
    ensures url != "" && token != "" && token != PlexPlaceholder ==>
              PlexConfigFixed(map["plex" := map["plex_url" := url, "plex_token" := token]])
                == Some(PlexConfig(url, token))
  {
    var ini := SamplePlexIni(PlexPlaceholder);
    assert GetOption(ini, "plex", "plex_token") == Some(PlexPlaceholder);
    var ini2 := map["plex" := map["plex_url" := url, "plex_token" := token]];
    assert GetOption(ini2, "plex", "plex_url") == Some(url);
    assert GetOption(ini2, "plex", "plex_token") == Some(token);
  }

  // ---------------------------------------------------------------------
  // The whole configuration (`get_configuration`)
  // ---------------------------------------------------------------------

  datatype Configuration<J> = Configuration(
    token: string,
    paths: Paths,
    allowedIds: seq<int>,
    plex: Option<PlexConfig>,
    search: map<string, J>)

  /** `get_configuration` on the file's lines, with the Plex token `refused`
      as the placeholder. `readIni` is `configparser.read_string`; `parse` is
      `json.loads`; `expand` is `os.path.expanduser`. The validations happen
      in the source's order: search JSON, bot token, default path, user ids. */
  function ConfigurationRefusing<J>(lines: seq<string>, readIni: string -> Ini, parse: string -> Option<J>,
                                   expand: string -> string, refused: string): (r: Result<Configuration<J>, ConfigError>)
    ensures DecodeSearch(SearchContent(lines), parse).Err? ==> r == Err(InvalidSearchJson)
    ensures r.Ok? ==> r.value.token != "" && r.value.token != TokenPlaceholder
    ensures r.Ok? ==> Some(r.value.token) == GetOption(readIni(Join("", CleanLines(lines))), "telegram", "bot_token")
    ensures r.Ok? ==> r.value.search == DecodeSearch(SearchContent(lines), parse).value
    ensures r.Ok? ==> forall k :: k in r.value.search ==> IsSearchKey(k)
    ensures r.Ok? ==> r.value.plex == PlexConfigRefusing(readIni(Join("", CleanLines(lines))), refused)
  {
    var search := DecodeSearch(SearchContent(lines), parse);
    if search.Err? then Err(search.error)
    else
      var ini := readIni(Join("", CleanLines(lines)));
      var token := GetOption(ini, "telegram", "bot_token");
      if !TokenUsable(token) then Err(BotTokenMissing)
      else match LoadPaths(ini, expand)
        case Err(e) => Err(e)
        case Ok(paths) =>
          var idsText := GetOption(ini, "telegram", "allowed_user_ids").GetOr("");
          match AllowedIds(idsText)
          case Err(e) => Err(e)
          case Ok(ids) => Ok(Configuration(token.value, paths, ids, PlexConfigRefusing(ini, refused), search.value))
  }

  /** `get_configuration` with the corrected Plex placeholder check. */
  function GetConfiguration<J>(lines: seq<string>, readIni: string -> Ini, parse: string -> Option<J>,
                               expand: string -> string): (r: Result<Configuration<J>, ConfigError>)
    ensures DecodeSearch(SearchContent(lines), parse).Err? ==> r == Err(InvalidSearchJson)
    ensures r.Ok? ==> r.value.token != "" && r.value.token != TokenPlaceholder
    ensures r.Ok? ==> Some(r.value.token) == GetOption(readIni(Join("", CleanLines(lines))), "telegram", "bot_token")
    ensures r.Ok? ==> r.value.search == DecodeSearch(SearchContent(lines), parse).value
    ensures r.Ok? ==> forall k :: k in r.value.search ==> IsSearchKey(k)
    ensures r.Ok? ==> r.value.plex.Some? ==> r.value.plex.value.token != PlexPlaceholder
  {
    ConfigurationRefusing(lines, readIni, parse, expand, PlexPlaceholder)
  }

  /** `get_configuration` as written, refusing only "YOUR_PEX_TOKEN_HERE". */
  function GetConfigurationAsWritten<J>(lines: seq<string>, readIni: string -> Ini, parse: string -> Option<J>,
                                        expand: string -> string): (r: Result<Configuration<J>, ConfigError>)
    ensures r.Ok? ==> r.value.plex == PlexConfigAsWritten(readIni(Join("", CleanLines(lines))))
  {
    ConfigurationRefusing(lines, readIni, parse, expand, PexPlaceholder)
  }

  /** Changing the refused placeholder changes nothing but the Plex settings. */
  lemma RefusedOnlyAffectsPlex<J>(lines: seq<string>, readIni: string -> Ini, parse: string -> Option<J>,
                                  expand: string -> string, a: string, b: string)
    ensures var ra := ConfigurationRefusing(lines, readIni, parse, expand, a);
      var rb := ConfigurationRefusing(lines, readIni, parse, expand, b);
      && (ra.Ok? <==> rb.Ok?)
      && (ra.Err? ==> rb == ra)
      && (ra.Ok? ==> rb.value == ra.value.(plex := rb.value.plex))
  {
    var search := DecodeSearch(SearchContent(lines), parse);
    if search.Ok? {
      var ini := readIni(Join("", CleanLines(lines)));
      var token := GetOption(ini, "telegram", "bot_token");
      if TokenUsable(token) {
        match LoadPaths(ini, expand)
        case Err(_) =>
        case Ok(paths) =>
          var ids := AllowedIds(GetOption(ini, "telegram", "allowed_user_ids").GetOr(""));
          if ids.Ok? {
            assert ConfigurationRefusing(lines, readIni, parse, expand, a)
              == Ok(Configuration(token.value, paths, ids.value, PlexConfigRefusing(ini, a), search.value));
            assert ConfigurationRefusing(lines, readIni, parse, expand, b)
              == Ok(Configuration(token.value, paths, ids.value, PlexConfigRefusing(ini, b), search.value));
          }
      }
    }
  }

  /** The two versions of `get_configuration` succeed and fail together and
      differ at most in the Plex settings; a file whose Plex token is the
      sample placeholder gets Plex enabled only as written. */
  lemma AsWrittenDiffersInPlexOnly<J>(lines: seq<string>, readIni: string -> Ini, parse: string -> Option<J>,
                                      expand: string -> string)
    ensures var fixed := GetConfiguration(lines, readIni, parse, expand);
      var written := GetConfigurationAsWritten(lines, readIni, parse, expand);
      && (fixed.Ok? <==> written.Ok?)
      && (fixed.Err? ==> written == fixed)
      && (fixed.Ok? ==> written.value == fixed.value.(plex := written.value.plex))
      && (fixed.Ok? && readIni(Join("", CleanLines(lines))) == SamplePlexIni(PlexPlaceholder) ==>
            fixed.value.plex == None && written.value.plex == Some(PlexConfig("http://example.com", PlexPlaceholder)))
  {
    RefusedOnlyAffectsPlex(lines, readIni, parse, expand, PlexPlaceholder, PexPlaceholder);
    var fixed := GetConfiguration(lines, readIni, parse, expand);
    if fixed.Ok? && readIni(Join("", CleanLines(lines))) == SamplePlexIni(PlexPlaceholder) {
      PlexPlaceholderAcceptedAsWritten();
      PlexPlaceholderRefusedFixed("", "");
    }
  }
}
