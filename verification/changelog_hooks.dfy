/** `scripts/changelog_hooks.py`: the git hooks that fill the commit message
    from the first entry of `Changelog.md` and, after the commit, put the
    commit hash in place of the entry's `Commit: <pending>` line.
    The changelog is its lines with their endings (`splitlines(keepends=True)`);
    a missing file is `None`. Writing files, `git rev-parse` and argument
    parsing are left out: their results are parameters. */
module ChangelogHooks {
  import opened Wrappers
  import opened Strings
  import Seqs

  const Separator := "---"
  const CommitPrefix := "Commit: "
  const Pending := "<pending>"
  /** The characters `rstrip("\r\n")` removes. */
  const LineEnds: set<char> := {'\r', '\n'}

  /** `FileNotFoundError` from reading the changelog, or a `ValueError`. */
  datatype HookError = ChangelogMissing | NoEntries | EmptyEntry

  /** The line that closes the example block at the top of the changelog. */
  predicate IsSeparator(line: string) { Strip(line) == Separator }

  predicate IsCommitLine(line: string) { StartsWith(line, CommitPrefix) }

  /** Where the first entry sits: the example block's separator, the entry's
      `Commit: ` line, and the index just past its last line. */
  datatype Entry = Entry(separator: nat, start: nat, end: nat)

  /** `_find_first_entry` with its two line tests as parameters. */
  function FindEntry<T>(xs: seq<T>, sep: T -> bool, commit: T -> bool): (r: Result<Entry, HookError>)
    ensures r.Err? ==> r.error == NoEntries
  {
    match Seqs.FirstIndexFrom(xs, sep, 0)
    case None => Err(NoEntries)
    case Some(d) =>
      match Seqs.FirstIndexFrom(xs, commit, d + 1)
      case None => Err(NoEntries)
      case Some(s) =>
        match Seqs.FirstIndexFrom(xs, commit, s + 1)
        case None => Ok(Entry(d, s, |xs|))
        case Some(e) => Ok(Entry(d, s, e))
  }

  /** The entry found is the first `Commit: ` line after the first separator,
      and it runs up to the next `Commit: ` line or the end; there is none
      exactly when no `Commit: ` line follows any separator. */
  lemma FindEntryCharacterised<T>(xs: seq<T>, sep: T -> bool, commit: T -> bool)
    ensures var r := FindEntry(xs, sep, commit);
      r.Err? <==> forall d, j :: 0 <= d < j < |xs| && sep(xs[d]) ==> !commit(xs[j])
    ensures var r := FindEntry(xs, sep, commit);
      r.Ok? ==> var e := r.value;
      && e.separator < e.start < e.end <= |xs|
      && sep(xs[e.separator]) && (forall j :: 0 <= j < e.separator ==> !sep(xs[j]))
      && commit(xs[e.start]) && (forall j :: e.separator < j < e.start ==> !commit(xs[j]))
      && (forall j :: e.start < j < e.end ==> !commit(xs[j]))
      && (e.end < |xs| ==> commit(xs[e.end]))
  {
  }

  /** `_find_first_entry`: the first `Commit: ` line after the first `---`
      line, and the entry runs up to the next `Commit: ` line or the end. */
  function FindFirstEntry(lines: seq<string>): (r: Result<Entry, HookError>)
  {
    FindEntry(lines, IsSeparator, IsCommitLine)
  }

  /** A changelog laid out as example block, separator, entry, rest is found
      as exactly that entry. */
  lemma FindEntryOfLayout<T>(pre: seq<T>, sepLine: T, head: T, body: seq<T>, post: seq<T>,
                             sep: T -> bool, commit: T -> bool)
    requires forall j :: 0 <= j < |pre| ==> !sep(pre[j])
    requires sep(sepLine) && commit(head)
    requires forall j :: 0 <= j < |body| ==> !commit(body[j])
    requires |post| > 0 ==> commit(post[0])
    ensures FindEntry(pre + [sepLine, head] + body + post, sep, commit)
              == Ok(Entry(|pre|, |pre| + 1, |pre| + 2 + |body|))
  {
    var xs := pre + [sepLine, head] + body + post;
    var d := |pre|;
    assert xs[d] == sepLine && xs[d + 1] == head;
    Seqs.FirstIndexFromIs(xs, sep, 0, d);
    Seqs.FirstIndexFromIs(xs, commit, d + 1, d + 1);
    assert forall j :: 0 <= j < |body| ==> xs[d + 2 + j] == body[j];
    if |post| > 0 {
      assert xs[d + 2 + |body|] == post[0];
      Seqs.FirstIndexFromIs(xs, commit, d + 2, d + 2 + |body|);
    }
  }

  /** Where the entry that starts at `s` ends: the next `Commit: ` line, or the end. */
  function EntryEnd<T>(xs: seq<T>, commit: T -> bool, s: nat): (n: nat)
    requires s < |xs|
    ensures s < n <= |xs|
  {
    match Seqs.FirstIndexFrom(xs, commit, s + 1)
    case None => |xs|
    case Some(k) => k
  }

  /** The entry `FindEntry` reports is read off its searches: the separator,
      the `Commit: ` line after it, and where that entry ends. */
  lemma {:induction false} FindEntryOfSearches<T>(xs: seq<T>, sep: T -> bool, commit: T -> bool, d: nat, s: nat)
    requires Seqs.FirstIndexFrom(xs, sep, 0) == Some(d) && d < s < |xs|
    requires Seqs.FirstIndexFrom(xs, commit, d + 1) == Some(s)
    ensures FindEntry(xs, sep, commit) == Ok(Entry(d, s, EntryEnd(xs, commit, s)))
  {
  }

  /** Replacing the head by another `Commit: ` line leaves the entry's end alone. */
  lemma {:induction false} EntryEndAfterRewrite<T>(xs: seq<T>, commit: T -> bool, s: nat, y: T)
    requires s < |xs| && commit(y) && commit(xs[s])
    ensures EntryEnd(xs[s := y], commit, s) == EntryEnd(xs, commit, s)
  {
    var afterHead := s + 1;
    Seqs.FirstIndexFromUpdate(xs, commit, afterHead, s, y);
  }

  /** The searches behind a found entry. */
  lemma {:induction false} FindEntrySearches<T>(xs: seq<T>, sep: T -> bool, commit: T -> bool, e: Entry)
    requires FindEntry(xs, sep, commit) == Ok(e)
    ensures Seqs.FirstIndexFrom(xs, sep, 0) == Some(e.separator) && e.separator < e.start < |xs|
    ensures Seqs.FirstIndexFrom(xs, commit, e.separator + 1) == Some(e.start)
    ensures e.end == EntryEnd(xs, commit, e.start)
  {
  }

  /** Changing the entry's head to another `Commit: ` line leaves the entry
      where it was. */
  lemma {:induction false} FindEntryAfterRewrite<T>(xs: seq<T>, sep: T -> bool, commit: T -> bool, e: Entry, y: T)
    requires FindEntry(xs, sep, commit) == Ok(e)
    requires commit(y)
    ensures e.start < |xs| && FindEntry(xs[e.start := y], sep, commit) == Ok(e)
  {
    FindEntrySearches(xs, sep, commit, e);
    FindEntryAfterHeadRewrite(xs, sep, commit, e.separator, e.start, y);
  }

  /** Rewriting the head at `s` with another `Commit: ` line leaves the
      three searches, and so the entry, where they were. */
  lemma {:induction false} FindEntryAfterHeadRewrite<T>(xs: seq<T>, sep: T -> bool, commit: T -> bool, d: nat, s: nat, y: T)
    requires Seqs.FirstIndexFrom(xs, sep, 0) == Some(d) && d < s < |xs|
    requires Seqs.FirstIndexFrom(xs, commit, d + 1) == Some(s)
    requires commit(y)
    ensures FindEntry(xs[s := y], sep, commit) == Ok(Entry(d, s, EntryEnd(xs, commit, s)))
  {
    var ys := xs[s := y];
    Seqs.FirstIndexFromUpdateAfter(xs, sep, 0, d, s, y);
    var afterSep := d + 1;
    assert commit(xs[s]);
    Seqs.FirstIndexFromUpdate(xs, commit, afterSep, s, y);
    FindEntryOfSearches(ys, sep, commit, d, s);
    EntryEndAfterRewrite(xs, commit, s, y);
  }

  // ---------------------------------------------------------------------
  // The commit message (`generate_commit_message`)
  // ---------------------------------------------------------------------

  /** `line.rstrip("\r\n")`. */
  function DropLineEnd(line: string): (r: string)
    ensures |r| <= |line| && r == line[..|r|]
    ensures |r| == 0 || r[|r| - 1] !in LineEnds
    ensures forall i :: |r| <= i < |line| ==> line[i] in LineEnds
  {
    RStrip(line, LineEnds)
  }

  /** The message an entry's lines make: each without its line ending,
      joined by newlines, with newlines at either end stripped. */
  function MessageOf(body: seq<string>): (r: string)
    ensures |r| == 0 || (r[0] != '\n' && r[|r| - 1] != '\n')
  {
    StripChars(Join("\n", Seqs.Map(body, DropLineEnd)), {'\n'})
  }

  /** `generate_commit_message` on the changelog's lines. */
  function GenerateCommitMessage(lines: seq<string>): (r: Result<string, HookError>)
    ensures r.Ok? <==> (FindFirstEntry(lines).Ok?
                        && MessageOf(lines[FindFirstEntry(lines).value.start + 1..FindFirstEntry(lines).value.end]) != "")
    ensures r.Ok? ==> r.value != "" && r.value[0] != '\n' && r.value[|r.value| - 1] != '\n'
    ensures FindFirstEntry(lines).Ok? && r.Err? ==> r.error == EmptyEntry
  {
    match FindFirstEntry(lines)
    case Err(e) => Err(e)
    case Ok(entry) =>
      var message := MessageOf(lines[entry.start + 1..entry.end]);
      if message == "" then Err(EmptyEntry) else Ok(message)
  }

  function WithNewline(text: string): string { text + "\n" }

  predicate NoLineEnds(text: string) {
    forall i :: 0 <= i < |text| ==> text[i] !in LineEnds
  }

  lemma DropLineEndOfWritten(text: string)
    requires NoLineEnds(text)
    ensures DropLineEnd(WithNewline(text)) == text
  {
    var u := text + "\n";
    assert u[..|u| - 1] == text;
    assert RStrip(u, LineEnds) == RStrip(text, LineEnds);
    assert |text| == 0 || text[|text| - 1] !in LineEnds;
    assert RStrip(text, LineEnds) == text;
  }

  lemma StripCharsNoop(s: string, cs: set<char>)
    requires |s| > 0 && s[0] !in cs && s[|s| - 1] !in cs
    ensures StripChars(s, cs) == s
  {
    assert LStrip(s, cs) == s;
    assert RStrip(s, cs) == s;
  }

  /** Dropping the line ending of each written line gives back the texts. */
  lemma DropWrittenLines(texts: seq<string>)
    requires forall k :: 0 <= k < |texts| ==> NoLineEnds(texts[k])
    ensures Seqs.Map(Seqs.Map(texts, WithNewline), DropLineEnd) == texts
  {
    var written := Seqs.Map(texts, WithNewline);
    forall k | 0 <= k < |texts|
      ensures Seqs.Map(written, DropLineEnd)[k] == texts[k]
    {
      DropLineEndOfWritten(texts[k]);
    }
  }

  /** Texts whose first and last are not empty and hold no line ending join
      into a text that neither starts nor ends with a newline. */
  lemma JoinedTextsHaveNoOuterNewline(texts: seq<string>)
    requires |texts| > 0 && |texts[0]| > 0 && |texts[|texts| - 1]| > 0
    requires NoLineEnds(texts[0]) && NoLineEnds(texts[|texts| - 1])
    ensures var j := Join("\n", texts);
            |j| > 0 && j[0] != '\n' && j[|j| - 1] != '\n'
  {
    JoinFirst("\n", texts);
    JoinLast("\n", texts);
    assert texts[0][0] !in LineEnds;
    var last := texts[|texts| - 1];
    assert last[|last| - 1] !in LineEnds;
  }

  /** Round trip: an entry written as text lines, the first and last not
      empty, reads back as those lines joined by newlines. */
  lemma MessageOfWrittenEntry(texts: seq<string>)
    requires |texts| > 0 && |texts[0]| > 0 && |texts[|texts| - 1]| > 0
    requires forall k :: 0 <= k < |texts| ==> NoLineEnds(texts[k])
    ensures MessageOf(Seqs.Map(texts, WithNewline)) == Join("\n", texts)
  {
    var written := Seqs.Map(texts, WithNewline);
    var j := Join("\n", texts);
    DropWrittenLines(texts);
    assert Join("\n", Seqs.Map(written, DropLineEnd)) == j;
    JoinedTextsHaveNoOuterNewline(texts);
    StripCharsNoop(j, {'\n'});
  }

  /** End to end: the message of a changelog laid out as example block,
      separator, `Commit: ` line and entry text is that text. */
  lemma GenerateFromLayout(pre: seq<string>, sepLine: string, head: string, texts: seq<string>, post: seq<string>)
    requires forall j :: 0 <= j < |pre| ==> !IsSeparator(pre[j])
    requires IsSeparator(sepLine) && IsCommitLine(head)
    requires |texts| > 0 && |texts[0]| > 0 && |texts[|texts| - 1]| > 0
    requires forall k :: 0 <= k < |texts| ==> NoLineEnds(texts[k]) && !IsCommitLine(WithNewline(texts[k]))
    requires |post| > 0 ==> IsCommitLine(post[0])
    ensures GenerateCommitMessage(pre + [sepLine, head] + Seqs.Map(texts, WithNewline) + post)
              == Ok(Join("\n", texts))
  {
    var body := Seqs.Map(texts, WithNewline);
    var lines := pre + [sepLine, head] + body + post;
    FindEntryOfLayout(pre, sepLine, head, body, post, IsSeparator, IsCommitLine);
    assert lines[|pre| + 2..|pre| + 2 + |body|] == body;
    MessageOfWrittenEntry(texts);
    JoinFirst("\n", texts);
  }

  // ---------------------------------------------------------------------
  // The prepare-commit-msg hook (`prepare_commit_message`)
  // ---------------------------------------------------------------------

  /** What the hook does to the message file. */
  datatype Prepared = Kept | Written(text: string)

  /** `prepare_commit_message`: a message file with text in it (from `-m` or
      an amend) is left alone and the changelog is not read; otherwise the
      file gets the entry's message and a final newline. A missing message
      file reads as empty. */
  function PrepareCommitMessage(current: Option<string>, changelog: Option<seq<string>>): (r: Result<Prepared, HookError>)
    ensures !IsBlank(current.GetOr("")) ==> r == Ok(Kept)
    ensures IsBlank(current.GetOr("")) ==> r != Ok(Kept)
    ensures IsBlank(current.GetOr("")) && changelog.None? ==> r == Err(ChangelogMissing)
    ensures IsBlank(current.GetOr("")) && changelog.Some? && GenerateCommitMessage(changelog.value).Ok? ==>
              r == Ok(Written(GenerateCommitMessage(changelog.value).value + "\n"))
  {
    StripEmptyIffBlank(current.GetOr(""));
    if Strip(current.GetOr("")) != "" then Ok(Kept)
    else match changelog
      case None => Err(ChangelogMissing)
      case Some(lines) =>
        match GenerateCommitMessage(lines)
        case Err(e) => Err(e)
        case Ok(message) => Ok(Written(message + "\n"))
  }

  /** Running the hook again on the file it wrote changes nothing more: the
      file keeps its text or gets the same text again. */
  lemma PrepareTwice(current: Option<string>, lines: seq<string>)
    requires PrepareCommitMessage(current, Some(lines)).Ok?
    requires PrepareCommitMessage(current, Some(lines)).value.Written?
    ensures var text := PrepareCommitMessage(current, Some(lines)).value.text;
            PrepareCommitMessage(Some(text), Some(lines)) in {Ok(Kept), Ok(Written(text))}
  {
  }

  // ---------------------------------------------------------------------
  // The post-commit hook (`replace_pending_commit`, `finalize_changelog`)
  // ---------------------------------------------------------------------

  /** What the hook does to the changelog: nothing (`False`), or rewrite it. */
  datatype Replaced = Unchanged | Rewritten(lines: seq<string>)

  /** The line ending `rstrip("\r\n")` removed, or `os.linesep` when there was none. */
  function EndingOf(line: string, lineSep: string): (r: string)
    ensures r == lineSep || (|r| > 0 && line == DropLineEnd(line) + r)
    ensures r == lineSep || forall i :: 0 <= i < |r| ==> r[i] in LineEnds
  {
    var kept := DropLineEnd(line);
    var ending := line[|kept|..];
    assert line == kept + ending;
    assert forall i :: 0 <= i < |ending| ==> ending[i] == line[|kept| + i];
    if ending == "" then lineSep else ending
  }

  /** `replace_pending_commit`: only the entry's `Commit: ` line changes,
      and only when it mentions `<pending>`; it becomes `Commit: <hash>`
      with the old line ending. No entry, or no `<pending>`, is `False`. */
  function ReplacePendingCommit(changelog: Option<seq<string>>, hash: string, lineSep: string): (r: Result<Replaced, HookError>)
    ensures changelog.None? <==> r.Err?
    ensures r.Err? ==> r.error == ChangelogMissing
    ensures r == Ok(Unchanged) <==> (changelog.Some? && (FindFirstEntry(changelog.value).Err?
              || !Contains(changelog.value[FindFirstEntry(changelog.value).value.start], Pending)))
    ensures r.Ok? && r.value.Rewritten? ==> var before := changelog.value;
      var s := FindFirstEntry(before).value.start;
      && |r.value.lines| == |before|
      && Contains(before[s], Pending)
      && r.value.lines[s] == CommitPrefix + hash + EndingOf(before[s], lineSep)
      && (forall j :: 0 <= j < |before| && j != s ==> r.value.lines[j] == before[j])
  {
    match changelog
    case None => Err(ChangelogMissing)
    case Some(lines) =>
      match FindFirstEntry(lines)
      case Err(_) => Ok(Unchanged)
      case Ok(entry) =>
        var line := lines[entry.start];
        if !Contains(line, Pending) then Ok(Unchanged)
        else Ok(Rewritten(lines[entry.start := CommitPrefix + hash + EndingOf(line, lineSep)]))
  }

  /** `finalize_changelog`: `commitHash` is the `--commit-hash` option and
      `head` what `git rev-parse HEAD` printed (`None` when it failed). */
  function FinalizeChangelog(changelog: Option<seq<string>>, commitHash: Option<string>, head: Option<string>,
                             lineSep: string): (r: Result<Replaced, HookError>)
    ensures commitHash == Some("") ==> r == Ok(Unchanged)
    ensures commitHash.None? && head.None? ==> r == Ok(Unchanged)
    ensures commitHash.Some? && commitHash.value != "" ==> r == ReplacePendingCommit(changelog, commitHash.value, lineSep)
  {
    var hash := if commitHash.Some? then Some(commitHash.value)
                else if head.Some? then Some(Strip(head.value))
                else None;
    match hash
    case None => Ok(Unchanged)
    case Some(h) =>
      if h == "" then Ok(Unchanged)
      else ReplacePendingCommit(changelog, h, lineSep)
  }

  lemma NoAngleNoPending(s: string)
    requires forall i :: 0 <= i < |s| ==> s[i] != '<'
    ensures !Contains(s, Pending)
  {
    assert Pending[0] == '<';
    NoFirstCharNoOccurrence(s, Pending);
  }

  /** The rewritten changelog still has its first entry in the same place. */
  lemma RewriteKeepsEntry(lines: seq<string>, hash: string, lineSep: string)
    requires ReplacePendingCommit(Some(lines), hash, lineSep).Ok?
    requires ReplacePendingCommit(Some(lines), hash, lineSep).value.Rewritten?
    ensures FindFirstEntry(ReplacePendingCommit(Some(lines), hash, lineSep).value.lines) == FindFirstEntry(lines)
  {
    var e := FindFirstEntry(lines).value;
    var s := e.start;
    var y := CommitPrefix + hash + EndingOf(lines[s], lineSep);
    assert ReplacePendingCommit(Some(lines), hash, lineSep) == Ok(Rewritten(lines[s := y]));
    assert IsCommitLine(y) by {
      assert y[..|CommitPrefix|] == CommitPrefix;
    }
    FindEntryAfterRewrite(lines, IsSeparator, IsCommitLine, e, y);
  }

  lemma NoCharInConcat(a: string, b: string, c: string, ch: char)
    requires forall i :: 0 <= i < |a| ==> a[i] != ch
    requires forall i :: 0 <= i < |b| ==> b[i] != ch
    requires forall i :: 0 <= i < |c| ==> c[i] != ch
    ensures forall i :: 0 <= i < |a + b + c| ==> (a + b + c)[i] != ch
  {
  }

  /** The ending kept from a line is `<`-free when the default one is. */
  lemma EndingSettled(line: string, lineSep: string)
    requires forall i :: 0 <= i < |lineSep| ==> lineSep[i] != '<'
    ensures var ending := EndingOf(line, lineSep);
            forall i :: 0 <= i < |ending| ==> ending[i] != '<'
  {
    var ending := EndingOf(line, lineSep);
    assert '<' !in LineEnds;
    if ending != lineSep {
      forall i | 0 <= i < |ending|
        ensures ending[i] != '<'
      {
        assert ending[i] in LineEnds;
      }
    }
  }

  /** A `Commit: ` line written with a hash and an ending free of `<`
      mentions no `<pending>`. */
  lemma WrittenCommitLineSettled(hash: string, ending: string)
    requires forall i :: 0 <= i < |hash| ==> hash[i] != '<'
    requires forall i :: 0 <= i < |ending| ==> ending[i] != '<'
    ensures !Contains(CommitPrefix + hash + ending, Pending)
  {
    assert forall i :: 0 <= i < |CommitPrefix| ==> CommitPrefix[i] != '<';
    NoCharInConcat(CommitPrefix, hash, ending, '<');
    NoAngleNoPending(CommitPrefix + hash + ending);
  }

  /** The hook does its work once: with a real hash (no `<` in it, like a
      hexadecimal commit id) the second run finds no `<pending>` line. */
  lemma FinalizeOnce(lines: seq<string>, hash: string, lineSep: string)
    requires ReplacePendingCommit(Some(lines), hash, lineSep).Ok?
    requires ReplacePendingCommit(Some(lines), hash, lineSep).value.Rewritten?
    requires forall i :: 0 <= i < |hash| ==> hash[i] != '<'
    requires forall i :: 0 <= i < |lineSep| ==> lineSep[i] != '<'
    ensures var updated := ReplacePendingCommit(Some(lines), hash, lineSep).value.lines;
            ReplacePendingCommit(Some(updated), hash, lineSep) == Ok(Unchanged)
  {
    var updated := ReplacePendingCommit(Some(lines), hash, lineSep).value.lines;
    RewriteKeepsEntry(lines, hash, lineSep);
    var s := FindFirstEntry(lines).value.start;
    var ending := EndingOf(lines[s], lineSep);
    EndingSettled(lines[s], lineSep);
    WrittenCommitLineSettled(hash, ending);
    assert updated[s] == CommitPrefix + hash + ending;
  }
}
