/** `workflows/franchise_workflow.py`: the pure helpers of collection mode —
    folder-name sanitising, title comparison, candidate choice and the
    retargeting of the seed download to the franchise folder. The Wikipedia
    lookup, the searches, the file moves and the Plex call are left out. */
module Franchise {
  import opened Wrappers
  import opened Strings
  import opened Values
  import Seqs

  // ---------------------------------------------------------------------------
  // _sanitize_filename

  /** The characters a folder name may not contain. */
  const Forbidden: set<char> := {'<', '>', ':', '"', '/', '\\', '|', '?', '*'}

  /** `_sanitize_filename`: forbidden characters removed, then surrounding
      whitespace stripped. */
  function SanitizeFilename(name: string): (r: string)
    ensures forall i :: 0 <= i < |r| ==> r[i] !in Forbidden
    ensures |r| == 0 || (!IsSpace(r[0]) && !IsSpace(r[|r| - 1]))
    ensures |r| <= |name|
  {
    var t := RemoveChars(name, Forbidden);
    StripCharsKeeps(t, Whitespace, c => c !in Forbidden);
    Strip(t)
  }

  /** A name that is already clean is left as it is. */
  lemma SanitizeFilenameNoop(name: string)
    requires forall i :: 0 <= i < |name| ==> name[i] !in Forbidden
    requires |name| == 0 || (!IsSpace(name[0]) && !IsSpace(name[|name| - 1]))
    ensures SanitizeFilename(name) == name
  {
    RemoveCharsNoop(name, Forbidden);
    StripNoop(name);
  }

  /** Sanitising twice changes nothing more. */
  lemma SanitizeFilenameIdempotent(name: string)
    ensures SanitizeFilename(SanitizeFilename(name)) == SanitizeFilename(name)
  {
    SanitizeFilenameNoop(SanitizeFilename(name));
  }

  /** Only forbidden characters and surrounding whitespace are lost: every
      other character of the name survives, as many times as it occurred. */
  lemma SanitizeFilenameKeeps(name: string, c: char)
    requires c !in Forbidden && !IsSpace(c)
    ensures multiset(SanitizeFilename(name))[c] == multiset(name)[c]
  {
    StripKeepsCount(RemoveChars(name, Forbidden), c);
  }

  /** `strip()` removes no copy of a non-space character. */
  lemma StripKeepsCount(t: string, c: char)
    requires !IsSpace(c)
    ensures multiset(Strip(t))[c] == multiset(t)[c]
  {
    LStripKeepsCount(t, c);
    RStripKeepsCount(LStrip(t, Whitespace), c);
  }

  lemma LStripKeepsCount(t: string, c: char)
    requires !IsSpace(c)
    ensures multiset(LStrip(t, Whitespace))[c] == multiset(t)[c]
  {
    var l := LStrip(t, Whitespace);
    var pre := t[..|t| - |l|];
    assert t == pre + l;
    forall i | 0 <= i < |pre| ensures IsSpace(pre[i]) {
      WhitespaceIsSpace(pre[i]);
    }
    NoCharIn(pre, c);
  }

  lemma RStripKeepsCount(t: string, c: char)
    requires !IsSpace(c)
    ensures multiset(RStrip(t, Whitespace))[c] == multiset(t)[c]
  {
    var r := RStrip(t, Whitespace);
    var post := t[|r|..];
    assert t == r + post;
    forall i | 0 <= i < |post| ensures IsSpace(post[i]) {
      WhitespaceIsSpace(post[i]);
    }
    NoCharIn(post, c);
  }

  /** A string of whitespace holds no copy of a non-space character. */
  lemma {:induction false} NoCharIn(s: string, c: char)
    requires !IsSpace(c) && forall i :: 0 <= i < |s| ==> IsSpace(s[i])
    ensures multiset(s)[c] == 0
  {
    if |s| > 0 {
      NoCharIn(s[1..], c);
      assert s == [s[0]] + s[1..];
    }
  }

  // ---------------------------------------------------------------------------
  // _normalize_title and _is_same_movie

  /** The characters `_normalize_title` keeps. */
  predicate TitleKept(c: char) { IsLower(c) || IsDigit(c) }

  /** The characters of `s` in `[a-z0-9]`, in order. */
  function KeepTitleChars(s: string): (r: string)
    ensures |r| <= |s|
    ensures forall i :: 0 <= i < |r| ==> TitleKept(r[i])
    ensures forall c :: TitleKept(c) ==> multiset(r)[c] == multiset(s)[c]
  {
    if |s| == 0 then ""
    else
      assert s == [s[0]] + s[1..];
      var rest := KeepTitleChars(s[1..]);
      if TitleKept(s[0]) then [s[0]] + rest else rest
  }

  lemma {:induction false} KeepTitleCharsNoop(s: string)
    requires forall i :: 0 <= i < |s| ==> TitleKept(s[i])
    ensures KeepTitleChars(s) == s
  {
    if |s| > 0 {
      KeepTitleCharsNoop(s[1..]);
      assert s == [s[0]] + s[1..];
    }
  }

  lemma {:induction false} KeepTitleCharsConcat(a: string, b: string)
    ensures KeepTitleChars(a + b) == KeepTitleChars(a) + KeepTitleChars(b)
  {
    if |a| == 0 {
      assert a + b == b;
    } else {
      assert (a + b)[1..] == a[1..] + b;
      KeepTitleCharsConcat(a[1..], b);
    }
  }

  /** `_normalize_title`: the lower-cased title reduced to `[a-z0-9]`. */
  function NormalizeTitle(title: string): (r: string)
    ensures forall i :: 0 <= i < |r| ==> TitleKept(r[i])
    ensures forall c :: TitleKept(c) ==> multiset(r)[c] == multiset(LowerStr(title))[c]
  {
    KeepTitleChars(LowerStr(title))
  }

  lemma {:induction false} LowerStrIdempotent(s: string)
    ensures LowerStr(LowerStr(s)) == LowerStr(s)
  {
    var t := LowerStr(s);
    assert forall i :: 0 <= i < |t| ==> LowerStr(t)[i] == Lower(t[i]) == t[i];
  }

  lemma LowerUpper(s: string)
    ensures LowerStr(UpperStr(s)) == LowerStr(s)
  {
    var u := UpperStr(s);
    forall i | 0 <= i < |s|
      ensures LowerStr(u)[i] == LowerStr(s)[i]
    {
      LowerUpperChar(s[i]);
    }
  }

  lemma LowerUpperChar(c: char)
    ensures Lower(Upper(c)) == Lower(c)
  {
  }

  /** Case makes no difference to the normal form. */
  lemma NormalizeTitleIgnoresCase(title: string)
    ensures NormalizeTitle(LowerStr(title)) == NormalizeTitle(title)
    ensures NormalizeTitle(UpperStr(title)) == NormalizeTitle(title)
  {
    LowerStrIdempotent(title);
    LowerUpper(title);
  }

  /** The normal form is a fixed point, and it is compared piecewise: title
      pieces normalise independently. */
  lemma NormalizeTitleIdempotent(a: string, b: string)
    ensures NormalizeTitle(NormalizeTitle(a)) == NormalizeTitle(a)
    ensures NormalizeTitle(a + b) == NormalizeTitle(a) + NormalizeTitle(b)
  {
    var n := NormalizeTitle(a);
    assert LowerStr(n) == n by {
      forall i | 0 <= i < |n| ensures LowerStr(n)[i] == n[i] {
        assert TitleKept(n[i]);
      }
    }
    KeepTitleCharsNoop(n);
    LowerStrConcat(a, b);
    KeepTitleCharsConcat(LowerStr(a), LowerStr(b));
  }

  /** `_is_same_movie`; `None` stands for an `int()` conversion that raises.
      Titles are compared in normal form; the years only when both are
      truthy. */
  function IsSameMovie(t1: string, y1: Value, t2: string, y2: Value): (r: Option<bool>)
    ensures t1 == "" || t2 == "" ==> r == Some(false)
    ensures t1 != "" && t2 != "" && NormalizeTitle(t1) != NormalizeTitle(t2) ==> r == Some(false)
    ensures r == Some(true) <==>
              t1 != "" && t2 != "" && NormalizeTitle(t1) == NormalizeTitle(t2)
              && (!Truthy(y1) || !Truthy(y2) || (ToInt(y1).Some? && ToInt(y1) == ToInt(y2)))
    ensures r.None? <==>
              t1 != "" && t2 != "" && NormalizeTitle(t1) == NormalizeTitle(t2)
              && Truthy(y1) && Truthy(y2) && (ToInt(y1).None? || ToInt(y2).None?)
  {
    if t1 == "" || t2 == "" then Some(false)
    else if NormalizeTitle(t1) != NormalizeTitle(t2) then Some(false)
    else if !Truthy(y1) || !Truthy(y2) then Some(true)
    else
      match ToInt(y1)
      case None => None
      case Some(a) =>
        match ToInt(y2)
        case None => None
        case Some(b) => Some(a == b)
  }

  /** The comparison does not depend on which movie comes first. */
  lemma IsSameMovieSymmetric(t1: string, y1: Value, t2: string, y2: Value)
    ensures IsSameMovie(t1, y1, t2, y2) == IsSameMovie(t2, y2, t1, y1)
  {
  }

  /** A title always matches itself when the year is missing or readable. */
  lemma IsSameMovieReflexive(t: string, y: Value)
    requires t != ""
    requires !Truthy(y) || ToInt(y).Some?
    ensures IsSameMovie(t, y, t, y) == Some(true)
  {
  }

  // ---------------------------------------------------------------------------
  // _select_best_candidate

  /** `r.get("title", "")` as a string, or `None` when it is not one (its
      `.lower()` raises). */
  function TitleOf(d: Dict): (t: Option<string>)
    ensures "title" !in d ==> t == Some("")
    ensures "title" in d && d["title"].VStr? ==> t == Some(d["title"].s)
  {
    if "title" !in d then Some("")
    else match d["title"]
      case VStr(s) => Some(s)
      case _ => None
  }

  /** The title mentions the resolution, case-insensitively. */
  predicate HasResolution(d: Dict, res: string)
    requires TitleOf(d).Some?
  {
    Contains(LowerStr(TitleOf(d).value), LowerStr(res))
  }

  /** The index of the first result that mentions the resolution. */
  function FirstWithResolution(results: seq<Dict>, res: string): (k: Option<nat>)
    requires forall i :: 0 <= i < |results| ==> TitleOf(results[i]).Some?
    ensures k.Some? ==> k.value < |results| && HasResolution(results[k.value], res)
    ensures k.Some? ==> forall i :: 0 <= i < k.value ==> !HasResolution(results[i], res)
    ensures k.None? ==> forall i :: 0 <= i < |results| ==> !HasResolution(results[i], res)
  {
    if |results| == 0 then None
    else if HasResolution(results[0], res) then Some(0)
    else
      match FirstWithResolution(results[1..], res)
      case None => None
      case Some(k) => Some(k + 1)
  }

  /** `_select_best_candidate`: `Err` when a title is not a string. */
  function SelectBestCandidate(results: seq<Dict>, targetRes: string): (r: Result<Option<Dict>, ()>)
    ensures results == [] ==> r == Ok(None)
    ensures r.Err? <==> exists i :: 0 <= i < |results| && TitleOf(results[i]).None?
    ensures r.Ok? && results != [] ==> r.value.Some? && r.value.value in results
  {
    if results == [] then Ok(None)
    else if exists i :: 0 <= i < |results| && TitleOf(results[i]).None? then Err(())
    else
      match FirstWithResolution(results, targetRes)
      case Some(k) => Ok(Some(results[k]))
      case None => Ok(Some(results[0]))
  }

  /** The candidate is the first result mentioning the resolution, and the
      top result when none does. */
  lemma SelectBestCandidateChoice(results: seq<Dict>, targetRes: string)
    requires results != []
    requires forall i :: 0 <= i < |results| ==> TitleOf(results[i]).Some?
    ensures (exists k :: 0 <= k < |results| && HasResolution(results[k], targetRes)
                        && SelectBestCandidate(results, targetRes) == Ok(Some(results[k]))
                        && forall i :: 0 <= i < k ==> !HasResolution(results[i], targetRes))
         || ((forall i :: 0 <= i < |results| ==> !HasResolution(results[i], targetRes))
             && SelectBestCandidate(results, targetRes) == Ok(Some(results[0])))
  {
    match FirstWithResolution(results, targetRes)
    case Some(k) =>
    case None =>
  }

  // ---------------------------------------------------------------------------
  // _update_seed_destination

  /** A download record: its `message_id` and the `parsed_info` of its
      `source_dict`, when there is one. */
  datatype Download = Download(messageId: Value, parsedInfo: Option<Dict>)

  /** Python's `==` on the values a message id can hold: `True == 1`. */
  predicate PyEq(a: Value, b: Value) {
    match (a, b)
    case (VInt(i), VBool(x)) => i == (if x then 1 else 0)
    case (VBool(x), VInt(i)) => i == (if x then 1 else 0)
    case _ => a == b
  }

  /** The record the update touches. */
  predicate Targets(d: Download, id: Value) {
    PyEq(d.messageId, id) && d.parsedInfo.Some?
  }

  /** The record with its destination folder set. */
  function Retarget(d: Download, dest: string): (r: Download)
    requires d.parsedInfo.Some?
    ensures r.messageId == d.messageId && r.parsedInfo.Some?
    ensures r.parsedInfo.value == d.parsedInfo.value["destination_folder" := VStr(dest)]
  {
    d.(parsedInfo := Some(d.parsedInfo.value["destination_folder" := VStr(dest)]))
  }

  /** The index of the first targeted record. */
  function FirstTarget(list: seq<Download>, id: Value): (k: Option<nat>)
    ensures k.Some? ==> k.value < |list| && Targets(list[k.value], id)
    ensures k.Some? ==> forall i :: 0 <= i < k.value ==> !Targets(list[i], id)
    ensures k.None? ==> forall i :: 0 <= i < |list| ==> !Targets(list[i], id)
  {
    if |list| == 0 then None
    else if Targets(list[0], id) then Some(0)
    else
      match FirstTarget(list[1..], id)
      case None => None
      case Some(k) => Some(k + 1)
  }

  /** The inner `_update(data_list)`: the list after the loop, and whether it
      returned `True`. */
  function UpdateList(list: seq<Download>, id: Value, dest: string): (r: (seq<Download>, bool))
    ensures |r.0| == |list|
  {
    if |list| == 0 then (list, false)
    else if Targets(list[0], id) then ([Retarget(list[0], dest)] + list[1..], true)
    else
      var (rest, done) := UpdateList(list[1..], id, dest);
      ([list[0]] + rest, done)
  }

  /** The loop changes exactly the first targeted record, if any. */
  lemma {:induction false} UpdateListFirst(list: seq<Download>, id: Value, dest: string)
    ensures UpdateList(list, id, dest).1 <==> FirstTarget(list, id).Some?
    ensures FirstTarget(list, id).None? ==> UpdateList(list, id, dest).0 == list
    ensures FirstTarget(list, id).Some? ==>
              var k := FirstTarget(list, id).value;
              UpdateList(list, id, dest).0 == list[k := Retarget(list[k], dest)]
  {
    if |list| > 0 && !Targets(list[0], id) {
      UpdateListFirst(list[1..], id, dest);
      var (rest, done) := UpdateList(list[1..], id, dest);
      match FirstTarget(list[1..], id)
      case None =>
        Seqs.HeadTail(list);
      case Some(k) =>
        var y := Retarget(list[k + 1], dest);
        assert list[1..][k] == list[k + 1];
        Seqs.ConsUpdate(list[0], list[1..], k, y);
        Seqs.HeadTail(list);
    }
  }

  /** The loop over the queues: stops at the first queue that was updated. */
  function UpdateQueues(queues: seq<seq<Download>>, id: Value, dest: string): (r: seq<seq<Download>>)
    ensures |r| == |queues|
  {
    if |queues| == 0 then queues
    else
      var (q, done) := UpdateList(queues[0], id, dest);
      if done then [q] + queues[1..] else [queues[0]] + UpdateQueues(queues[1..], id, dest)
  }

  /** Whether any record of a list is targeted. */
  predicate AnyTarget(list: seq<Download>, id: Value) {
    exists i :: 0 <= i < |list| && Targets(list[i], id)
  }

  lemma FirstTargetAny(list: seq<Download>, id: Value)
    ensures FirstTarget(list, id).Some? <==> AnyTarget(list, id)
  {
  }

  /** Only the first queue holding a targeted record changes, and only there
      the first targeted record. */
  lemma {:induction false} UpdateQueuesFirst(queues: seq<seq<Download>>, id: Value, dest: string, j: nat)
    requires j < |queues| && AnyTarget(queues[j], id)
    requires forall i :: 0 <= i < j ==> !AnyTarget(queues[i], id)
    ensures UpdateQueues(queues, id, dest) == queues[j := UpdateList(queues[j], id, dest).0]
  {
    UpdateListFirst(queues[0], id, dest);
    FirstTargetAny(queues[0], id);
    if j > 0 {
      UpdateQueuesFirst(queues[1..], id, dest, j - 1);
      assert [queues[0]] + queues[1..][j - 1 := UpdateList(queues[j], id, dest).0]
             == queues[j := UpdateList(queues[j], id, dest).0];
    }
  }

  /** With no targeted record anywhere the queues are left alone. */
  lemma {:induction false} UpdateQueuesNone(queues: seq<seq<Download>>, id: Value, dest: string)
    requires forall i :: 0 <= i < |queues| ==> !AnyTarget(queues[i], id)
    ensures UpdateQueues(queues, id, dest) == queues
  {
    if |queues| > 0 {
      UpdateListFirst(queues[0], id, dest);
      FirstTargetAny(queues[0], id);
      UpdateQueuesNone(queues[1..], id, dest);
      assert [queues[0]] + queues[1..] == queues;
    }
  }

  /** `_update_seed_destination`: the active downloads (in `dict` order) are
      searched before the queues; `id` is the seed's `original_message_id`. */
  function UpdateSeedDestination(active: seq<Download>, queues: seq<seq<Download>>, id: Value, dest: string)
    : (r: (seq<Download>, seq<seq<Download>>))
    ensures |r.0| == |active| && |r.1| == |queues|
  {
    var (a, done) := UpdateList(active, id, dest);
    if done then (a, queues) else (active, UpdateQueues(queues, id, dest))
  }

  /** At most one record changes: the first targeted active download, or
      else the first targeted record of the first queue that holds one. */
  lemma UpdateSeedDestinationOnce(active: seq<Download>, queues: seq<seq<Download>>, id: Value, dest: string)
    ensures AnyTarget(active, id) ==>
              var k := FirstTarget(active, id).value;
              UpdateSeedDestination(active, queues, id, dest) == (active[k := Retarget(active[k], dest)], queues)
    ensures !AnyTarget(active, id) && (forall i :: 0 <= i < |queues| ==> !AnyTarget(queues[i], id)) ==>
              UpdateSeedDestination(active, queues, id, dest) == (active, queues)
    ensures forall j :: 0 <= j < |queues| && !AnyTarget(active, id) && AnyTarget(queues[j], id)
                        && (forall i :: 0 <= i < j ==> !AnyTarget(queues[i], id)) ==>
              var k := FirstTarget(queues[j], id).value;
              UpdateSeedDestination(active, queues, id, dest).1 == queues[j := queues[j][k := Retarget(queues[j][k], dest)]]
  {
    UpdateListFirst(active, id, dest);
    FirstTargetAny(active, id);
    if !AnyTarget(active, id) {
      if forall i :: 0 <= i < |queues| ==> !AnyTarget(queues[i], id) {
        UpdateQueuesNone(queues, id, dest);
      }
      forall j | 0 <= j < |queues| && AnyTarget(queues[j], id) && (forall i :: 0 <= i < j ==> !AnyTarget(queues[i], id))
        ensures UpdateSeedDestination(active, queues, id, dest).1
                == queues[j := queues[j][FirstTarget(queues[j], id).value := Retarget(queues[j][FirstTarget(queues[j], id).value], dest)]]
      {
        UpdateQueuesFirst(queues, id, dest, j);
        UpdateListFirst(queues[j], id, dest);
        FirstTargetAny(queues[j], id);
      }
    }
  }
}
