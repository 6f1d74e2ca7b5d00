/** The single-file predecessor of the package (`telegram_bot.py`): the same
    per-chat queue kept in the same two dictionaries, with its own Markdown
    escaping, access check, file check, two-phase cancel, progress throttle and
    persistence. Transitions reuse the scheduler state of `DownloadManager`;
    the legacy job dictionary never carries a pause flag or a libtorrent
    handle. */
module Legacy {
  import opened Wrappers
  import opened Strings
  import opened DownloadManager
  import opened State
  import opened Paths
  import MediaManager

  // ---------------------------------------------------------------------------
  // escape_markdown

  /** The MarkdownV2 characters `escape_markdown` protects. */
  const MarkdownV2Special: set<char> :=
    {'_', '*', '[', ']', '(', ')', '~', '`', '>', '#', '+', '-', '=', '|', '{', '}', '.', '!'}

  /** `escape_markdown`: a backslash before every special character. */
  function EscapeMarkdown(text: string): (r: string)
    ensures |r| >= |text|
    ensures (forall k :: 0 <= k < |text| ==> text[k] !in MarkdownV2Special) ==> r == text
  {
    Escape(text, MarkdownV2Special)
  }

  /** Escaping loses nothing: dropping each backslash that precedes a special
      character gives the text back. */
  lemma EscapeMarkdownRoundTrip(text: string)
    ensures Unescape(EscapeMarkdown(text), MarkdownV2Special) == text
  {
    UnescapeEscape(text, MarkdownV2Special);
  }

  /** Every special character of the result is protected by a backslash. */
  lemma EscapeMarkdownGuards(text: string)
    ensures Guarded(EscapeMarkdown(text), MarkdownV2Special)
  {
    EscapedIsGuarded(text, MarkdownV2Special);
  }

  // ---------------------------------------------------------------------------
  // is_user_authorized

  /** `is_user_authorized`: an empty allowlist admits everyone, including an
      update without a user; otherwise the user must be listed. */
  function Authorized(allowed: seq<int>, user: Option<int>): (ok: bool)
    ensures |allowed| == 0 ==> ok
    ensures |allowed| > 0 ==> (ok <==> user.Some? && user.value in allowed)
  {
    if |allowed| == 0 then true
    else user.Some? && user.value in allowed
  }

  /** Listing more users never locks out one already admitted by a non-empty list. */
  lemma AuthorizedMonotone(allowed: seq<int>, more: seq<int>, user: Option<int>)
    requires |allowed| > 0 && Authorized(allowed, user)
    ensures Authorized(allowed + more, user)
  {
    var i :| 0 <= i < |allowed| && allowed[i] == user.value;
    assert (allowed + more)[i] == user.value;
  }

  // ---------------------------------------------------------------------------
  // validate_torrent_files

  /** The first large file, in torrent order, whose extension is not allowed. */
  function FirstBadLarge(files: seq<MediaManager.TorrentFile>, i: nat): (r: Option<nat>)
    requires i <= |files|
    ensures r.Some? ==> i <= r.value < |files| && BadLarge(files[r.value])
    ensures r.Some? ==> forall j :: i <= j < r.value ==> !BadLarge(files[j])
    ensures r.None? ==> forall j :: i <= j < |files| ==> !BadLarge(files[j])
    decreases |files| - i
  {
    if i == |files| then None
    else if BadLarge(files[i]) then Some(i)
    else FirstBadLarge(files, i + 1)
  }

  /** A large file whose extension is not allowed. */
  predicate BadLarge(f: MediaManager.TorrentFile) {
    MediaManager.IsLarge(f) && !MediaManager.AllowedPath(f.path)
  }

  /** The legacy `validate_torrent_files`: rejects at the first large file of a
      disallowed type; with no large file, the largest file decides. */
  function LegacyValidate(files: seq<MediaManager.TorrentFile>): (r: Option<string>)
    ensures |files| == 0 ==> r == Some("the torrent contains no files.")
    ensures r.None? <==>
      && |files| > 0
      && (forall j :: 0 <= j < |files| && MediaManager.IsLarge(files[j]) ==> MediaManager.AllowedPath(files[j].path))
      && ((forall j :: 0 <= j < |files| ==> !MediaManager.IsLarge(files[j])) ==> MediaManager.AllowedPath(files[MediaManager.LargestIndex(files)].path))
  {
    if |files| == 0 then Some("the torrent contains no files.")
    else match FirstBadLarge(files, 0)
      case Some(k) => Some(MediaManager.UnsupportedMessage(SplitExt(files[k].path).1))
      case None =>
        if exists j :: 0 <= j < |files| && MediaManager.IsLarge(files[j]) then None
        else
          var ext := SplitExt(files[MediaManager.LargestIndex(files)].path).1;
          if MediaManager.AllowedPath(files[MediaManager.LargestIndex(files)].path) then None
          else Some(MediaManager.UnsupportedMessage(ext))
  }

  /** Whatever the legacy check accepts, the package's check accepts too. */
  lemma LegacyValidateStricter(files: seq<MediaManager.TorrentFile>)
    requires LegacyValidate(files).None?
    ensures MediaManager.ValidateTorrentFiles(files).None?
  {
    if exists j :: 0 <= j < |files| && MediaManager.IsLarge(files[j]) {
      var j :| 0 <= j < |files| && MediaManager.IsLarge(files[j]);
      assert MediaManager.AllowedPath(files[j].path);
    }
  }

  /** The converse fails: a film shipped with a large sample in another format
      passes the package's check but not the legacy one. */
  lemma LegacyRejectsMixedLargeFiles()
    ensures var files := [MediaManager.TorrentFile("a.mkv", 20000000), MediaManager.TorrentFile("b.iso", 20000000)];
      && MediaManager.ValidateTorrentFiles(files).None?
      && LegacyValidate(files) == Some(MediaManager.UnsupportedMessage(".iso"))
  {
    var files := [MediaManager.TorrentFile("a.mkv", 20000000), MediaManager.TorrentFile("b.iso", 20000000)];
    MkvAllowed();
    IsoRejected();
    assert MediaManager.IsLarge(files[0]) && MediaManager.AllowedPath(files[0].path);
    assert !MediaManager.AllowedPath(files[1].path);
    assert FirstBadLarge(files, 0) == Some(1);
  }

  lemma MkvAllowed()
    ensures MediaManager.AllowedPath("a.mkv")
  {
    assert "a"[0] == 'a';
    SplitExtOfSuffix("a", ".mkv");
    assert "a" + ".mkv" == "a.mkv";
    assert LowerStr(".mkv") == ".mkv";
  }

  lemma IsoRejected()
    ensures !MediaManager.AllowedPath("b.iso")
    ensures LowerStr(SplitExt("b.iso").1) == ".iso"
  {
    assert "b"[0] == 'b';
    SplitExtOfSuffix("b", ".iso");
    assert "b" + ".iso" == "b.iso";
    assert LowerStr(".iso") == ".iso";
  }

  // ---------------------------------------------------------------------------
  // The queue

  /** The legacy `start_download_task`: a fresh lock and task, registered under
      the job's chat, then saved. */
  function LegacyStart(s: Sched, j: Job): (r: Step)
    ensures j.chat in r.s.active && r.s.active[j.chat].hasLock && r.s.active[j.chat].task == Some(Running)
    ensures r.s.active - {j.chat} == s.active - {j.chat} && r.s.queues == s.queues
  {
    var s1 := s.(active := s.active[j.chat := j.(hasLock := true, task := Some(Running))]);
    Step(s1, [StartTask(j.chat), Persist(s1.active, s1.queues)])
  }

  /** The legacy `process_queue_for_user`. */
  function LegacyProcessQueue(s: Sched, chat: ChatId): (r: Step)
    ensures chat in s.active ==> r == Step(s, [])
  {
    if chat in s.active then Step(s, [])
    else if chat in s.queues && s.queues[chat] != [] then
      var next := s.queues[chat][0];
      var rest := s.queues[chat][1..];
      var queues := if rest == [] then s.queues - {chat} else s.queues[chat := rest];
      LegacyStart(s.(queues := queues), next)
    else Step(s, [])
  }

  /** The legacy and the package admission are the same transition: same
      guard, same FIFO pop, same deletion of an emptied queue. */
  lemma LegacyQueueAgrees(s: Sched, chat: ChatId)
    ensures LegacyProcessQueue(s, chat) == ProcessQueue(s, chat)
  {
  }

  /** The legacy `confirm_download`: append, answer with the position, save,
      then try to admit. */
  function LegacyConfirm(s: Sched, chat: ChatId, pending: Option<Source>, defaultPath: string): (r: Step)
    ensures pending.None? ==> r == Step(s, [Reply(Expired)])
  {
    match pending
    case None => Step(s, [Reply(Expired)])
    case Some(src) =>
      var job := NewJob(src, chat, src.originalMessageId, defaultPath);
      var q := QueueOf(s, chat) + [job];
      var s1 := s.(queues := s.queues[chat := q]);
      var notice := if chat in s.active then QueuedAt(|q|) else NextInLine;
      var next := LegacyProcessQueue(s1, chat);
      Step(next.s, [Reply(notice), Persist(s1.active, s1.queues)] + next.effects)
  }

  /** Without a paused or displaced download in the chat, confirming is the
      same transition in both versions; the package only adds the displacement
      of a paused download. */
  lemma LegacyConfirmAgrees(s: Sched, chat: ChatId, pending: Option<Source>, defaultPath: string)
    requires chat in s.active ==> !s.active[chat].isPaused && !s.active[chat].requeued
    ensures LegacyConfirm(s, chat, pending, defaultPath) == AddDownload(s, chat, pending, defaultPath)
  {
    if pending.Some? {
      var src := pending.value;
      var job := NewJob(src, chat, src.originalMessageId, defaultPath);
      var s1 := s.(queues := s.queues[chat := QueueOf(s, chat) + [job]]);
      LegacyQueueAgrees(s1, chat);
      assert DisplacePaused(s, chat) == Step(s, []);
    }
  }

  /** A confirmation while the chat is idle starts the new download at once. */
  lemma LegacyConfirmIdleStarts(s: Sched, chat: ChatId, src: Source, defaultPath: string)
    requires chat !in s.active && QueueOf(s, chat) == []
    ensures var r := LegacyConfirm(s, chat, Some(src), defaultPath);
      && chat in r.s.active
      && r.s.active[chat].source == src
      && chat !in r.s.queues
      && r.effects[0] == Reply(NextInLine)
  {
    var job := NewJob(src, chat, src.originalMessageId, defaultPath);
    var s1 := s.(queues := s.queues[chat := [job]]);
    assert QueueOf(s, chat) + [job] == [job];
    assert s1.queues[chat][1..] == [];
  }

  /** The legacy `cleanup_download_resources`, state part: the entry is
      deleted and the state saved only when the chat had one. */
  function LegacyCleanup(s: Sched, chat: ChatId): (r: Step)
    ensures chat !in s.active ==> r == Step(s, [])
    ensures chat in s.active ==> r == Cleanup(s, chat)
  {
    if chat in s.active then
      var s1 := s.(active := s.active - {chat});
      Step(s1, [Persist(s1.active, s1.queues)])
    else Step(s, [])
  }

  // ---------------------------------------------------------------------------
  // Two-phase cancel

  /** The legacy cancel branch of `button_handler` (`cancel_download`,
      `confirm_cancel`, `resume_download`). Without the job's lock nothing
      happens. */
  function LegacyCancel(s: Sched, chat: ChatId, action: string): (r: Step)
    ensures chat !in s.active ==> r == Step(s, [Reply(NoActiveToCancel)])
    ensures chat in s.active && !s.active[chat].hasLock ==> r == Step(s, [])
    ensures chat in s.active && s.active[chat].hasLock ==>
      && (action == "cancel_download" ==> r == Step(SetPending(s, chat, true), [Reply(ConfirmCancel)]))
      && (action == "confirm_cancel" ==> r.s == s && (r.effects == [CancelTask(chat)] <==> s.active[chat].task == Some(Running)))
      && (action == "resume_download" ==> r == Step(SetPending(s, chat, false), [Reply(ResumingNote)]))
  {
    if chat !in s.active then Step(s, [Reply(NoActiveToCancel)])
    else
      var a := s.active[chat];
      if !a.hasLock then Step(s, [])
      else if action == "cancel_download" then Step(SetPending(s, chat, true), [Reply(ConfirmCancel)])
      else if action == "confirm_cancel" then
        if a.task == Some(Running) then Step(s, [CancelTask(chat)]) else Step(s, [Reply(AlreadyFinished)])
      else if action == "resume_download" then Step(SetPending(s, chat, false), [Reply(ResumingNote)])
      else Step(s, [])
  }

  /** Asking to cancel and then declining restores the state exactly. */
  lemma LegacyCancelThenResume(s: Sched, chat: ChatId)
    requires chat in s.active && s.active[chat].hasLock && !s.active[chat].cancellationPending
    ensures LegacyCancel(LegacyCancel(s, chat, "cancel_download").s, chat, "resume_download").s == s
  {
    var a := s.active[chat];
    assert a.(cancellationPending := true).(cancellationPending := false) == a;
    assert s.active[chat := a] == s.active;
  }

  /** Unlike the package, confirming leaves the pending flag set: the progress
      messages stay suppressed until the cancelled task ends. */
  lemma LegacyConfirmKeepsPending(s: Sched, chat: ChatId)
    requires chat in s.active && s.active[chat].hasLock
    ensures var t := LegacyCancel(LegacyCancel(s, chat, "cancel_download").s, chat, "confirm_cancel").s;
      t.active[chat].cancellationPending
    ensures var p := CancelRequest(CancelRequest(s, chat, "cancel_download").s, chat, "cancel_confirm").s;
      !p.active[chat].cancellationPending
  {
  }

  // ---------------------------------------------------------------------------
  // ProgressReporter.report

  /** The legacy guard: silent while a cancel is pending and for 5 seconds
      after the last update. Returns whether to edit, and the new last time. */
  function LegacyReportDue(pending: bool, last: real, now: real): (r: (bool, real))
    ensures pending ==> r == (false, last)
    ensures !pending ==> (r.0 <==> now - last >= 5.0)
    ensures r.0 ==> r.1 == now
    ensures !r.0 ==> r.1 == last
  {
    if pending then (false, last)
    else if now - last < 5.0 then (false, last)
    else (true, now)
  }

  /** Whenever the legacy throttle lets an update through, the package's
      throttle (one second) does too: its reporter moves the report time to
      `now` and goes on to build the message. */
  lemma LegacyReportsSubset(j: Job, last: real, now: real, rate: real, queue: seq<Job>)
    requires LegacyReportDue(j.cancellationPending, last, now).0
    ensures !Report(j, last, now, rate, queue).0.Quiet?
    ensures Report(j, last, now, rate, queue).1 == now
  {
  }

  /** Two consecutive legacy updates are at least 5 seconds apart. */
  lemma LegacyUpdatesSpaced(pending1: bool, pending2: bool, last: real, t1: real, t2: real)
    requires LegacyReportDue(pending1, last, t1).0
    requires LegacyReportDue(pending2, LegacyReportDue(pending1, last, t1).1, t2).0
    ensures t2 - t1 >= 5.0
  {
  }

  // ---------------------------------------------------------------------------
  // save_state / load_state

  /** The copy the legacy `save_state` writes for an active job: only the task
      is popped. */
  function LegacyCopy(j: Job): (r: Job)
    ensures r.task.None? && r.hasLock == j.hasLock && r.handle == j.handle
  {
    j.(task := None)
  }

  predicate ActiveSerializable(active: map<ChatId, Job>) {
    forall c :: c in active ==> Serializable(LegacyCopy(active[c]))
  }

  /** The legacy `save_state`. As in the package, a failed open leaves the file
      alone and an object `json.dump` cannot encode leaves a truncated document. */
  function LegacySave(disk: Disk, active: map<ChatId, Job>, queues: map<ChatId, seq<Job>>, writable: bool): (d: Disk)
    ensures !writable ==> d == disk
    ensures writable ==> (d.Written? <==> ActiveSerializable(active) && QueuesSerializable(queues))
    ensures d.Written? && writable ==> d.snap.queues == queues && d.snap.active.Keys == active.Keys
  {
    if !writable then disk
    else if ActiveSerializable(active) && QueuesSerializable(queues) then
      Written(Snapshot(map c | c in active :: LegacyCopy(active[c]), queues))
    else Garbled
  }

  /** Every start saves while the started job holds its lock, so the file is
      truncated, and the next start-up loads no download at all. */
  lemma LegacyStartGarblesSave(s: Sched, j: Job, disk: Disk)
    ensures var p := LegacyStart(s, j).effects[1];
      && p.Persist?
      && LegacySave(disk, p.active, p.queues, true) == Garbled
      && LoadState(LegacySave(disk, p.active, p.queues, true), true) == (map[], map[])
  {
    var p := LegacyStart(s, j).effects[1];
    assert !Serializable(LegacyCopy(p.active[j.chat]));
  }

  /** The legacy `save_state` with the lock popped as well as the task, as the
      package's version does. */
  function LegacySaveFixed(disk: Disk, active: map<ChatId, Job>, queues: map<ChatId, seq<Job>>, writable: bool): (d: Disk)
    ensures !writable ==> d == disk
    ensures writable && QueuesSerializable(queues) ==> d.Written?
  {
    if !writable then disk
    else if QueuesSerializable(queues) then Written(Snapshot(map c | c in active :: State.Strip(active[c]), queues))
    else Garbled
  }

  /** With the lock popped, a save made while downloads run loads back as
      every active download, stripped, and the same queues. */
  lemma LegacySaveFixedRoundTrip(disk: Disk, s: Sched, j: Job)
    requires QueuesSerializable(s.queues)
    ensures var p := LegacyStart(s, j).effects[1];
      var loaded := LoadState(LegacySaveFixed(disk, p.active, p.queues, true), true);
      && loaded.0.Keys == p.active.Keys
      && (forall c :: c in p.active ==> loaded.0[c] == State.Strip(p.active[c]))
      && loaded.1 == s.queues
  {
  }
}
