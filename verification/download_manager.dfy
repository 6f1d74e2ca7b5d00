/** The per-chat download scheduler of `telegram_bot/services/download_manager.py`.

    The bot keeps two dictionaries in `bot_data`: `active_downloads` (chat id to
    the one download currently running for that chat) and `download_queues`
    (chat id to the downloads waiting behind it). Every handler below touches only
    these dictionaries while it holds the event loop, so each one is modelled as a
    single atomic transition on an immutable `Sched` value. Side effects that
    leave the dictionaries (cancelling an asyncio task, pausing the libtorrent
    handle, persisting the state, answering the user) are returned as `Effect`s. */
module DownloadManager {
  import opened Wrappers
  import opened Strings
  import opened Values
  import Seqs

  type ChatId = int

  /** The `source_dict` of a download: what to fetch and how to name it. */
  datatype Source = Source(
    value: string,
    kind: string,
    info: Dict,
    cleanName: string,
    batchId: string,        // "" when the download is not part of a season batch
    originalMessageId: int)

  /** The asyncio task running `download_task_wrapper`, as far as `task.done()` tells. */
  datatype TaskState = Running | Finished

  /** An uninterpreted libtorrent handle. */
  datatype Handle = Handle(id: nat)

  /** One `download_data` dictionary. A popped key reads as `None`/`False`. */
  datatype Job = Job(
    source: Source,
    chat: ChatId,
    messageId: int,
    savePath: string,
    isPaused: bool,
    cancellationPending: bool,
    requeued: bool,
    task: Option<TaskState>,
    handle: Option<Handle>,
    hasLock: bool)

  /** An entry of `DOWNLOAD_BATCHES`. */
  datatype Batch = Batch(total: int, done: int, mediaType: string, scanned: bool)

  datatype Sched = Sched(
    active: map<ChatId, Job>,
    queues: map<ChatId, seq<Job>>,
    batches: map<string, Batch>,
    shuttingDown: bool)

  /** What the bot tells the user from a handler. */
  datatype Notice =
    | Expired
    | SeasonExpired
    | QueuedAt(position: nat)
    | NextInLine
    | SeasonQueued(added: nat)
    | NoActiveToToggle
    | NoActiveToCancel
    | ConfirmCancel
    | ConfirmCancelAll
    | CancelledAll
    | AlreadyFinished      // legacy handler: nothing left to cancel
    | ResumingNote         // legacy handler: the cancel prompt was declined

  /** The final status text of a finished download. */
  datatype FinalNote =
    | Text(text: string)
    | DownloadFailed
    | CancelledNote(name: string)
    | ErrorNote(error: string)

  datatype Effect =
    | Reply(notice: Notice)
    | CancelTask(chat: ChatId)
    | PauseEngine(chat: ChatId)
    | ResumeEngine(chat: ChatId)
    | StartTask(chat: ChatId)
    | Persist(active: map<ChatId, Job>, queues: map<ChatId, seq<Job>>)
    | FinalMessage(chat: ChatId, note: FinalNote)

  datatype Step = Step(s: Sched, effects: seq<Effect>)

  /** How the body of `download_task_wrapper` ended. */
  datatype Outcome =
    | Completed(text: string)   // the text `handle_successful_download` returned
    | Failed
    | Cancelled
    | Crashed(error: string)

  // ---------------------------------------------------------------------------
  // Shape of the state

  function QueueOf(s: Sched, chat: ChatId): (q: seq<Job>)
    ensures chat !in s.queues ==> q == []
  {
    if chat in s.queues then s.queues[chat] else []
  }

  /** A job waiting in the queue of `chat`: it belongs to that chat and carries
      neither a task, a handle nor the requeue mark. */
  predicate Waiting(j: Job, chat: ChatId) {
    j.chat == chat && !j.requeued && j.task.None? && j.handle.None?
  }

  /** Every entry is filed under its own chat, and queued jobs are idle. */
  predicate Wf(s: Sched) {
    (forall c :: c in s.active ==> s.active[c].chat == c)
    && (forall c, i :: c in s.queues && 0 <= i < |s.queues[c]| ==> Waiting(s.queues[c][i], c))
  }

  /** No work is stranded: a chat with queued jobs always has an active one. */
  predicate Settled(s: Sched, chat: ChatId) {
    chat in s.active || |QueueOf(s, chat)| == 0
  }

  /** Only the entries of `chat` may differ between `s` and `t`. */
  predicate OthersUnchanged(s: Sched, t: Sched, chat: ChatId) {
    s.active - {chat} == t.active - {chat}
    && s.queues - {chat} == t.queues - {chat}
  }

  /** The job as `_start_download_task` registers it: a fresh lock and a running task. */
  function Started(j: Job): (r: Job)
    ensures r.hasLock && r.task == Some(Running)
    ensures r.(hasLock := j.hasLock, task := j.task) == j
  {
    j.(hasLock := true, task := Some(Running))
  }

  /** A freshly confirmed download: none of the flags are set yet. */
  function NewJob(src: Source, chat: ChatId, messageId: int, savePath: string): (j: Job)
    ensures Waiting(j, chat) && !j.isPaused && !j.cancellationPending && !j.hasLock
    ensures j.source == src && j.messageId == messageId && j.savePath == savePath
  {
    Job(src, chat, messageId, savePath, false, false, false, None, None, false)
  }

  function CancelIfRunning(j: Job): (e: seq<Effect>)
    ensures j.task == Some(Running) <==> e == [CancelTask(j.chat)]
    ensures j.task != Some(Running) <==> e == []
  {
    if j.task == Some(Running) then [CancelTask(j.chat)] else []
  }

  // ---------------------------------------------------------------------------
  // Admission

  /** `_start_download_task`: register the job as its chat's active download and persist. */
  function StartDownloadTask(s: Sched, j: Job): (r: Step)
    ensures r.s == s.(active := s.active[j.chat := Started(j)])
    ensures r.effects == [StartTask(j.chat), Persist(r.s.active, r.s.queues)]
  {
    var s1 := s.(active := s.active[j.chat := Started(j)]);
    Step(s1, [StartTask(j.chat), Persist(s1.active, s1.queues)])
  }

  /** `process_queue_for_user`: if the chat has no active download, pop the head
      of its queue (dropping the key once the queue is empty) and start it. */
  function ProcessQueue(s: Sched, chat: ChatId): (r: Step)
    ensures chat in s.active ==> r == Step(s, [])
    ensures chat !in s.active && |QueueOf(s, chat)| == 0 ==> r == Step(s, [])
    ensures chat !in s.active && |QueueOf(s, chat)| > 0 ==>
      var q := QueueOf(s, chat);
      && r.s.active == s.active[q[0].chat := Started(q[0])]
      && QueueOf(r.s, chat) == q[1..]
      && (chat in r.s.queues <==> |q| > 1)
      && r.s.queues - {chat} == s.queues - {chat}
      && r.effects == [StartTask(q[0].chat), Persist(r.s.active, r.s.queues)]
    ensures r.s.batches == s.batches && r.s.shuttingDown == s.shuttingDown
    ensures Wf(s) ==> Wf(r.s) && Settled(r.s, chat) && OthersUnchanged(s, r.s, chat)
  {
    if chat in s.active then Step(s, [])
    else if chat in s.queues && |s.queues[chat]| > 0 then
      var q := s.queues[chat];
      var queues := if |q| == 1 then s.queues - {chat} else s.queues[chat := q[1..]];
      StartDownloadTask(s.(queues := queues), q[0])
    else Step(s, [])
  }

  // ---------------------------------------------------------------------------
  // Confirming downloads

  /** The first half of both confirmation handlers: a paused active download is
      marked `requeued` and its task cancelled, so that it goes to the back of
      the queue once the task unwinds. */
  function DisplacePaused(s: Sched, chat: ChatId): (r: Step)
    ensures chat in s.active && s.active[chat].isPaused ==>
      && r.s == s.(active := s.active[chat := s.active[chat].(requeued := true)])
      && r.effects == CancelIfRunning(s.active[chat])
    ensures !(chat in s.active && s.active[chat].isPaused) ==> r == Step(s, [])
  {
    if chat in s.active && s.active[chat].isPaused then
      var a := s.active[chat];
      Step(s.(active := s.active[chat := a.(requeued := true)]), CancelIfRunning(a))
    else Step(s, [])
  }

  /** `add_download_to_queue`: append the confirmed torrent to the chat's queue,
      tell the user its position, persist and try to admit. */
  function AddDownload(s: Sched, chat: ChatId, pending: Option<Source>, defaultPath: string): (r: Step)
    ensures pending.None? ==> r == Step(s, [Reply(Expired)])
    ensures r.s.batches == s.batches && r.s.shuttingDown == s.shuttingDown
    ensures Wf(s) ==> Wf(r.s) && OthersUnchanged(s, r.s, chat)
    ensures Wf(s) && pending.Some? ==> Settled(r.s, chat)
  {
    match pending
    case None => Step(s, [Reply(Expired)])
    case Some(src) =>
      var d := DisplacePaused(s, chat);
      var job := NewJob(src, chat, src.originalMessageId, defaultPath);
      var q := QueueOf(d.s, chat) + [job];
      var s1 := d.s.(queues := d.s.queues[chat := q]);
      assert Wf(s) ==> Wf(s1) && OthersUnchanged(s, s1, chat) by {
        if Wf(s) {
          assert Wf(d.s) && OthersUnchanged(s, d.s, chat);
          AppendWaitingKeepsWf(d.s, chat, [job], s1);
        }
      }
      var trulyActive := chat in s1.active && !s1.active[chat].requeued;
      var notice := if trulyActive then QueuedAt(|q|) else NextInLine;
      var next := ProcessQueue(s1, chat);
      Step(next.s, d.effects + [Reply(notice), Persist(s1.active, s1.queues)] + next.effects)
  }

  /** One entry of `pending_season_download`. */
  datatype SeasonItem = SeasonItem(link: string, info: Dict)

  /** `clean_name` of a season item: its title (or "Download"), followed by
      " Sxx" when the season value converts to an int. */
  function SeasonCleanName(info: Dict): (r: string)
  {
    var t := Get(info, "title");
    var title := if Truthy(t) then Show(t) else "Download";
    var sv := Get(info, "season");
    if sv == VNone || sv == VStr("") then title
    else
      match ToInt(sv)
      case None => title
      case Some(n) => title + " S" + Pad2(n)
  }

  /** A pending season item `add_season_to_queue` files: one with a link. */
  predicate HasLink(it: SeasonItem) { |it.link| > 0 }

  /** The download record built for one linked season item. */
  function SeasonJob(it: SeasonItem, chat: ChatId, messageId: int, batchId: string, defaultPath: string): (j: Job)
    ensures Waiting(j, chat) && j.messageId == messageId && j.savePath == defaultPath
    ensures j.source.value == it.link && j.source.info == it.info && j.source.batchId == batchId
    ensures j.source.originalMessageId == messageId
    ensures j.source.kind == "magnet" <==> StartsWith(it.link, "magnet:")
  {
    var src := Source(it.link, if StartsWith(it.link, "magnet:") then "magnet" else "url",
                      it.info, SeasonCleanName(it.info), batchId, messageId);
    NewJob(src, chat, messageId, defaultPath)
  }

  /** The loop of `add_season_to_queue`: skip items without a link, build a job
      for each of the others, in order. */
  function SeasonJobs(items: seq<SeasonItem>, chat: ChatId, messageId: int, batchId: string, defaultPath: string): (r: seq<Job>)
    ensures |r| <= |items|
    ensures forall i :: 0 <= i < |r| ==> Waiting(r[i], chat) && r[i].messageId == messageId && r[i].source.batchId == batchId
  {
    if |items| == 0 then []
    else
      var rest := SeasonJobs(items[1..], chat, messageId, batchId, defaultPath);
      if !HasLink(items[0]) then rest
      else [SeasonJob(items[0], chat, messageId, batchId, defaultPath)] + rest
  }

  /** The season jobs are exactly the linked items, each turned into its job,
      in the order of the pending list. */
  lemma {:induction false} SeasonJobsAreLinkedItems(items: seq<SeasonItem>, chat: ChatId, messageId: int, batchId: string, defaultPath: string)
    ensures var r := SeasonJobs(items, chat, messageId, batchId, defaultPath);
      var linked := Seqs.Filter(items, HasLink);
      && |r| == |linked|
      && forall i :: 0 <= i < |r| ==> r[i] == SeasonJob(linked[i], chat, messageId, batchId, defaultPath)
    decreases |items|
  {
    if |items| > 0 {
      SeasonJobsAreLinkedItems(items[1..], chat, messageId, batchId, defaultPath);
      var r := SeasonJobs(items, chat, messageId, batchId, defaultPath);
      var rest := SeasonJobs(items[1..], chat, messageId, batchId, defaultPath);
      var linked := Seqs.Filter(items, HasLink);
      var linkedRest := Seqs.Filter(items[1..], HasLink);
      if HasLink(items[0]) {
        assert linked == [items[0]] + linkedRest;
        assert r == [SeasonJob(items[0], chat, messageId, batchId, defaultPath)] + rest;
        forall i | 0 <= i < |r| ensures r[i] == SeasonJob(linked[i], chat, messageId, batchId, defaultPath) {
          if i > 0 {
            assert r[i] == rest[i - 1];
            assert linked[i] == linkedRest[i - 1];
          }
        }
      } else {
        assert linked == linkedRest;
        assert r == rest;
      }
    }
  }

  /** `add_season_to_queue`: register a batch counting every pending item and
      queue, in order, a job for each item that has a link. */
  function AddSeason(s: Sched, chat: ChatId, items: seq<SeasonItem>, messageId: int, batchId: string, defaultPath: string): (r: Step)
    ensures |items| == 0 ==> r == Step(s, [Reply(SeasonExpired)])
    ensures |items| > 0 ==> r.s.batches == s.batches[batchId := Batch(|items|, 0, "tv", false)]
    ensures r.s.shuttingDown == s.shuttingDown
    ensures Wf(s) ==> Wf(r.s) && OthersUnchanged(s, r.s, chat)
  {
    if |items| == 0 then Step(s, [Reply(SeasonExpired)])
    else
      var d := DisplacePaused(s, chat);
      var q := QueueOf(d.s, chat) + SeasonJobs(items, chat, messageId, batchId, defaultPath);
      var s1 := d.s.(queues := d.s.queues[chat := q],
                     batches := d.s.batches[batchId := Batch(|items|, 0, "tv", false)]);
      assert Wf(s) ==> Wf(s1) && OthersUnchanged(s, s1, chat) by {
        if Wf(s) {
          assert Wf(d.s) && OthersUnchanged(s, d.s, chat);
          AppendWaitingKeepsWf(d.s, chat, SeasonJobs(items, chat, messageId, batchId, defaultPath), s1);
        }
      }
      var next := ProcessQueue(s1, chat);
      Step(next.s, d.effects + [Reply(SeasonQueued(|items|)), Persist(s1.active, s1.queues)] + next.effects)
  }

  /** Appending jobs that wait for `chat` to its queue keeps the state well
      formed and touches no other chat. */
  lemma AppendWaitingKeepsWf(s: Sched, chat: ChatId, extra: seq<Job>, t: Sched)
    requires Wf(s)
    requires forall i :: 0 <= i < |extra| ==> Waiting(extra[i], chat)
    requires t.active == s.active && t.queues == s.queues[chat := QueueOf(s, chat) + extra]
    ensures Wf(t) && OthersUnchanged(s, t, chat)
  {
    var q := QueueOf(s, chat) + extra;
    assert forall i :: 0 <= i < |q| ==> Waiting(q[i], chat) by {
      forall i | 0 <= i < |q| ensures Waiting(q[i], chat) {
        if i < |QueueOf(s, chat)| {
          assert q[i] == s.queues[chat][i];
        } else {
          assert q[i] == extra[i - |QueueOf(s, chat)|];
        }
      }
    }
  }

  // ---------------------------------------------------------------------------
  // Controls on the active download

  /** `handle_pause_resume`: flip `is_paused` and make the matching engine call. */
  function PauseResume(s: Sched, chat: ChatId): (r: Step)
    ensures chat !in s.active ==> r == Step(s, [Reply(NoActiveToToggle)])
    ensures chat in s.active && s.active[chat].handle.None? ==> r == Step(s, [])
    ensures chat in s.active && s.active[chat].handle.Some? ==>
      var a := s.active[chat];
      && r.s == s.(active := s.active[chat := a.(isPaused := !a.isPaused)])
      && r.effects == [if a.isPaused then ResumeEngine(chat) else PauseEngine(chat)]
  {
    if chat !in s.active then Step(s, [Reply(NoActiveToToggle)])
    else
      var a := s.active[chat];
      if a.handle.None? then Step(s, [])
      else if a.isPaused then Step(s.(active := s.active[chat := a.(isPaused := false)]), [ResumeEngine(chat)])
      else Step(s.(active := s.active[chat := a.(isPaused := true)]), [PauseEngine(chat)])
  }

  function SetPending(s: Sched, chat: ChatId, pending: bool): (t: Sched)
    requires chat in s.active
    ensures t == s.(active := s.active[chat := s.active[chat].(cancellationPending := pending)])
  {
    s.(active := s.active[chat := s.active[chat].(cancellationPending := pending)])
  }

  /** `handle_cancel_request`: the two-phase cancel of the active download. */
  function CancelRequest(s: Sched, chat: ChatId, action: string): (r: Step)
    ensures chat !in s.active ==> r == Step(s, [Reply(NoActiveToCancel)])
    ensures chat in s.active ==>
      var a := s.active[chat];
      && (action == "cancel_download" ==> r == Step(SetPending(s, chat, true), [Reply(ConfirmCancel)]))
      && (action == "cancel_confirm" ==> r == Step(SetPending(s, chat, false), CancelIfRunning(a)))
      && (action == "cancel_deny" ==> r == Step(SetPending(s, chat, false), []))
      && (action !in {"cancel_download", "cancel_confirm", "cancel_deny"} ==> r == Step(s, []))
  {
    if chat !in s.active then Step(s, [Reply(NoActiveToCancel)])
    else if action == "cancel_download" then Step(SetPending(s, chat, true), [Reply(ConfirmCancel)])
    else if action == "cancel_confirm" then Step(SetPending(s, chat, false), CancelIfRunning(s.active[chat]))
    else if action == "cancel_deny" then Step(SetPending(s, chat, false), [])
    else Step(s, [])
  }

  /** `handle_cancel_all`: ask first; on confirmation drop the whole queue and
      cancel the active download. */
  function CancelAll(s: Sched, chat: ChatId, action: string): (r: Step)
    ensures action == "cancel_all" ==>
      r == Step(if chat in s.active then SetPending(s, chat, true) else s, [Reply(ConfirmCancelAll)])
    ensures action == "cancel_all_confirm" ==>
      && chat !in r.s.queues
      && r.s.queues == s.queues - {chat}
      && r.s.active == (if chat in s.active then SetPending(s, chat, false).active else s.active)
      && r.effects == (if chat in s.active then CancelIfRunning(s.active[chat]) else [])
                      + [Persist(r.s.active, r.s.queues), Reply(CancelledAll)]
    ensures action == "cancel_all_deny" ==>
      r == Step(if chat in s.active then SetPending(s, chat, false) else s, [])
    ensures action !in {"cancel_all", "cancel_all_confirm", "cancel_all_deny"} ==> r == Step(s, [])
    ensures r.s.batches == s.batches && r.s.shuttingDown == s.shuttingDown
    ensures Wf(s) ==> Wf(r.s) && OthersUnchanged(s, r.s, chat)
  {
    if action == "cancel_all" then
      Step(if chat in s.active then SetPending(s, chat, true) else s, [Reply(ConfirmCancelAll)])
    else if action == "cancel_all_confirm" then
      var s1 := s.(queues := s.queues - {chat});
      var s2 := if chat in s.active then SetPending(s1, chat, false) else s1;
      var cancel := if chat in s.active then CancelIfRunning(s.active[chat]) else [];
      Step(s2, cancel + [Persist(s2.active, s2.queues), Reply(CancelledAll)])
    else if action == "cancel_all_deny" then
      Step(if chat in s.active then SetPending(s, chat, false) else s, [])
    else Step(s, [])
  }

  // ---------------------------------------------------------------------------
  // Termination of a download task

  /** `_requeue_download`: strip the runtime parts, force the paused flag, move
      the job to the back of its chat's queue, persist and admit the next job. */
  function Requeue(s: Sched, j: Job): (r: Step)
    ensures var q := QueueOf(s, j.chat) + [Requeued(j)];
      var s1 := s.(active := s.active - {j.chat}, queues := s.queues[j.chat := q]);
      r == Step(ProcessQueue(s1, j.chat).s, [Persist(s1.active, s1.queues)] + ProcessQueue(s1, j.chat).effects)
    ensures r.s.batches == s.batches && r.s.shuttingDown == s.shuttingDown
    ensures Wf(s) ==> Wf(r.s) && Settled(r.s, j.chat) && OthersUnchanged(s, r.s, j.chat)
  {
    var q := QueueOf(s, j.chat) + [Requeued(j)];
    var s1 := s.(active := s.active - {j.chat}, queues := s.queues[j.chat := q]);
    var next := ProcessQueue(s1, j.chat);
    Step(next.s, [Persist(s1.active, s1.queues)] + next.effects)
  }

  /** The job as `_requeue_download` files it back. */
  function Requeued(j: Job): (r: Job)
    ensures Waiting(r, j.chat) && r.isPaused
    ensures r.source == j.source && r.messageId == j.messageId && r.savePath == j.savePath
    ensures r.cancellationPending == j.cancellationPending && r.hasLock == j.hasLock
  {
    j.(task := None, handle := None, requeued := false, isPaused := true)
  }

  /** `cleanup_download_resources`, state part: forget the active entry and persist. */
  function Cleanup(s: Sched, chat: ChatId): (r: Step)
    ensures r.s == s.(active := s.active - {chat})
    ensures r.effects == [Persist(r.s.active, r.s.queues)]
  {
    var s1 := s.(active := s.active - {chat});
    Step(s1, [Persist(s1.active, s1.queues)])
  }

  /** The final status text; `text` is the success text after batch bookkeeping. */
  function FinalNoteOf(o: Outcome, j: Job, text: string): FinalNote {
    match o
    case Completed(_) => Text(text)
    case Failed => DownloadFailed
    case Cancelled => CancelledNote(j.source.cleanName)
    case Crashed(e) => ErrorNote(e)
  }

  /** The `finally` block of `download_task_wrapper`, preceded on success by the
      batch bookkeeping of `_update_batch_and_maybe_scan`: a requeued job goes
      back to the queue; otherwise, unless the bot is shutting down, the job is
      finalised, cleaned up and the next queued job admitted. `scan` stands for
      the Plex library scan and returns its status line. */
  function Finish(s: Sched, j: Job, o: Outcome, scan: string -> string): (r: Step)
    ensures j.requeued ==> r == Requeue(s.(batches := BatchesAfter(s, j, o, scan).0), j)
    ensures !j.requeued && s.shuttingDown ==> r.s == s.(batches := BatchesAfter(s, j, o, scan).0) && r.effects == []
    ensures !j.requeued && !s.shuttingDown ==>
      var b := BatchesAfter(s, j, o, scan);
      var s1 := s.(batches := b.0, active := s.active - {j.chat});
      && r.s == ProcessQueue(s1, j.chat).s
      && r.effects == [FinalMessage(j.chat, FinalNoteOf(o, j, b.1)), Persist(s1.active, s1.queues)]
                      + ProcessQueue(s1, j.chat).effects
    ensures Wf(s) ==> Wf(r.s) && OthersUnchanged(s, r.s, j.chat)
    ensures Wf(s) && !s.shuttingDown ==> Settled(r.s, j.chat)
  {
    var b := BatchesAfter(s, j, o, scan);
    var sb := s.(batches := b.0);
    if j.requeued then Requeue(sb, j)
    else if s.shuttingDown then Step(sb, [])
    else
      var fin := Cleanup(sb, j.chat);
      var next := ProcessQueue(fin.s, j.chat);
      Step(next.s, [FinalMessage(j.chat, FinalNoteOf(o, j, b.1))] + fin.effects + next.effects)
  }

  /** The batch table and message text after the task body: only a completed
      download touches the batch counters. */
  function BatchesAfter(s: Sched, j: Job, o: Outcome, scan: string -> string): (r: (map<string, Batch>, string))
    ensures !o.Completed? ==> r.0 == s.batches
  {
    if o.Completed? then UpdateBatch(s.batches, j.source, o.text, scan)
    else (s.batches, "")
  }

  // ---------------------------------------------------------------------------
  // Season batches

  /** One completion counted against a batch: the new record and whether the
      single library scan fires now. */
  function BatchStep(b: Batch): (r: (Batch, bool))
    ensures r.0.done == b.done + 1 && r.0.total == b.total && r.0.mediaType == b.mediaType
    ensures r.1 <==> (b.done + 1 >= b.total && !b.scanned)
    ensures r.0.scanned <==> (b.scanned || r.1)
  {
    var b1 := b.(done := b.done + 1);
    if b1.done < b.total || b.scanned then (b1, false)
    else (b1.(scanned := true), true)
  }

  /** The characters `escape_markdown(text, version=2)` of python-telegram-bot
      puts a backslash before: the MarkdownV2 specials and the backslash itself. */
  const MarkdownV2Chars: set<char> :=
    {'\\', '_', '*', '[', ']', '(', ')', '~', '`', '>', '#', '+', '-', '=', '|', '{', '}', '.', '!'}

  /** `escape_markdown(text, version=2)`. */
  function EscapeV2(text: string): (r: string)
    ensures Unescape(r, MarkdownV2Chars) == text
    ensures Guarded(r, MarkdownV2Chars)
    ensures (forall k :: 0 <= k < |text| ==> text[k] !in MarkdownV2Chars) ==> r == text
  {
    UnescapeEscape(text, MarkdownV2Chars);
    EscapedIsGuarded(text, MarkdownV2Chars);
    Escape(text, MarkdownV2Chars)
  }

  /** `str(parsed_info.get("title", "This Show"))`. */
  function BatchTitle(info: Dict): (r: string)
    ensures "title" !in info ==> r == "This Show"
    ensures "title" in info && info["title"].VStr? ==> r == info["title"].s
  {
    if "title" in info then Show(info["title"]) else "This Show"
  }

  /** `int(parsed_info.get("season", 0) or 0)`: a falsy season reads as 0, and
      `int()` on anything else may raise (`None`). */
  function BatchSeason(info: Dict): (r: Option<int>)
    ensures !Truthy(Get(info, "season")) ==> r == Some(0)
    ensures Truthy(Get(info, "season")) ==> r == ToInt(Get(info, "season"))
  {
    IntOrZero(Get(info, "season"))
  }

  /** The "Batch Complete" lines appended to the final message, or `None` when
      reading the season raises. */
  function BatchLine(info: Dict, total: int): (r: Option<string>)
    ensures r.Some? <==> BatchSeason(info).Some?
    ensures r.Some? ==>
      r.value == "\n\n*Batch Complete*\nSeason " + Pad2(BatchSeason(info).value) + " of *"
                 + EscapeV2(BatchTitle(info)) + "* finalized: " + IntToString(total) + "/"
                 + IntToString(total) + " episodes\\.\nStarting Plex scan…"
  {
    match BatchSeason(info)
    case None => None
    case Some(season) =>
      Some("\n\n*Batch Complete*\nSeason " + Pad2(season) + " of *" + EscapeV2(BatchTitle(info))
           + "* finalized: " + IntToString(total) + "/" + IntToString(total) + " episodes\\.\nStarting Plex scan…")
  }

  /** `_update_batch_and_maybe_scan`. The counters are updated in place before
      anything can raise, so a season that `int()` refuses still leaves the
      batch marked as scanned; the `except` then returns the text unchanged and
      no scan is started. */
  function UpdateBatch(batches: map<string, Batch>, src: Source, text: string, scan: string -> string): (r: (map<string, Batch>, string))
    ensures src.batchId == "" || src.batchId !in batches ==> r == (batches, text)
    ensures src.batchId != "" && src.batchId in batches ==>
      var b := batches[src.batchId];
      var st := BatchStep(b);
      && r.0 == batches[src.batchId := st.0]
      && (st.1 && BatchSeason(src.info).Some? ==>
            r.1 == text + BatchLine(src.info, b.total).value + scan(b.mediaType))
      && (!st.1 || BatchSeason(src.info).None? ==> r.1 == text)
  {
    if src.batchId == "" || src.batchId !in batches then (batches, text)
    else
      var b := batches[src.batchId];
      var st := BatchStep(b);
      if !st.1 then (batches[src.batchId := st.0], text)
      else
        match BatchLine(src.info, b.total)
        case None => (batches[src.batchId := st.0], text)
        case Some(line) => (batches[src.batchId := st.0], text + line + scan(b.mediaType))
  }

  /** A season `int()` refuses, such as "abc", swallows the completion line and
      the scan, yet the batch stays marked as scanned: no later completion
      ever reports it. */
  lemma UnreadableSeasonSkipsScan(batches: map<string, Batch>, src: Source, text: string, scan: string -> string)
    requires src.batchId != "" && src.batchId in batches && BatchStep(batches[src.batchId]).1
    requires Get(src.info, "season") == VStr("abc")
    ensures UpdateBatch(batches, src, text, scan) == (batches[src.batchId := BatchStep(batches[src.batchId]).0], text)
    ensures UpdateBatch(batches, src, text, scan).0[src.batchId].scanned
  {
    var w := "abc";
    assert IsAlpha(w[0]) && IsAlpha(w[|w| - 1]);
    WordIsNoInt(w);
  }

  /** The number of scans fired by `k` successive completions against `b`. */
  function ScansAfter(b: Batch, k: nat): nat
    decreases k
  {
    if k == 0 then 0
    else
      var st := BatchStep(b);
      (if st.1 then 1 else 0) + ScansAfter(st.0, k - 1)
  }

  /** A fresh batch of `total` items fires its library scan exactly once, at the
      `total`-th completion, however many further completions follow. */
  lemma {:induction false} BatchScansOnce(b: Batch, k: nat)
    requires 0 <= b.done < b.total && !b.scanned
    ensures ScansAfter(b, k) == (if b.done + k >= b.total then 1 else 0)
    decreases k
  {
    if k > 0 {
      var st := BatchStep(b);
      if st.1 {
        ScannedStaysQuiet(st.0, k - 1);
      } else {
        BatchScansOnce(st.0, k - 1);
      }
    }
  }

  lemma {:induction false} ScannedStaysQuiet(b: Batch, k: nat)
    requires b.scanned
    ensures ScansAfter(b, k) == 0
    decreases k
  {
    if k > 0 {
      ScannedStaysQuiet(BatchStep(b).0, k - 1);
    }
  }

  // ---------------------------------------------------------------------------
  // Progress reports

  datatype Button = Button(caption: string, action: string)

  /** The visible decisions of one progress message. */
  datatype Render = Render(paused: bool, speedMBps: real, buttons: seq<Button>)

  /** What one call of the reporter does: nothing, a message, or an exception
      raised while the message text is built. */
  datatype Progress = Quiet | Shown(render: Render) | Raised

  /** `int(x or 0)`: a falsy value reads as 0; `None` when `int()` raises. */
  function IntOrZero(v: Value): (r: Option<int>)
    ensures !Truthy(v) ==> r == Some(0)
    ensures Truthy(v) && v.VInt? ==> r == Some(v.i)
    ensures Truthy(v) ==> r == ToInt(v)
  {
    if Truthy(v) then ToInt(v) else Some(0)
  }

  /** Whether the name lines of a progress message can be built: a tv record
      needs a string title (or none), a season `int()` can read and, unless it
      is a season pack, an episode `int()` can read. Other records show the
      clean name, which is always a string. */
  predicate ProgressNameReadable(info: Dict) {
    Get(info, "type") == VStr("tv") ==>
      && ("title" in info ==> info["title"].VStr?)
      && IntOrZero(Get(info, "season")).Some?
      && (Truthy(Get(info, "is_season_pack")) || IntOrZero(Get(info, "episode")).Some?)
  }

  /** `ProgressReporter.report`: nothing while a cancel is being confirmed or
      within one second of the previous report. Otherwise the report time moves
      to `now` first, and then either the name lines raise or a message is shown
      whose speed and toggle follow the paused flag and which offers
      "Cancel All" only when the chat has queued downloads. The speed is an
      exact real. Returns the outcome and the new `last_update_time`. */
  function Report(j: Job, last: real, now: real, rate: real, queue: seq<Job>): (r: (Progress, real))
    ensures j.cancellationPending || now - last < 1.0 ==> r == (Quiet, last)
    ensures !j.cancellationPending && now - last >= 1.0 ==>
      && r.1 == now
      && !r.0.Quiet?
      && (r.0.Raised? <==> !ProgressNameReadable(j.source.info))
    ensures r.0.Shown? ==>
      var rd := r.0.render;
      && rd.paused == j.isPaused
      && (j.isPaused ==> rd.speedMBps == 0.0)
      && (!j.isPaused ==> rd.speedMBps * 1048576.0 == rate)
      && 2 <= |rd.buttons| <= 3
      && rd.buttons[0] == (if j.isPaused then ResumeButton else PauseButton)
      && rd.buttons[1] == CancelButton
      && (|rd.buttons| == 3 <==> |queue| > 0)
      && (|queue| > 0 ==> rd.buttons[2] == CancelAllButton)
  {
    if j.cancellationPending then (Quiet, last)
    else if now - last < 1.0 then (Quiet, last)
    else if !ProgressNameReadable(j.source.info) then (Raised, now)
    else
      var speed := if j.isPaused then 0.0 else rate / 1024.0 / 1024.0;
      var toggle := if j.isPaused then ResumeButton else PauseButton;
      var row := [toggle, CancelButton] + (if |queue| > 0 then [CancelAllButton] else []);
      (Shown(Render(j.isPaused, speed, row)), now)
  }

  /** A tv download whose season is the word "abc" sends no progress message,
      yet its report time still moves to `now`. */
  lemma UnreadableSeasonRaisesReport(j: Job, last: real, now: real, rate: real, queue: seq<Job>)
    requires !j.cancellationPending && now - last >= 1.0
    requires Get(j.source.info, "type") == VStr("tv")
    requires Get(j.source.info, "season") == VStr("abc")
    ensures Report(j, last, now, rate, queue) == (Raised, now)
  {
    var w := "abc";
    assert IsAlpha(w[0]) && IsAlpha(w[|w| - 1]);
    WordIsNoInt(w);
  }

  /** Movie records and tv records with plain numbers always get a message
      once the throttle lets the report through. */
  lemma ReadableNamesShow(j: Job, last: real, now: real, rate: real, queue: seq<Job>, season: int, episode: int)
    requires !j.cancellationPending && now - last >= 1.0
    requires Get(j.source.info, "title").VStr? || "title" !in j.source.info
    requires Get(j.source.info, "season") == VInt(season)
    requires Get(j.source.info, "episode") == VInt(episode)
    ensures Report(j, last, now, rate, queue).0.Shown?
  {
  }

  const PauseButton := Button("⏸️ Pause", "pause_resume")
  const ResumeButton := Button("▶️ Resume", "pause_resume")
  const CancelButton := Button("⏹️ Cancel", "cancel_download")
  const CancelAllButton := Button("🧹 Cancel All", "cancel_all")
}
