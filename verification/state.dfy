/** Persistence of the scheduler (`telegram_bot/state.py`): the JSON snapshot
    written after every change, loaded at start-up, and the start-up and
    shutdown hooks built on it.

    The JSON encoder and the file system are modelled by what they can do to the
    file: it is missing, holds a snapshot, or holds a truncated document. A job
    record can be written only when it holds no runtime object (asyncio task,
    asyncio lock, libtorrent handle): `json.dump` raises `TypeError` on those
    part-way through writing, after `open(..., "w")` has already truncated the
    file. */
module State {
  import opened Wrappers
  import opened DownloadManager

  datatype Snapshot = Snapshot(active: map<ChatId, Job>, queues: map<ChatId, seq<Job>>)

  /** The persistence file. */
  datatype Disk = Absent | Garbled | Written(snap: Snapshot)

  /** A job `json.dump` can encode: none of the runtime objects is present. */
  predicate Serializable(j: Job) {
    j.task.None? && j.handle.None? && !j.hasLock
  }

  predicate QueuesSerializable(queues: map<ChatId, seq<Job>>) {
    forall c, i :: c in queues && 0 <= i < |queues[c]| ==> Serializable(queues[c][i])
  }

  /** The copy `save_state` writes for an active job: task, lock and handle popped. */
  function Strip(j: Job): (r: Job)
    ensures Serializable(r)
    ensures r.(task := j.task, handle := j.handle, hasLock := j.hasLock) == j
  {
    j.(task := None, handle := None, hasLock := false)
  }

  /** The active downloads `save_state` persists: all but the requeued ones, stripped. */
  function PersistedActive(active: map<ChatId, Job>): (r: map<ChatId, Job>)
    ensures forall c :: c in r <==> c in active && !active[c].requeued
    ensures forall c :: c in r ==> r[c] == Strip(active[c])
  {
    map c | c in active && !active[c].requeued :: Strip(active[c])
  }

  /** `save_state`, as written: the queues are dumped as they are. A write that
      cannot open the file leaves it alone; one that meets a runtime object in a
      queue leaves a truncated document behind. Nothing is ever raised. */
  function SaveState(disk: Disk, active: map<ChatId, Job>, queues: map<ChatId, seq<Job>>, writable: bool): (d: Disk)
    ensures !writable ==> d == disk
    ensures writable && QueuesSerializable(queues) ==> d == Written(Snapshot(PersistedActive(active), queues))
    ensures writable && !QueuesSerializable(queues) ==> d == Garbled
  {
    if !writable then disk
    else if QueuesSerializable(queues) then Written(Snapshot(PersistedActive(active), queues))
    else Garbled
  }

  /** `load_state`: empty maps for a missing, unreadable or unparsable file. */
  function LoadState(disk: Disk, readable: bool): (r: (map<ChatId, Job>, map<ChatId, seq<Job>>))
    ensures disk.Absent? || disk.Garbled? || !readable ==> r == (map[], map[])
    ensures disk.Written? && readable ==> r == (disk.snap.active, disk.snap.queues)
  {
    match disk
    case Absent => (map[], map[])
    case Garbled => (map[], map[])
    case Written(snap) => if readable then (snap.active, snap.queues) else (map[], map[])
  }

  /** Round trip: what `save_state` wrote loads back as the stripped, non-requeued
      active downloads and the identical queues. */
  lemma SaveLoadRoundTrip(disk: Disk, active: map<ChatId, Job>, queues: map<ChatId, seq<Job>>)
    requires QueuesSerializable(queues)
    ensures LoadState(SaveState(disk, active, queues, true), true) == (PersistedActive(active), queues)
  {
  }

  /** The queues with every job stripped of its runtime objects. */
  function StripQueues(queues: map<ChatId, seq<Job>>): (r: map<ChatId, seq<Job>>)
    ensures r.Keys == queues.Keys
    ensures forall c :: c in r ==> |r[c]| == |queues[c]| && forall i :: 0 <= i < |r[c]| ==> r[c][i] == Strip(queues[c][i])
    ensures QueuesSerializable(r)
  {
    map c | c in queues :: StripAll(queues[c])
  }

  function StripAll(q: seq<Job>): (r: seq<Job>)
    ensures |r| == |q|
    ensures forall i :: 0 <= i < |q| ==> r[i] == Strip(q[i])
  {
    seq(|q|, i requires 0 <= i < |q| => Strip(q[i]))
  }

  /** `save_state` with queued jobs stripped like active ones: every write that
      can open the file produces a loadable snapshot. */
  function SaveStateFixed(disk: Disk, active: map<ChatId, Job>, queues: map<ChatId, seq<Job>>, writable: bool): (d: Disk)
    ensures !writable ==> d == disk
    ensures writable ==> d.Written?
  {
    if !writable then disk
    else Written(Snapshot(PersistedActive(active), StripQueues(queues)))
  }

  /** Round trip of the corrected save: the queues come back job for job, minus
      their runtime objects, whatever they held. */
  lemma SaveFixedLoadRoundTrip(disk: Disk, active: map<ChatId, Job>, queues: map<ChatId, seq<Job>>)
    ensures var r := LoadState(SaveStateFixed(disk, active, queues, true), true);
      && r.0 == PersistedActive(active)
      && r.1.Keys == queues.Keys
      && forall c :: c in queues ==> |r.1[c]| == |queues[c]| && forall i :: 0 <= i < |queues[c]| ==> r.1[c][i] == Strip(queues[c][i])
  {
  }

  /** On already serialisable queues the corrected save writes what the original does. */
  lemma SaveFixedAgrees(disk: Disk, active: map<ChatId, Job>, queues: map<ChatId, seq<Job>>, writable: bool)
    requires QueuesSerializable(queues)
    ensures SaveStateFixed(disk, active, queues, writable) == SaveState(disk, active, queues, writable)
  {
    var sq := StripQueues(queues);
    forall c | c in queues
      ensures sq[c] == queues[c]
    {
      assert forall i :: 0 <= i < |queues[c]| ==> Strip(queues[c][i]) == queues[c][i];
    }
    assert sq == queues;
  }

  /** A requeued job keeps the asyncio lock `_start_download_task` gave it: once
      it sits in a queue, `save_state` garbles the file and the next start-up
      loads nothing at all, dropping every active and queued download. */
  lemma RequeueGarblesSave(s: Sched, chat: ChatId, src: Source, path: string, scan: string -> string, disk: Disk)
    requires Wf(s) && !s.shuttingDown
    requires chat in s.active && s.active[chat].isPaused && s.active[chat].hasLock
    ensures var r := AddDownload(s, chat, Some(src), path);
      var after := Requeue(r.s, r.s.active[chat]);
      var saved := after.effects[0];
      && saved.Persist?
      && !QueuesSerializable(saved.queues)
      && SaveState(disk, saved.active, saved.queues, true) == Garbled
      && LoadState(SaveState(disk, saved.active, saved.queues, true), true) == (map[], map[])
  {
    var r := AddDownload(s, chat, Some(src), path);
    var p := r.s.active[chat];
    var q := QueueOf(r.s, chat) + [Requeued(p)];
    var after := Requeue(r.s, p);
    var saved := after.effects[0];
    assert saved.queues[chat] == q;
    assert !Serializable(q[|q| - 1]);
  }

  /** The same scenario saved with the corrected save reloads the displaced job,
      paused and stripped, at the back of the queue. */
  lemma RequeueSavesWhenFixed(s: Sched, chat: ChatId, src: Source, path: string, disk: Disk)
    requires Wf(s) && !s.shuttingDown
    requires chat in s.active && s.active[chat].isPaused
    ensures var r := AddDownload(s, chat, Some(src), path);
      var p := r.s.active[chat];
      var saved := Requeue(r.s, p).effects[0];
      var loaded := LoadState(SaveStateFixed(disk, saved.active, saved.queues, true), true);
      && chat in loaded.1
      && loaded.1[chat][|loaded.1[chat]| - 1] == Strip(Requeued(p))
      && loaded.1[chat][|loaded.1[chat]| - 1].isPaused
  {
    var r := AddDownload(s, chat, Some(src), path);
    var p := r.s.active[chat];
    var q := QueueOf(r.s, chat) + [Requeued(p)];
    var saved := Requeue(r.s, p).effects[0];
    assert saved.queues[chat] == q;
  }

  // ---------------------------------------------------------------------------
  // Start-up and shutdown hooks

  /** `post_init`: install the loaded maps and give every restored active
      download a fresh lock and task; queued downloads are not started. */
  function PostInit(disk: Disk, readable: bool): (r: (Sched, set<ChatId>))
    ensures var l := LoadState(disk, readable);
      && r.0.active.Keys == l.0.Keys
      && (forall c :: c in l.0 ==> r.0.active[c] == Started(l.0[c]))
      && r.0.queues == l.1
      && r.1 == l.0.Keys
      && !r.0.shuttingDown
  {
    var l := LoadState(disk, readable);
    var active := map c | c in l.0 :: Started(l.0[c]);
    (Sched(active, l.1, map[], false), l.0.Keys)
  }

  /** A cancelled task never reaches the library scan. */
  function NoScan(library: string): string { "" }

  /** A download whose task `post_shutdown` cancels: one still running. */
  predicate Cancellable(active: map<ChatId, Job>, c: ChatId) {
    c in active && active[c].task == Some(Running)
  }

  /** The `finally` blocks of the cancelled tasks, which `asyncio.gather` runs
      before the final save. `before` holds each task's `download_data` as it
      was when the task was cancelled; `chats` lists the chats in the order of
      `active_downloads`. A requeued job is filed back by `_requeue_download`,
      which also admits the next queued job; any other job leaves the maps
      alone, because the shutdown flag is up. */
  function FinishCancelled(before: map<ChatId, Job>, s: Sched, chats: seq<ChatId>): (t: Sched)
    requires s.shuttingDown
    ensures t.shuttingDown && t.batches == s.batches
    ensures Wf(s) ==> Wf(t)
    decreases |chats|
  {
    if |chats| == 0 then s
    else
      var c := chats[0];
      FinishCancelledStep(before, s, c);
      FinishCancelled(before, FinishOne(before, s, c), chats[1..])
  }

  /** The `finally` of the task of chat `c`, if `post_shutdown` cancelled one. */
  function FinishOne(before: map<ChatId, Job>, s: Sched, c: ChatId): Sched {
    if Cancellable(before, c) then Finish(s, before[c], Cancelled, NoScan).s else s
  }

  /** Every task's `download_data` is filed under its own chat. */
  predicate OwnChats(before: map<ChatId, Job>) {
    forall c :: c in before ==> before[c].chat == c
  }

  /** The entries of chat `d` in `s`: its active download and its queue. */
  predicate SameChat(s: Sched, t: Sched, d: ChatId) {
    (d in t.active <==> d in s.active) && (d in s.active ==> t.active[d] == s.active[d])
    && QueueOf(t, d) == QueueOf(s, d)
  }

  lemma FinishCancelledStep(before: map<ChatId, Job>, s: Sched, c: ChatId)
    requires s.shuttingDown
    ensures var s1 := FinishOne(before, s, c);
      s1.shuttingDown && s1.batches == s.batches && (Wf(s) ==> Wf(s1))
  {
    if Cancellable(before, c) {
      assert BatchesAfter(s, before[c], Cancelled, NoScan).0 == s.batches;
      assert s.(batches := s.batches) == s;
    }
  }

  /** One `finally` touches the entries of its own chat only. */
  lemma FinishOneOtherChat(before: map<ChatId, Job>, s: Sched, c: ChatId, d: ChatId)
    requires s.shuttingDown && Wf(s) && OwnChats(before) && d != c
    ensures SameChat(s, FinishOne(before, s, c), d)
  {
    if Cancellable(before, c) {
      var r := Finish(s, before[c], Cancelled, NoScan);
      assert OthersUnchanged(s, r.s, c);
      assert d in s.active - {c} <==> d in r.s.active - {c};
      assert d in s.queues - {c} <==> d in r.s.queues - {c};
      if d in s.active {
        assert (s.active - {c})[d] == (r.s.active - {c})[d];
      }
      if d in s.queues {
        assert (s.queues - {c})[d] == (r.s.queues - {c})[d];
      }
    }
  }

  /** The tasks of other chats never touch chat `d`. */
  lemma {:induction false} FinishCancelledOtherChat(before: map<ChatId, Job>, s: Sched, chats: seq<ChatId>, d: ChatId)
    requires s.shuttingDown && Wf(s) && OwnChats(before) && d !in chats
    ensures SameChat(s, FinishCancelled(before, s, chats), d)
    decreases |chats|
  {
    if |chats| > 0 {
      var s1 := FinishOne(before, s, chats[0]);
      FinishCancelledStep(before, s, chats[0]);
      FinishOneOtherChat(before, s, chats[0], d);
      FinishCancelledOtherChat(before, s1, chats[1..], d);
    }
  }

  /** The `finally` of a displaced job files it at the back of its queue and
      admits the head of that queue. */
  lemma FinishOneRefiles(before: map<ChatId, Job>, s: Sched, c: ChatId)
    requires s.shuttingDown && Wf(s) && OwnChats(before)
    requires Cancellable(before, c) && before[c].requeued
    ensures var q := QueueOf(s, c) + [Requeued(before[c])];
      var t := FinishOne(before, s, c);
      c in t.active && t.active[c] == Started(q[0]) && QueueOf(t, c) == q[1..]
  {
    var j := before[c];
    var q := QueueOf(s, c) + [Requeued(j)];
    assert BatchesAfter(s, j, Cancelled, NoScan).0 == s.batches;
    assert s.(batches := s.batches) == s;
    var s1 := s.(active := s.active - {c}, queues := s.queues[c := q]);
    assert QueueOf(s1, c) == q;
    assert q[0].chat == c by {
      if |QueueOf(s, c)| > 0 {
        assert Waiting(s.queues[c][0], c);
      }
    }
  }

  /** Over all the cancelled tasks, a displaced job of chat `c` ends up filed
      back behind its queue, whose head is admitted. */
  lemma {:induction false} FinishCancelledRefiles(before: map<ChatId, Job>, s: Sched, chats: seq<ChatId>, c: ChatId)
    requires s.shuttingDown && Wf(s) && OwnChats(before)
    requires forall i, k :: 0 <= i < k < |chats| ==> chats[i] != chats[k]
    requires c in chats && Cancellable(before, c) && before[c].requeued
    ensures var q := QueueOf(s, c) + [Requeued(before[c])];
      var t := FinishCancelled(before, s, chats);
      c in t.active && t.active[c] == Started(q[0]) && QueueOf(t, c) == q[1..]
    decreases |chats|
  {
    var s1 := FinishOne(before, s, chats[0]);
    FinishCancelledStep(before, s, chats[0]);
    if chats[0] == c {
      FinishOneRefiles(before, s, c);
      assert c !in chats[1..] by {
        forall k | 0 <= k < |chats[1..]| ensures chats[1..][k] != c {
          assert chats[1..][k] == chats[k + 1];
        }
      }
      FinishCancelledOtherChat(before, s1, chats[1..], c);
    } else {
      FinishOneOtherChat(before, s, chats[0], c);
      assert forall i, k :: 0 <= i < k < |chats[1..]| ==> chats[1..][i] != chats[1..][k] by {
        forall i, k | 0 <= i < k < |chats[1..]| ensures chats[1..][i] != chats[1..][k] {
          assert chats[1..][i] == chats[i + 1] && chats[1..][k] == chats[k + 1];
        }
      }
      FinishCancelledRefiles(before, s1, chats[1..], c);
    }
  }

  /** `post_shutdown`: raise the shutdown flag, cancel the tasks that are still
      running, let their `finally` blocks run, and save once more. `order` is
      the iteration order of `active_downloads`. Returns the state after the
      cancelled tasks have unwound, the chats whose task was cancelled and the
      file after the final save. */
  function PostShutdown(s: Sched, order: seq<ChatId>, disk: Disk, writable: bool): (r: (Sched, set<ChatId>, Disk))
    requires forall c :: c in order <==> c in s.active
    requires forall i, k :: 0 <= i < k < |order| ==> order[i] != order[k]
    ensures forall c :: c in r.1 <==> Cancellable(s.active, c)
    ensures r.0.shuttingDown && r.0.batches == s.batches
    ensures Wf(s) ==> Wf(r.0)
    ensures r.0 == FinishCancelled(s.active, s.(shuttingDown := true), order)
    ensures r.2 == SaveState(disk, r.0.active, r.0.queues, writable)
  {
    var cancelled := set c | c in s.active && Cancellable(s.active, c);
    var t := FinishCancelled(s.active, s.(shuttingDown := true), order);
    (t, cancelled, SaveState(disk, t.active, t.queues, writable))
  }

  /** With no displaced job waiting to be filed back, the cancelled tasks leave
      both maps as they were. */
  lemma {:induction false} FinishCancelledIdle(before: map<ChatId, Job>, s: Sched, chats: seq<ChatId>)
    requires s.shuttingDown
    requires forall c :: Cancellable(before, c) ==> !before[c].requeued
    ensures FinishCancelled(before, s, chats) == s
    decreases |chats|
  {
    if |chats| > 0 {
      var c := chats[0];
      if Cancellable(before, c) {
        assert BatchesAfter(s, before[c], Cancelled, NoScan).0 == s.batches;
        assert s.(batches := s.batches) == s;
        assert Finish(s, before[c], Cancelled, NoScan).s == s;
      }
      FinishCancelledIdle(before, s, chats[1..]);
    }
  }

  /** A clean restart: when no active download is waiting to be filed back,
      shutting down and starting again resumes exactly the non-requeued active
      downloads, each with a fresh task, and the same queues. */
  lemma RestartResumes(s: Sched, order: seq<ChatId>, disk: Disk)
    requires Wf(s) && QueuesSerializable(s.queues)
    requires forall c :: c in order <==> c in s.active
    requires forall i, k :: 0 <= i < k < |order| ==> order[i] != order[k]
    requires forall c :: Cancellable(s.active, c) ==> !s.active[c].requeued
    ensures var sd := PostShutdown(s, order, disk, true);
      var up := PostInit(sd.2, true);
      && (forall c :: c in up.0.active <==> c in s.active && !s.active[c].requeued)
      && (forall c :: c in up.0.active ==> up.0.active[c] == Started(Strip(s.active[c])))
      && up.0.queues == s.queues
      && !up.0.shuttingDown
  {
    FinishCancelledIdle(s.active, s.(shuttingDown := true), order);
  }

  /** A paused download displaced by a new confirmation whose task has not yet
      unwound when the bot stops: `asyncio.gather` lets its `finally` file it
      back behind the chat's queue and admit the head of that queue before the
      final save. */
  lemma ShutdownRefilesDisplaced(s: Sched, order: seq<ChatId>, disk: Disk, writable: bool, c: ChatId)
    requires Wf(s)
    requires forall d :: d in order <==> d in s.active
    requires forall i, k :: 0 <= i < k < |order| ==> order[i] != order[k]
    requires Cancellable(s.active, c) && s.active[c].requeued
    ensures var t := PostShutdown(s, order, disk, writable).0;
      var q := QueueOf(s, c) + [Requeued(s.active[c])];
      && c in t.active && t.active[c] == Started(q[0]) && QueueOf(t, c) == q[1..]
  {
    var s0 := s.(shuttingDown := true);
    assert QueueOf(s0, c) == QueueOf(s, c);
    FinishCancelledRefiles(s.active, s0, order, c);
  }

  /** When that chat had jobs waiting, the displaced job stays in the queue
      still holding its asyncio lock, so the final save garbles the file and
      the next start-up restores nothing. */
  lemma ShutdownGarblesWithDisplaced(s: Sched, order: seq<ChatId>, disk: Disk, c: ChatId)
    requires Wf(s)
    requires forall d :: d in order <==> d in s.active
    requires forall i, k :: 0 <= i < k < |order| ==> order[i] != order[k]
    requires Cancellable(s.active, c) && s.active[c].requeued && s.active[c].hasLock
    requires |QueueOf(s, c)| > 0
    ensures PostShutdown(s, order, disk, true).2 == Garbled
    ensures var up := PostInit(PostShutdown(s, order, disk, true).2, true);
      up.0.active == map[] && up.0.queues == map[]
  {
    ShutdownRefilesDisplaced(s, order, disk, true, c);
    var t := PostShutdown(s, order, disk, true).0;
    var q := QueueOf(s, c) + [Requeued(s.active[c])];
    assert QueueOf(t, c)[|q| - 2] == Requeued(s.active[c]);
    assert !Serializable(t.queues[c][|q| - 2]);
  }

  /** With the corrected save the same shutdown keeps the displaced job: it
      reloads, paused and stripped, at the back of its chat's queue. */
  lemma ShutdownFixedKeepsDisplaced(s: Sched, order: seq<ChatId>, disk: Disk, c: ChatId)
    requires Wf(s)
    requires forall d :: d in order <==> d in s.active
    requires forall i, k :: 0 <= i < k < |order| ==> order[i] != order[k]
    requires Cancellable(s.active, c) && s.active[c].requeued
    requires |QueueOf(s, c)| > 0
    ensures var t := PostShutdown(s, order, disk, true).0;
      var loaded := LoadState(SaveStateFixed(disk, t.active, t.queues, true), true);
      && c in loaded.1 && |loaded.1[c]| == |QueueOf(s, c)|
      && loaded.1[c][|loaded.1[c]| - 1] == Strip(Requeued(s.active[c]))
      && loaded.1[c][|loaded.1[c]| - 1].isPaused
  {
    ShutdownRefilesDisplaced(s, order, disk, true, c);
  }
}
