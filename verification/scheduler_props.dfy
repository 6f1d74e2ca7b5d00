/** Properties of the download scheduler that span several handler calls. */
module SchedulerProps {
  import opened Wrappers
  import opened DownloadManager
  import Seqs

  /** The queue as the jobs will look once admitted. */
  function StartedAll(q: seq<Job>): (r: seq<Job>)
    ensures |r| == |q|
    ensures forall i :: 0 <= i < |q| ==> r[i] == Started(q[i])
  {
    if |q| == 0 then [] else [Started(q[0])] + StartedAll(q[1..])
  }

  /** Let the active download of `chat` finish `k` times in a row (each time as a
      plain failure, so neither a requeue nor a shutdown is involved) and collect
      the job admitted after each finish. */
  function Drain(s: Sched, chat: ChatId, k: nat, scan: string -> string): (r: (Sched, seq<Job>))
    decreases k
  {
    if k == 0 || chat !in s.active then (s, [])
    else
      var f := Finish(s, s.active[chat], Failed, scan);
      var rest := Drain(f.s, chat, k - 1, scan);
      ((rest.0), (if chat in f.s.active then [f.s.active[chat]] else []) + rest.1)
  }

  /** FIFO admission: downloads are admitted strictly in queue order, one per
      finished download, and the queue shrinks from the front. */
  lemma {:induction false} AdmissionIsFifo(s: Sched, chat: ChatId, k: nat, scan: string -> string)
    requires Wf(s) && !s.shuttingDown
    requires chat in s.active && !s.active[chat].requeued
    requires k <= |QueueOf(s, chat)|
    ensures Drain(s, chat, k, scan).1 == StartedAll(QueueOf(s, chat)[..k])
    ensures QueueOf(Drain(s, chat, k, scan).0, chat) == QueueOf(s, chat)[k..]
    ensures chat in Drain(s, chat, k, scan).0.active
    decreases k
  {
    var q := QueueOf(s, chat);
    if k > 0 {
      var t := FinishAdmitsNext(s, chat, scan);
      AdmissionIsFifo(t, chat, k - 1, scan);
      DrainStep(s, chat, k, scan, t);
      Seqs.TakeDropTail(q, k);
    }
  }

  /** Once every queued download has been admitted and finished, the chat is idle. */
  lemma DrainEmptiesChat(s: Sched, chat: ChatId, scan: string -> string)
    requires Wf(s) && !s.shuttingDown
    requires chat in s.active && !s.active[chat].requeued
    ensures var d := Drain(s, chat, |QueueOf(s, chat)| + 1, scan).0;
      chat !in d.active && QueueOf(d, chat) == []
  {
    var n := |QueueOf(s, chat)|;
    AdmissionIsFifo(s, chat, n, scan);
    DrainKeeps(s, chat, n, scan);
    DrainSplit(s, chat, n, scan);
    var m := Drain(s, chat, n, scan).0;
    assert QueueOf(m, chat) == [];
    var f := Finish(m, m.active[chat], Failed, scan);
    assert chat !in f.s.active;
  }

  /** Splitting a drain of `k + 1` finishes after the first `k`. */
  lemma {:induction false} DrainSplit(s: Sched, chat: ChatId, k: nat, scan: string -> string)
    ensures var m := Drain(s, chat, k, scan).0;
      Drain(s, chat, k + 1, scan).0 == Drain(m, chat, 1, scan).0
    decreases k
  {
    if k > 0 && chat in s.active {
      var f := Finish(s, s.active[chat], Failed, scan);
      DrainSplit(f.s, chat, k - 1, scan);
      DrainStep(s, chat, k, scan, f.s);
      DrainStep(s, chat, k + 1, scan, f.s);
    } else if k > 0 {
      assert Drain(s, chat, k, scan).0 == s;
    }
  }

  /** A well-formed, running scheduler whose chat has a plain active download. */
  predicate Drainable(s: Sched, chat: ChatId) {
    Wf(s) && !s.shuttingDown && chat in s.active && s.active[chat].chat == chat && !s.active[chat].requeued
  }

  /** Draining keeps the state well formed with a plain active download. */
  lemma {:induction false} DrainKeeps(s: Sched, chat: ChatId, k: nat, scan: string -> string)
    requires Wf(s) && !s.shuttingDown
    requires chat in s.active && !s.active[chat].requeued
    requires k <= |QueueOf(s, chat)|
    ensures Drainable(Drain(s, chat, k, scan).0, chat)
    decreases k
  {
    if k > 0 {
      var t := FinishAdmitsNext(s, chat, scan);
      DrainKeeps(t, chat, k - 1, scan);
      DrainStep(s, chat, k, scan, t);
    }
  }

  /** The first round of a drain is one finish. */
  lemma DrainStep(s: Sched, chat: ChatId, k: nat, scan: string -> string, t: Sched)
    requires k > 0 && chat in s.active && t == Finish(s, s.active[chat], Failed, scan).s
    ensures Drain(s, chat, k, scan).0 == Drain(t, chat, k - 1, scan).0
    ensures Drain(s, chat, k, scan).1 == (if chat in t.active then [t.active[chat]] else []) + Drain(t, chat, k - 1, scan).1
  {
  }

  /** One plain failure of the active download admits the head of the chat's
      queue and leaves the rest of the queue in order. */
  lemma FinishAdmitsNext(s: Sched, chat: ChatId, scan: string -> string) returns (t: Sched)
    requires Wf(s) && !s.shuttingDown
    requires chat in s.active && !s.active[chat].requeued
    requires |QueueOf(s, chat)| > 0
    ensures t == Finish(s, s.active[chat], Failed, scan).s
    ensures Wf(t) && !t.shuttingDown && chat in t.active
    ensures t.active[chat] == Started(QueueOf(s, chat)[0])
    ensures t.active[chat].chat == chat && !t.active[chat].requeued
    ensures QueueOf(t, chat) == QueueOf(s, chat)[1..]
  {
    var q := QueueOf(s, chat);
    var f := Finish(s, s.active[chat], Failed, scan);
    var s1 := s.(active := s.active - {chat});
    assert QueueOf(s1, chat) == q;
    assert f.s == ProcessQueue(s1, chat).s;
    assert Waiting(q[0], chat);
    assert f.s.active[chat] == Started(q[0]);
    assert QueueOf(f.s, chat) == q[1..];
    t := f.s;
  }

  /** No admission while a download is active: confirming a new download never
      replaces the chat's active download nor starts a task for it. */
  lemma AddKeepsActive(s: Sched, chat: ChatId, pending: Option<Source>, path: string)
    requires Wf(s) && chat in s.active
    ensures var r := AddDownload(s, chat, pending, path);
      && chat in r.s.active && r.s.active[chat].source == s.active[chat].source
      && StartTask(chat) !in r.effects
  {
    if pending.Some? {
      var d := DisplacePaused(s, chat);
      assert chat in d.s.active;
      assert forall e :: e in d.effects ==> e.CancelTask?;
    }
  }

  /** The same for a whole season. */
  lemma AddSeasonKeepsActive(s: Sched, chat: ChatId, items: seq<SeasonItem>, messageId: int, batchId: string, path: string)
    requires Wf(s) && chat in s.active
    ensures var r := AddSeason(s, chat, items, messageId, batchId, path);
      && chat in r.s.active && r.s.active[chat].source == s.active[chat].source
      && StartTask(chat) !in r.effects
  {
    if |items| > 0 {
      var d := DisplacePaused(s, chat);
      assert chat in d.s.active;
      assert forall e :: e in d.effects ==> e.CancelTask?;
    }
  }

  /** A season confirmed while the chat has an active download lands, in order,
      at the back of the chat's queue; the user is told how many items the
      pending list held. */
  lemma AddSeasonWhileActiveAppends(s: Sched, chat: ChatId, items: seq<SeasonItem>, messageId: int, batchId: string, path: string)
    requires Wf(s) && chat in s.active && |items| > 0
    ensures var r := AddSeason(s, chat, items, messageId, batchId, path);
      && QueueOf(r.s, chat) == QueueOf(s, chat) + SeasonJobs(items, chat, messageId, batchId, path)
      && Reply(SeasonQueued(|items|)) in r.effects
  {
    var d := DisplacePaused(s, chat);
    assert chat in d.s.active;
    assert QueueOf(d.s, chat) == QueueOf(s, chat);
  }

  /** A season confirmed for an idle chat starts its first linked item at once
      and queues the rest in order. */
  lemma AddSeasonWhileIdleStarts(s: Sched, chat: ChatId, items: seq<SeasonItem>, messageId: int, batchId: string, path: string)
    requires Wf(s) && chat !in s.active && Settled(s, chat) && |items| > 0
    ensures var r := AddSeason(s, chat, items, messageId, batchId, path);
      var jobs := SeasonJobs(items, chat, messageId, batchId, path);
      && (|jobs| > 0 ==> r.s.active == s.active[chat := Started(jobs[0])] && QueueOf(r.s, chat) == jobs[1..])
      && (|jobs| == 0 ==> r.s.active == s.active && QueueOf(r.s, chat) == [])
  {
    var jobs := SeasonJobs(items, chat, messageId, batchId, path);
    assert QueueOf(s, chat) + jobs == jobs;
    if |jobs| > 0 {
      assert Waiting(jobs[0], chat);
    }
  }

  /** A confirmation while a download is truly active lands at the back of the
      queue and reports the new queue length as its position. */
  lemma AddWhileActiveAppends(s: Sched, chat: ChatId, src: Source, path: string)
    requires Wf(s) && chat in s.active && !s.active[chat].isPaused && !s.active[chat].requeued
    ensures var r := AddDownload(s, chat, Some(src), path);
      var q := QueueOf(s, chat) + [NewJob(src, chat, src.originalMessageId, path)];
      && QueueOf(r.s, chat) == q
      && r.s.active == s.active
      && r.effects == [Reply(QueuedAt(|q|)), Persist(r.s.active, r.s.queues)]
  {
  }

  /** A confirmation for an idle chat is admitted straight away. */
  lemma AddWhileIdleStarts(s: Sched, chat: ChatId, src: Source, path: string)
    requires Wf(s) && chat !in s.active && Settled(s, chat)
    ensures var r := AddDownload(s, chat, Some(src), path);
      var j := NewJob(src, chat, src.originalMessageId, path);
      && r.s.active == s.active[chat := Started(j)]
      && chat !in r.s.queues
      && Reply(NextInLine) in r.effects && StartTask(chat) in r.effects
  {
    var j := NewJob(src, chat, src.originalMessageId, path);
    var s1 := s.(queues := s.queues[chat := QueueOf(s, chat) + [j]]);
    assert QueueOf(s1, chat) == [j];
  }

  /** A paused download displaced by a new confirmation is cancelled, and when its
      task unwinds it is filed, paused and without runtime parts, behind the new
      item; the head of the queue is admitted in its place. */
  lemma DisplacedGoesBehind(s: Sched, chat: ChatId, src: Source, path: string, scan: string -> string)
    requires Wf(s) && !s.shuttingDown
    requires chat in s.active && s.active[chat].isPaused && s.active[chat].task == Some(Running)
    ensures var r := AddDownload(s, chat, Some(src), path);
      var p := s.active[chat];
      var n := NewJob(src, chat, src.originalMessageId, path);
      var after := Finish(r.s, r.s.active[chat], Cancelled, scan);
      var q := QueueOf(s, chat) + [n, Requeued(p)];
      && r.effects[0] == CancelTask(chat)
      && r.s.active[chat] == p.(requeued := true)
      && after.s.active[chat] == Started(q[0])
      && QueueOf(after.s, chat) == q[1..]
  {
    var p := s.active[chat];
    var n := NewJob(src, chat, src.originalMessageId, path);
    var r := AddDownload(s, chat, Some(src), path);
    assert QueueOf(r.s, chat) == QueueOf(s, chat) + [n];
    var pr := r.s.active[chat];
    assert Requeued(pr) == Requeued(p);
    var q := QueueOf(s, chat) + [n, Requeued(p)];
    var s1 := r.s.(active := r.s.active - {chat}, queues := r.s.queues[chat := QueueOf(r.s, chat) + [Requeued(pr)]]);
    assert QueueOf(s1, chat) == q;
  }

  /** Pressing the toggle twice restores the download, and each press issues
      exactly one engine call: resume when it was paused, pause otherwise. */
  lemma ToggleTwiceRestores(s: Sched, chat: ChatId)
    requires chat in s.active && s.active[chat].handle.Some?
    ensures var r1 := PauseResume(s, chat);
      var r2 := PauseResume(r1.s, chat);
      && r2.s == s
      && |r1.effects| == 1 && |r2.effects| == 1
      && (s.active[chat].isPaused <==> r1.effects[0] == ResumeEngine(chat))
      && (s.active[chat].isPaused <==> r2.effects[0] == PauseEngine(chat))
  {
  }

  /** Asking to cancel and then declining leaves the download exactly as it was. */
  lemma CancelThenDenyRestores(s: Sched, chat: ChatId)
    requires chat in s.active && !s.active[chat].cancellationPending
    ensures var r1 := CancelRequest(s, chat, "cancel_download");
      var r2 := CancelRequest(r1.s, chat, "cancel_deny");
      r1.s.active[chat].cancellationPending && r2.s == s && r2.effects == []
  {
  }

  /** Asking to cancel and then confirming clears the pending mark and cancels
      the running task, and nothing else. */
  lemma CancelThenConfirm(s: Sched, chat: ChatId)
    requires Wf(s) && chat in s.active && s.active[chat].task == Some(Running)
    ensures var r1 := CancelRequest(s, chat, "cancel_download");
      var r2 := CancelRequest(r1.s, chat, "cancel_confirm");
      && r2.s == SetPending(s, chat, false)
      && r2.effects == [CancelTask(chat)]
  {
  }

  /** Cancel-all: the prompt then the confirmation leaves the chat with no queue,
      its download unmarked and cancelled, and every other chat untouched. */
  lemma CancelAllClearsChat(s: Sched, chat: ChatId)
    requires Wf(s) && chat in s.active && s.active[chat].task == Some(Running)
    ensures var r1 := CancelAll(s, chat, "cancel_all");
      var r2 := CancelAll(r1.s, chat, "cancel_all_confirm");
      && chat !in r2.s.queues
      && !r2.s.active[chat].cancellationPending
      && CancelTask(chat) in r2.effects
      && OthersUnchanged(s, r2.s, chat)
  {
  }

  /** A finish during shutdown leaves both maps untouched. */
  lemma ShutdownFinishKeepsMaps(s: Sched, j: Job, o: Outcome, scan: string -> string)
    requires s.shuttingDown && !j.requeued
    ensures var r := Finish(s, j, o, scan);
      r.s.active == s.active && r.s.queues == s.queues && r.effects == []
  {
  }
}
