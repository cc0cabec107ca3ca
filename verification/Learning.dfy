/** Background reviews: a table of jobs, a scheduler called from any thread, and one worker. */
module Learning {
  import opened Bytes

  const REVIEW_QUEUE_MAX: nat := 16
  const CHAT_LEN: nat := 32

  datatype Job = Job(chat: Bytes, queued: bool, running: bool, rerun: bool)

  const NO_JOB := Job([], false, false, false)

  datatype Result = Scheduled | InvalidArgument | TableFull

  // ----- The history of a run -----

  datatype Event = Accepted(chat: Bytes) | Started(chat: Bytes) | Ended(chat: Bytes)

  function Accepts(log: seq<Event>, chat: Bytes): nat {
    if log == [] then 0
    else Accepts(log[..|log| - 1], chat) + if log[|log| - 1] == Accepted(chat) then 1 else 0
  }

  function Starts(log: seq<Event>, chat: Bytes): nat {
    if log == [] then 0
    else Starts(log[..|log| - 1], chat) + if log[|log| - 1] == Started(chat) then 1 else 0
  }

  /** A request was accepted after the last start of the chat. */
  predicate Waiting(log: seq<Event>, chat: Bytes) {
    log != [] &&
    var last := log[|log| - 1];
    if last == Accepted(chat) then true
    else if last == Started(chat) then false
    else Waiting(log[..|log| - 1], chat)
  }

  lemma Extended(log: seq<Event>, e: Event, chat: Bytes)
    ensures Accepts(log + [e], chat) == Accepts(log, chat) + if e == Accepted(chat) then 1 else 0
    ensures Starts(log + [e], chat) == Starts(log, chat) + if e == Started(chat) then 1 else 0
    ensures Waiting(log + [e], chat) <==> e == Accepted(chat) || (e != Started(chat) && Waiting(log, chat))
  {
    assert (log + [e])[..|log|] == log;
  }

  /** Waiting in plain words: some accepted request has no later start. */
  lemma {:induction false} WaitingMeans(log: seq<Event>, chat: Bytes)
    ensures Waiting(log, chat) <==>
      exists i :: 0 <= i < |log| && log[i] == Accepted(chat) && Started(chat) !in log[i..]
  {
    if log != [] {
      var n := |log| - 1;
      var front := log[..n];
      WaitingMeans(front, chat);
      if log[n] == Accepted(chat) {
        assert log[n..] == [log[n]];
      } else {
        assert forall i :: 0 <= i < n ==> log[i..] == front[i..] + [log[n]];
      }
    }
  }

  /** Every start answers a request of its own, and an accepted request is only answered by a start. */
  ghost predicate Answered(log: seq<Event>) {
    forall chat: Bytes :: Starts(log, chat) + (if Waiting(log, chat) then 1 else 0) <= Accepts(log, chat)
  }

  // ----- The table -----

  /** The slots of the table: distinct chats, coherent flags, at most the worker's job running. */
  ghost predicate Coherent(jobs: seq<Job>, working: Bytes) {
    && |jobs| == REVIEW_QUEUE_MAX
    && (forall i, k :: 0 <= i < k < |jobs| && jobs[i].chat == jobs[k].chat ==> jobs[i].chat == [])
    && (forall i :: 0 <= i < |jobs| ==> Sound(jobs[i], working))
    && (working != [] ==> exists i :: 0 <= i < |jobs| && jobs[i].chat == working)
  }

  ghost predicate Sound(j: Job, working: Bytes) {
    && !(j.queued && j.running)
    && (j.rerun ==> j.running)
    && (if j.chat == [] then !j.queued && !j.running else j.queued || j.running)
    && (j.running <==> j.chat != [] && j.chat == working)
  }

  /** The request is on record: queued, or to be run again after the current review. */
  predicate Recorded(jobs: seq<Job>, chat: Bytes) {
    exists i :: 0 <= i < |jobs| && jobs[i].chat == chat && (jobs[i].queued || jobs[i].rerun)
  }

  /** The table records exactly the waiting requests. */
  ghost predicate Faithful(jobs: seq<Job>, log: seq<Event>) {
    forall chat: Bytes :: chat != [] ==> (Recorded(jobs, chat) <==> Waiting(log, chat))
  }

  /** Replacing the one slot of a chat by one with other flags changes what is recorded for that chat only. */
  lemma SlotChanged(jobs: seq<Job>, i: nat, j: Job, chat: Bytes)
    requires i < |jobs| && (jobs[i].chat == [] || jobs[i].chat == chat) && (j.chat == [] || j.chat == chat)
    requires jobs[i].chat == [] ==> !jobs[i].queued && !jobs[i].rerun
    requires j.chat == [] ==> !j.queued && !j.rerun
    ensures forall other: Bytes :: other != [] && other != chat ==>
      (Recorded(jobs[i := j], other) <==> Recorded(jobs, other))
    ensures (forall k :: 0 <= k < |jobs| && k != i ==> jobs[k].chat != chat) && chat != [] ==>
      (Recorded(jobs[i := j], chat) <==> j.chat == chat && (j.queued || j.rerun))
  {
    var after := jobs[i := j];
    forall other: Bytes | other != [] && other != chat
      ensures Recorded(after, other) <==> Recorded(jobs, other)
    {
      if Recorded(jobs, other) {
        var k :| 0 <= k < |jobs| && jobs[k].chat == other && (jobs[k].queued || jobs[k].rerun);
        assert after[k] == jobs[k];
      }
      if Recorded(after, other) {
        var k :| 0 <= k < |jobs| && after[k].chat == other && (after[k].queued || after[k].rerun);
        assert after[k] == jobs[k];
      }
    }
    if j.chat == chat && (j.queued || j.rerun) {
      assert after[i] == j;
    }
  }

  class Reviews {
    const jobs: array<Job>
    var working: Bytes
    ghost var log: seq<Event>

    ghost predicate Valid()
      reads this, jobs
    {
      jobs.Length == REVIEW_QUEUE_MAX &&
      Coherent(jobs[..], working) && Faithful(jobs[..], log) && Answered(log)
    }

    constructor ()
      ensures Valid() && fresh(jobs) && jobs.Length == 16 && working == [] && log == []
    {
      jobs := new Job[REVIEW_QUEUE_MAX](_ => NO_JOB);
      working := [];
      log := [];
    }

    /** find_review_job_locked without creating: the slot of the chat, or the first free one. */
    method FindJob(chat: Bytes) returns (found: bool, slot: Option<nat>)
      requires chat != [] && jobs.Length == REVIEW_QUEUE_MAX
      ensures found ==> slot.Some? && slot.value < jobs.Length && jobs[slot.value].chat == chat
      ensures !found ==> forall i :: 0 <= i < jobs.Length ==> jobs[i].chat != chat
      ensures !found && slot.Some? ==> slot.value < jobs.Length && jobs[slot.value].chat == []
      ensures !found && slot.None? ==> forall i :: 0 <= i < jobs.Length ==> jobs[i].chat != []
    {
      slot := None;
      for i := 0 to jobs.Length
        invariant forall k :: 0 <= k < i ==> jobs[k].chat != chat
        invariant slot.Some? ==> slot.value < jobs.Length && jobs[slot.value].chat == []
        invariant slot.None? ==> forall k :: 0 <= k < i ==> jobs[k].chat != []
      {
        if jobs[i].chat == chat {
          return true, Some(i);
        }
        if slot.None? && jobs[i].chat == [] {
          slot := Some(i);
        }
      }
      found := false;
    }

    /** learning_review_schedule: an accepted request is recorded at once, or the table is full. */
    method Schedule(chat: Bytes) returns (r: Result)
      requires Valid() && |chat| < CHAT_LEN
      modifies this`log, jobs
      ensures Valid()
      ensures r.InvalidArgument? <==> chat == []
      ensures r.TableFull? <==>
        chat != [] && forall i :: 0 <= i < jobs.Length ==> old(jobs[i].chat) != [] && old(jobs[i].chat) != chat
      ensures log == if r.Scheduled? then old(log) + [Accepted(chat)] else old(log)
      ensures !r.Scheduled? ==> jobs[..] == old(jobs[..])
    {
      if chat == [] {
        return InvalidArgument;
      }
      var found, slot := FindJob(chat);
      if slot.None? {
        return TableFull;
      }
      ghost var before := jobs[..];
      var i := slot.value;
      if !found {
        jobs[i] := Job(chat, false, false, false);
      }
      if jobs[i].running {
        jobs[i] := jobs[i].(rerun := true);
      } else {
        jobs[i] := jobs[i].(queued := true);
      }
      assert jobs[..] == before[i := jobs[i]];
      Step(before, i, jobs[i], working, log, Accepted(chat), working);
      log := log + [Accepted(chat)];
      r := Scheduled;
    }

    /** The worker takes the first queued job; with none queued it goes on waiting. */
    method Pick() returns (picked: bool)
      requires Valid() && working == []
      modifies this, jobs
      ensures Valid()
      ensures picked <==> exists i :: 0 <= i < jobs.Length && old(jobs[i].queued)
      ensures picked ==> exists i :: (
        && 0 <= i < jobs.Length && old(jobs[i].queued) && working == old(jobs[i].chat)
        && forall k :: 0 <= k < i ==> !old(jobs[k].queued))
      ensures if picked then working != [] && log == old(log) + [Started(working)] else log == old(log) && working == []
    {
      for i := 0 to jobs.Length
        invariant forall k :: 0 <= k < i ==> !jobs[k].queued
      {
        if jobs[i].queued {
          ghost var before := jobs[..];
          ghost var j := jobs[i].(queued := false, running := true);
          assert Sound(before[i], []);
          jobs[i] := jobs[i].(queued := false);
          jobs[i] := jobs[i].(running := true);
          assert jobs[..] == before[i := j];
          Step(before, i, j, [], log, Started(j.chat), j.chat);
          working := jobs[i].chat;
          log := log + [Started(working)];
          return true;
        }
      }
      picked := false;
    }

    /** The end of a review: the job is queued again when it was asked for meanwhile, else its slot is freed. */
    method Finish()
      requires Valid() && working != []
      modifies this, jobs
      ensures Valid() && working == [] && log == old(log) + [Ended(old(working))]
      ensures Waiting(log, old(working)) <==>
        exists i :: 0 <= i < jobs.Length && jobs[i].chat == old(working) && jobs[i].queued
    {
      var found, slot := FindJob(working);
      ghost var before := jobs[..];
      if found {
        var i := slot.value;
        assert Sound(before[i], working);
        if jobs[i].rerun {
          jobs[i] := jobs[i].(rerun := false, queued := true);
        } else {
          jobs[i] := jobs[i].(chat := [], queued := false);
        }
        jobs[i] := jobs[i].(running := false);
        assert jobs[..] == before[i := jobs[i]];
        Step(before, i, jobs[i], working, log, Ended(working), []);
      }
      log := log + [Ended(working)];
      working := [];
    }
  }

  /** One critical section changes one slot, and keeps everything. */
  lemma Step(jobs: seq<Job>, i: nat, j: Job, working: Bytes, log: seq<Event>, e: Event, working': Bytes)
    requires Coherent(jobs, working) && Faithful(jobs, log) && Answered(log) && i < |jobs|
    requires e.chat != [] && (jobs[i].chat == [] || jobs[i].chat == e.chat) && (j.chat == [] || j.chat == e.chat)
    requires forall k :: 0 <= k < |jobs| && k != i ==> jobs[k].chat != e.chat
    requires Sound(j, working')
    requires working' == working || (working == [] && working' == e.chat) || (working == e.chat && working' == [])
    requires working' == e.chat || j.queued || j.rerun ==> j.chat == e.chat
    requires match e
      case Accepted(_) => j.chat == e.chat && (j.queued || j.rerun)
      case Started(chat) => jobs[i].chat == chat && jobs[i].queued && !j.queued && !j.rerun
      case Ended(_) => jobs[i].chat == e.chat && (j.queued || j.rerun <==> jobs[i].queued || jobs[i].rerun)
    ensures Coherent(jobs[i := j], working') && Faithful(jobs[i := j], log + [e]) && Answered(log + [e])
  {
    var after := jobs[i := j];
    SlotChanged(jobs, i, j, e.chat);
    assert Sound(jobs[i], working);
    forall chat: Bytes
      ensures chat != [] ==> (Recorded(after, chat) <==> Waiting(log + [e], chat))
      ensures Starts(log + [e], chat) + (if Waiting(log + [e], chat) then 1 else 0) <= Accepts(log + [e], chat)
    {
      Extended(log, e, chat);
      assert chat != [] ==> (Recorded(jobs, chat) <==> Waiting(log, chat));
    }
    forall k | 0 <= k < |after| ensures Sound(after[k], working') {
      assert Sound(jobs[k], working);
    }
    if working' != [] {
      if working' == e.chat {
        assert after[i].chat == working';
      } else {
        var k :| 0 <= k < |jobs| && jobs[k].chat == working;
        assert after[k] == jobs[k];
      }
    }
  }
}
