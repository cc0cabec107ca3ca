/** The launchers: one dispatcher pass at a time, other threads acting between any two store calls. */
module Dispatch {
  import opened Bytes
  import opened Dependencies
  import opened Scheduler

  /** Who else uses the store: nobody, workers that succeed, or anyone. */
  datatype Company = Alone | Loyal | Anyone

  /** What a launch attempt counted: all running tasks, then the coordinator's in the snapshot, then the chat's. */
  datatype Seen = Seen(counted: seq<Task>, record: seq<Task>, asked: seq<Task>)

  /** No room for one more task of the coordinator. */
  predicate Full(seen: Seen, c: nat, chat: Bytes, l: Limits) {
    || Count(seen.counted, All, Running) >= l.global
    || Count(seen.record, Of(c), Running) >= l.perCoordinator
    || (chat != [] && Count(seen.asked, Under(chat), Running) >= l.perParent)
  }

  /** The states of a launch attempt, in order. */
  ghost predicate InOrder(start: seq<Task>, seen: Seen, end: seq<Task>) {
    Drifts(start, seen.counted) && Drifts(seen.counted, seen.record) &&
    Drifts(seen.record, seen.asked) && Drifts(seen.asked, end)
  }

  /** No task that was waiting when something was counted has gone on since. */
  predicate CalmSince(seen: Seen, now: seq<Task>) {
    Calm(seen.counted, now) && Calm(seen.record, now) && Calm(seen.asked, now)
  }

  /** A claim made behind counts with room meets room, unless a waiting task has gone on since. */
  lemma ClaimMeetsRoom(start: seq<Task>, seen: Seen, mid: seq<Task>, c: nat, chat: Bytes, l: Limits)
    requires InOrder(start, seen, mid) && CalmSince(seen, mid) && !Full(seen, c, chat, l)
    ensures Room(mid, c, chat, l)
  {
    DriftsIsTransitive(seen.record, seen.asked, mid);
    DriftsIsTransitive(seen.counted, seen.record, mid);
    CalmCount(seen.counted, mid, All);
    CalmCount(seen.record, mid, Of(c));
    CalmCount(seen.asked, mid, Under(chat));
  }

  /** The task waits in the coordinator and nothing but a cap keeps it from being started. */
  predicate Startable(tasks: seq<Task>, c: nat, i: nat) {
    i < |tasks| && tasks[i].coordinator == c && tasks[i].status.Queued? && Ready(tasks, i)
  }

  /** The task that is started: startable, of a kind that parses, and the first one that was not given up. */
  ghost predicate FirstStarted(record: seq<Task>, now: seq<Task>, c: nat, which: nat) {
    && |record| == |now| && which < |now| && now[which].kindValid && Startable(now, c, which)
    && Settled(record, now, c, which)
  }

  /** The first n tasks that could start when the snapshot was taken have been given up. */
  ghost predicate Settled(record: seq<Task>, now: seq<Task>, c: nat, n: nat)
    requires |record| == |now|
  {
    forall i: nat :: i < n && Startable(record, c, i) ==> now[i].status.Failed?
  }

  /** Running tasks that do not wait get done, and nothing else happens. */
  predicate Loyally(a: seq<Task>, b: seq<Task>) {
    |a| == |b| && forall i :: 0 <= i < |a| ==>
      b[i] == a[i] || (a[i].status.Running? && a[i].hold == FREE && b[i] == a[i].(status := Done))
  }

  /** delegate_task_store_fail on a record. */
  function GivenUp(t: Task): Task {
    t.(status := Failed, hold := Hold(false, true))
  }

  /** All tasks of the coordinator are in that chat. */
  predicate InChat(tasks: seq<Task>, c: nat, chat: Bytes) {
    forall i :: 0 <= i < |tasks| && tasks[i].coordinator == c ==> tasks[i].chat == chat
  }

  // ----- What a call adds to the run -----

  /** Without anyone else, or with workers that succeed, nothing but claims makes a task count as running. */
  ghost predicate Adds(before: seq<seq<Task>>, after: seq<seq<Task>>, company: Company) {
    before <= after && before != [] && (company != Anyone ==> OnlyClaims(after, |before|))
  }

  /** From a to b no waiting task has gone on, unless one did in the states that have been added. */
  ghost predicate Calmly(before: seq<seq<Task>>, after: seq<seq<Task>>, a: seq<Task>, b: seq<Task>, company: Company) {
    Adds(before, after, company) && (OnlyClaims(after, |before|) ==> Calm(a, b))
  }

  /** And the added states are within the caps. */
  ghost predicate Quietly(before: seq<seq<Task>>, after: seq<seq<Task>>, a: seq<Task>, b: seq<Task>, company: Company,
                          l: Limits)
  {
    Calmly(before, after, a, b, company) && KeepsCaps(before, after, l)
  }

  lemma QuietlySelf(run: seq<seq<Task>>, a: seq<Task>, company: Company, l: Limits)
    requires run != []
    ensures Quietly(run, run, a, a, company, l)
  {
    KeepsCapsSelf(run, l);
  }

  lemma AddsIsTransitive(x: seq<seq<Task>>, y: seq<seq<Task>>, z: seq<seq<Task>>, company: Company)
    requires Adds(x, y, company) && Adds(y, z, company)
    ensures Adds(x, z, company)
  {
    hide OnlyClaims;
    OnlyClaimsParts(x, y, z);
  }

  lemma CalmlyIsTransitive(x: seq<seq<Task>>, y: seq<seq<Task>>, z: seq<seq<Task>>, a: seq<Task>, b: seq<Task>,
                           c: seq<Task>, company: Company)
    requires Calmly(x, y, a, b, company) && Calmly(y, z, b, c, company)
    ensures Calmly(x, z, a, c, company)
  {
    hide OnlyClaims;
    OnlyClaimsParts(x, y, z);
    assert Calm(a, b) && Calm(b, c) ==> Calm(a, c);
  }

  lemma QuietlyIsTransitive(x: seq<seq<Task>>, y: seq<seq<Task>>, z: seq<seq<Task>>, a: seq<Task>, b: seq<Task>,
                            c: seq<Task>, company: Company, l: Limits)
    requires Quietly(x, y, a, b, company, l) && Quietly(y, z, b, c, company, l)
    ensures Quietly(x, z, a, c, company, l)
  {
    hide KeepsCaps, Calmly;
    CalmlyIsTransitive(x, y, z, a, b, c, company);
    KeepsCapsIsTransitive(x, y, z, l);
  }

  /** A step between claims makes a task count as running exactly when a waiting task goes on. */
  lemma DriftRaises(a: seq<Task>, b: seq<Task>, l: Limits)
    requires Drifts(a, b)
    ensures ClaimsInRoom(a, b, l) && (RaisesByClaim(a, b) <==> Calm(a, b))
  {
    hide Room;
    assert forall i :: 0 <= i < |a| ==> TaskDrifts(a[i], b[i]);
    assert forall i: nat :: Raises(a, b, i) ==> !Claims(a, i);
    assert forall i :: 0 <= i < |a| ==>
      (Raises(a, b, i) <==> Counts(b[i], All, Running) && !Counts(a[i], All, Running));
  }

  lemma ClaimRaises(a: seq<Task>, i: nat, l: Limits)
    requires i < |a| && a[i].status.Queued?
    ensures var b := a[i := a[i].(status := Running)];
      RaisesByClaim(a, b) && (Room(a, a[i].coordinator, a[i].chat, l) ==> ClaimsInRoom(a, b, l))
  {
    hide Room;
  }

  /** A claim whose worker does not start. */
  lemma ClaimGivenUp(a: seq<Task>, i: nat, b: seq<Task>)
    requires i < |a| && a[i].status.Queued? && Drifts(a[i := a[i].(status := Running)], b) && b[i].status.Failed?
    ensures Drifts(a, b) && (Calm(a[i := a[i].(status := Running)], b) ==> Calm(a, b))
  {
    var m := a[i := a[i].(status := Running)];
    assert forall k :: 0 <= k < |m| ==> TaskDrifts(m[k], b[k]);
  }

  class TaskStore {
    var tasks: seq<Task>
    const limits: Limits

    /** The states of the store so far, and the tasks whose workers have been started. */
    ghost var Run: seq<seq<Task>>
    ghost var Started: seq<nat>

    ghost predicate Valid()
      reads this
    {
      GoodLimits(limits) && Run != [] && IsRun(Run) && Run[|Run| - 1] == tasks && Invariant(tasks)
    }

    /** The limits as the environment sets them. */
    constructor (global: int, perCoordinator: int, perParent: int)
      ensures Valid() && tasks == [] && Run == [[]] && Started == []
      ensures limits.global == (if global <= 0 then 1 else if global > 128 then 128 else global)
      ensures limits.perCoordinator ==
        (if perCoordinator <= 0 then 1 else if perCoordinator > 16 then 16 else perCoordinator)
      ensures limits.perParent == (if perParent <= 0 then 1 else if perParent > 128 then 128 else perParent)
    {
      tasks, Run, Started := [], [[]], [];
      limits := Limits(Clamped(global, TASK_STORE_MAX), Clamped(perCoordinator, COORDINATOR_AGENTS_MAX),
                       Clamped(perParent, TASK_STORE_MAX));
    }

    /** The state after a store operation becomes part of the run. */
    ghost method Record()
      requires GoodLimits(limits) && IsRun(Run) && Invariant(Run[|Run| - 1]) && Step(Run[|Run| - 1], tasks)
      modifies this`Run
      ensures Valid() && Run == old(Run) + [tasks]
      ensures OnlyClaims(Run, |old(Run)|) <==> RaisesByClaim(old(Run[|Run| - 1]), tasks)
      ensures ClaimsInRoom(old(Run[|Run| - 1]), tasks, limits) ==> KeepsCaps(old(Run), Run, limits)
    {
      hide RaisesByClaim, ClaimsInRoom, OnlyClaims, KeepsCaps, Step;
      StepKeepsInvariant(Run[|Run| - 1], tasks);
      RunGrows(Run, tasks);
      OneStepClaims(Run, tasks);
      if ClaimsInRoom(Run[|Run| - 1], tasks, limits) {
        OneStepKeepsCaps(Run, tasks, limits);
      }
      Run := Run + [tasks];
    }

    /** The same for a step between claims. */
    ghost method RecordDrift(i: nat, company: Company)
      requires GoodLimits(limits) && Run != [] && IsRun(Run) && Invariant(Run[|Run| - 1])
      requires Moves(Run[|Run| - 1], tasks, i) && Drifts(Run[|Run| - 1], tasks)
      requires company != Anyone ==> Calm(Run[|Run| - 1], tasks)
      modifies this`Run
      ensures Valid() && Quietly(old(Run), Run, old(Run[|Run| - 1]), tasks, company, limits)
    {
      hide Moves, Drifts, Calm, RaisesByClaim, ClaimsInRoom, OnlyClaims, KeepsCaps, Invariant, IsRun;
      DriftRaises(Run[|Run| - 1], tasks, limits);
      Record();
    }

    /** Planned tasks of a coordinator, all queued. */
    method AddBatch(c: nat, chat: Bytes, batch: seq<Task>)
      requires Valid() && InChat(tasks, c, chat)
      requires forall t <- batch :: t.coordinator == c && t.chat == chat && t.status.Queued?
      modifies this
      ensures Valid() && tasks == old(tasks) + batch && Started == old(Started)
      ensures KeepsCaps(old(Run), Run, limits) && OnlyClaims(Run, |old(Run)|)
    {
      ghost var before := tasks;
      tasks := tasks + batch;
      assert forall i :: |before| <= i < |tasks| ==> tasks[i] in batch;
      assert before == tasks[..|before|] && Plans(before, tasks);
      assert forall i: nat :: !Raises(before, tasks, i);
      hide Room, KeepsCaps, OnlyClaims;
      Record();
    }

    /** A single task: its record is created as running, without a look at the counts, and its worker is started. */
    method StartSingle(kindValid: bool, company: Company, reliable: bool) returns (started: bool)
      requires Valid()
      modifies this
      ensures Valid() && |old(Run)| < |Run| && old(Run) <= Run && |tasks| == |old(tasks)| + 1
      ensures Run[|old(Run)|] == old(tasks) + [Single(kindValid)] && Drifts(Run[|old(Run)|], tasks)
      ensures Capped(old(tasks), limits) ==>
        (Capped(Run[|old(Run)|], limits) <==> Room(old(tasks), NO_COORDINATOR, [], limits))
      ensures if started then Started == old(Started) + [|old(tasks)|] else tasks[|old(tasks)|].status.Failed?
      ensures reliable ==> started
    {
      ghost var before := tasks;
      tasks := tasks + [Single(kindValid)];
      ghost var created := tasks;
      assert Starts(before, tasks);
      Record();
      DriftsSelf(tasks);
      hide Capped, Room, OnlyClaims, KeepsCaps, Invariant, IsRun;
      if Capped(before, limits) {
        StartCaps(before, tasks, limits);
      }
      started := StartWorker(|tasks| - 1, company, reliable);
      DriftsLength(created, tasks);
    }

    /** delegate_task_store_claim_queued_task: the one step from queued to running. */
    method ClaimQueued(i: nat) returns (claimed: bool)
      requires i < |tasks|
      modifies this`tasks
      ensures claimed == old(tasks[i].status.Queued?)
      ensures tasks == if claimed then old(tasks)[i := old(tasks[i]).(status := Running)] else old(tasks)
    {
      claimed := tasks[i].status.Queued?;
      if claimed {
        tasks := tasks[i := tasks[i].(status := Running)];
      }
    }

    /** delegate_task_store_fail. */
    method Fail(i: nat)
      requires i < |tasks|
      modifies this`tasks
      ensures tasks == old(tasks)[i := GivenUp(old(tasks[i]))]
    {
      tasks := tasks[i := tasks[i].(status := Failed, hold := Hold(false, true))];
    }

    /** delegate_task_store_complete: a task that still reports a blocker fails. */
    method Complete(i: nat)
      requires i < |tasks|
      modifies this`tasks
      ensures tasks == old(tasks)[i := if old(tasks[i]).hold.blocker then GivenUp(old(tasks[i]))
                                       else old(tasks[i]).(status := Done, hold := FREE)]
    {
      var status := if tasks[i].hold.blocker then Failed else Done;
      tasks := tasks[i := tasks[i].(status := status, hold := tasks[i].hold.(pending := false))];
    }

    /** A request is pending, a blocker is reported, or either is over. */
    method SetHold(i: nat, hold: Hold)
      requires i < |tasks|
      modifies this`tasks
      ensures tasks == old(tasks)[i := old(tasks[i]).(hold := hold)]
    {
      tasks := tasks[i := tasks[i].(hold := hold)];
    }

    /** The end of a background worker. */
    method FinishWorker(i: nat, ok: bool)
      requires Valid() && i < |tasks| && tasks[i].status.Running?
      modifies this
      ensures Valid() && Quietly(old(Run), Run, old(tasks), tasks, Loyal, limits)
      ensures Started == old(Started) && Drifts(old(tasks), tasks)
      ensures tasks[i].status.Done? <==> ok && !old(tasks[i]).hold.blocker
      ensures ok && old(tasks[i]).hold == FREE ==> tasks == old(tasks)[i := old(tasks[i]).(status := Done)]
      ensures forall k :: 0 <= k < |tasks| && k != i ==> tasks[k] == old(tasks[k])
    {
      ghost var before := tasks;
      if ok {
        Complete(i);
      } else {
        Fail(i);
      }
      assert Moves(before, tasks, i);
      RecordDrift(i, Loyal);
    }

    /** Other threads between two store calls: workers finish, wait and go on, queued tasks are given up. Nothing
        happens to the idle tasks, whose workers have not been started. */
    method Others(company: Company, idle: set<nat>)
      requires Valid()
      modifies this
      ensures Valid() && Quietly(old(Run), Run, old(tasks), tasks, company, limits)
      ensures Started == old(Started) && Drifts(old(tasks), tasks)
      ensures forall i <- idle :: i < |tasks| ==> tasks[i] == old(tasks)[i]
      ensures company.Alone? ==> tasks == old(tasks)
      ensures company != Anyone ==> Loyally(old(tasks), tasks)
    {
      QuietlySelf(Run, tasks, company, limits);
      if company.Alone? {
        return;
      }
      var steps: nat := *;
      while steps > 0
        invariant Valid() && Quietly(old(Run), Run, old(tasks), tasks, company, limits)
        invariant Started == old(Started) && Drifts(old(tasks), tasks)
        invariant forall i <- idle :: i < |tasks| ==> tasks[i] == old(tasks)[i]
        invariant company != Anyone ==> Loyally(old(tasks), tasks)
      {
        hide Invariant, IsRun, Quietly;
        ghost var before, run := tasks, Run;
        var i: nat := *;
        if i < |tasks| && i !in idle {
          OtherThread(company, i);
          QuietlyIsTransitive(old(Run), run, Run, old(tasks), before, tasks, company, limits);
        }
        DriftsIsTransitive(old(tasks), before, tasks);
        steps := steps - 1;
      }
    }

    /** One step of a worker, or a queued task that is given up. */
    method OtherThread(company: Company, i: nat)
      requires Valid() && i < |tasks|
      modifies this
      ensures Valid() && Quietly(old(Run), Run, old(tasks), tasks, company, limits)
      ensures Started == old(Started) && Drifts(old(tasks), tasks)
      ensures forall k :: 0 <= k < |tasks| && k != i ==> tasks[k] == old(tasks)[k]
      ensures company != Anyone ==> Loyally(old(tasks), tasks)
    {
      hide Invariant, IsRun, KeepsCaps, OnlyClaims;
      QuietlySelf(Run, tasks, company, limits);
      ghost var before := tasks;
      if company != Anyone {
        if tasks[i].status.Running? && tasks[i].hold == FREE {
          FinishWorker(i, true);
        }
        return;
      }
      var finished: bool, ok: bool, hold: Hold := *, *, *;
      if tasks[i].status.Queued? {
        Fail(i);
        assert Moves(before, tasks, i);
        RecordDrift(i, company);
      } else if tasks[i].status.Running? && finished {
        FinishWorker(i, ok);
      } else if tasks[i].status.Running? {
        SetHold(i, hold);
        assert Moves(before, tasks, i);
        RecordDrift(i, company);
      }
    }

    /** The running tasks that do not wait. */
    method RunningCount(scope: Scope) returns (n: nat)
      ensures n == Count(tasks, scope, Running)
    {
      n := 0;
      for i := 0 to |tasks|
        invariant n == Count(tasks[..i], scope, Running)
      {
        assert tasks[..i + 1][..i] == tasks[..i];
        if InScope(tasks[i], scope) && tasks[i].status.Running? && !tasks[i].hold.pending && !tasks[i].hold.blocker {
          n := n + 1;
        }
      }
      assert tasks[..|tasks|] == tasks;
    }

    /** Starting the worker of a task that runs already; an unreliable system may refuse, and the task is given up. */
    method StartWorker(i: nat, company: Company, reliable: bool) returns (started: bool)
      requires Valid() && i < |tasks| && tasks[i].status.Running?
      modifies this
      ensures Valid() && Quietly(old(Run), Run, old(tasks), tasks, company, limits) && (reliable ==> started)
      ensures Started == if started then old(Started) + [i] else old(Started)
      ensures if started then tasks == old(tasks) && Run == old(Run)
              else Drifts(old(tasks), tasks) && tasks[i].status.Failed?
    {
      QuietlySelf(Run, tasks, company, limits);
      started := true;
      if !reliable {
        started := *;
      }
      if started {
        Started := Started + [i];
      } else {
        hide Invariant, IsRun, Quietly;
        Others(company, {i});
        ghost var before, run := tasks, Run;
        Fail(i);
        assert Moves(before, tasks, i);
        RecordDrift(i, company);
        QuietlyIsTransitive(old(Run), run, Run, old(tasks), before, tasks, company, limits);
        DriftsIsTransitive(old(tasks), before, tasks);
      }
    }

    /** From the kind check to the started worker, for one task that passed all gates. */
    method TryStart(i: nat, company: Company, reliable: bool) returns (launched: bool, ghost mid: seq<Task>)
      requires Valid() && i < |tasks| && (tasks[i].status.Queued? || tasks[i].status.Failed?)
      requires tasks[i].status.Queued? ==> Ready(tasks, i)
      modifies this
      ensures Valid() && Calmly(old(Run), Run, old(tasks), mid, company) && Drifts(old(tasks), mid)
      ensures Room(old(tasks), old(tasks[i]).coordinator, old(tasks[i]).chat, limits) ==>
        KeepsCaps(old(Run), Run, limits)
      ensures Started == if launched then old(Started) + [i] else old(Started)
      ensures Tried(mid, tasks, i, launched)
      ensures company != Anyone && reliable && old(tasks[i]).status.Queued? ==>
        TriedLoyally(old(tasks), mid, i, launched)
    {
      hide Invariant, IsRun, Calm, KeepsCaps, OnlyClaims, Room;
      ghost var start := tasks;
      Others(company, {});
      ghost var before, run := tasks, Run;
      StillReady(start, before, i);
      if !tasks[i].kindValid {
        GiveUp(i);
        DriftsIsTransitive(start, before, tasks);
        QuietlyIsTransitive(old(Run), run, Run, start, before, tasks, company, limits);
        return false, tasks;
      }
      launched := ClaimAndStart(i, company, reliable);
      mid := if launched then before else tasks;
      DriftsIsTransitive(start, before, mid);
      CalmlyIsTransitive(old(Run), run, Run, start, before, mid, company);
      if Room(start, start[i].coordinator, start[i].chat, limits) {
        RoomStays(old(Run), run, Run, start, before, start[i].coordinator, start[i].chat, company, limits);
      }
    }

    method GiveUp(i: nat)
      requires Valid() && i < |tasks| && (tasks[i].status.Queued? || tasks[i].status.Failed?)
      modifies this
      ensures Valid() && Quietly(old(Run), Run, old(tasks), tasks, Loyal, limits)
      ensures Started == old(Started) && Drifts(old(tasks), tasks)
      ensures tasks == old(tasks)[i := GivenUp(old(tasks[i]))]
    {
      ghost var before := tasks;
      Fail(i);
      assert Moves(before, tasks, i);
      RecordDrift(i, Loyal);
    }

    /** The claim, which only a task that is still queued passes, and the start of its worker. */
    method ClaimAndStart(i: nat, company: Company, reliable: bool) returns (launched: bool)
      requires Valid() && i < |tasks| && (tasks[i].status.Queued? || tasks[i].status.Failed?) && tasks[i].kindValid
      requires tasks[i].status.Queued? ==> Ready(tasks, i)
      modifies this
      ensures Valid()
      ensures Calmly(old(Run), Run, old(tasks), if launched then old(tasks) else tasks, company)
      ensures Room(old(tasks), old(tasks[i]).coordinator, old(tasks[i]).chat, limits) ==>
        KeepsCaps(old(Run), Run, limits)
      ensures Started == if launched then old(Started) + [i] else old(Started)
      ensures if launched then Tried(old(tasks), tasks, i, true)
              else Drifts(old(tasks), tasks) && Tried(tasks, tasks, i, false)
      ensures reliable && old(tasks[i]).status.Queued? ==> launched
    {
      hide Invariant, IsRun, Ready, Calm, KeepsCaps, OnlyClaims, Room, RaisesByClaim, ClaimsInRoom;
      QuietlySelf(Run, tasks, company, limits);
      ghost var before, run := tasks, Run;
      var claimed := ClaimQueued(i);
      if !claimed {
        return false;
      }
      assert Moves(before, tasks, i);
      ghost var running := tasks;
      ClaimRaises(before, i, limits);
      Record();
      ghost var with := Run;
      launched := StartWorker(i, company, reliable);
      OnlyClaimsParts(run, with, Run);
      if launched {
        CalmSelf(before);
      } else {
        ClaimGivenUp(before, i, tasks);
      }
      if Room(before, before[i].coordinator, before[i].chat, limits) {
        KeepsCapsIsTransitive(run, with, Run, limits);
      }
    }

    /** The loop over the agents of a snapshot, up to the first one that starts. */
    method ScanAgents(record: seq<Task>, runningNow: nat, c: nat, ghost chat: Bytes, company: Company, reliable: bool)
      returns (launched: bool, ghost mid: seq<Task>, ghost which: nat)
      requires Valid() && Drifts(record, tasks)
      modifies this
      ensures Valid() && Calmly(old(Run), Run, old(tasks), mid, company)
      ensures Drifts(old(tasks), mid) && Drifts(record, mid)
      ensures InChat(old(tasks), c, chat) && (runningNow < limits.global ==> Room(old(tasks), c, chat, limits)) ==>
        KeepsCaps(old(Run), Run, limits)
      ensures Started == if launched then old(Started) + [which] else old(Started)
      ensures if launched
        then runningNow < limits.global && FirstStarted(record, mid, c, which) && Tried(mid, tasks, which, true)
        else tasks == mid && (runningNow >= limits.global || Settled(record, tasks, c, |record|))
      ensures company != Anyone && reliable && Untried(record, old(tasks), 0) ==> Smoothly(old(tasks), mid)
    {
      hide Satisfied, Invariant, IsRun, Count, Ready, TaskDrifts, Calm, KeepsCaps, OnlyClaims, Room, Untried, Smoothly;
      launched, mid, which := false, tasks, 0;
      ghost var loyal := company != Anyone && reliable && Untried(record, tasks, 0);
      ghost var caps := InChat(tasks, c, chat) && runningNow < limits.global && Room(tasks, c, chat, limits);
      DriftsSelf(tasks);
      SmoothlySelf(tasks);
      QuietlySelf(Run, tasks, company, limits);
      var agents := RecordOf(record, c);
      for i := 0 to |record|
        invariant Valid() && Calmly(old(Run), Run, old(tasks), tasks, company) && Started == old(Started)
        invariant caps || runningNow >= limits.global ==> KeepsCaps(old(Run), Run, limits)
        invariant Drifts(record, tasks) && Drifts(old(tasks), tasks) && tasks == mid
        invariant Settled(record, tasks, c, i)
        invariant loyal ==> Untried(record, tasks, i) && Smoothly(old(tasks), tasks)
      {
        DriftsSelf(tasks);
        UntriedNext(record, tasks, i);
        if record[i].coordinator != c || !record[i].status.Queued? {
          SettledNext(record, tasks, tasks, c, i);
          continue;
        }
        var satisfied := DependenciesSatisfied(agents, record[i].dependsOn);
        assert satisfied == Ready(record, i) by { ReadyIs(record, i, agents); }
        if !satisfied {
          SettledNext(record, tasks, tasks, c, i);
          continue;
        }
        if runningNow >= limits.global {
          return;
        }
        ghost var before, run := tasks, Run;
        StillReady(record, tasks, i);
        launched, mid := TryStart(i, company, reliable);
        DriftsIsTransitive(old(tasks), before, mid);
        DriftsIsTransitive(record, before, mid);
        CalmlyIsTransitive(old(Run), run, Run, old(tasks), before, mid, company);
        if caps {
          ChatOf(old(tasks), before, c, chat, i);
          RoomStays(old(Run), run, Run, old(tasks), before, c, chat, company, limits);
        }
        if loyal {
          TriedSmoothly(record, before, mid, i, launched);
          SmoothlyIsTransitive(old(tasks), before, mid);
        }
        if launched {
          StillReady(record, mid, i);
          SettledStays(record, before, mid, c, i);
          which := i;
          return;
        }
        SettledNext(record, before, mid, c, i);
      }
    }

    method RecordOf(record: seq<Task>, c: nat) returns (agents: seq<Agent>)
      ensures agents == Scheduler.Record(record, c)
    {
      agents := [];
      for i := 0 to |record|
        invariant agents == Scheduler.Record(record[..i], c)
      {
        assert record[..i + 1][..i] == record[..i];
        if record[i].coordinator == c {
          agents := agents + [Agent(record[i].key, record[i].status.Done?)];
        }
      }
      assert record[..|record|] == record;
    }

    /** One fair launch: the snapshot, the caps, and the first task of the coordinator that starts. */
    method LaunchOne(c: nat, chat: Bytes, company: Company, reliable: bool)
      returns (launched: bool, ghost seen: Seen, ghost mid: seq<Task>, ghost which: nat)
      requires Valid()
      modifies this
      ensures Valid() && Adds(old(Run), Run, company) && InOrder(old(tasks), seen, mid)
      ensures OnlyClaims(Run, |old(Run)|) ==> CalmSince(seen, mid)
      ensures InChat(old(tasks), c, chat) ==> KeepsCaps(old(Run), Run, limits)
      ensures Started == if launched then old(Started) + [which] else old(Started)
      ensures Outcome(seen, mid, tasks, c, chat, which, launched, limits)
      ensures company != Anyone && reliable ==> SmoothTurn(Turn(launched, seen), old(tasks), tasks)
    {
      hide Invariant, IsRun, Count, Ready, Drifts, Loyally, Calm, KeepsCaps, OnlyClaims, Room, Smoothly, Untried;
      ghost var start := tasks;
      launched, which := false, 0;
      Others(company, {});
      var runningNow := RunningCount(All);
      ghost var counted, runCounted := tasks, Run;
      Others(company, {});
      var record := tasks;
      ghost var runRecord := Run;
      var coordinatorRunning := RunningCount(Of(c));
      var parentRunning := 0;
      if chat != [] {
        Others(company, {});
        parentRunning := RunningCount(Under(chat));
      } else {
        DriftsSelf(tasks);
        LoyallySelf(tasks);
        QuietlySelf(Run, tasks, company, limits);
      }
      ghost var asked, runAsked := tasks, Run;
      seen, mid := Seen(counted, record, asked), tasks;
      DriftsSelf(tasks);
      SmoothlySelf(tasks);
      CalmSelf(tasks);
      DriftsLength(record, asked);
      LoyallySmoothly(start, counted);
      LoyallySmoothly(counted, record);
      LoyallySmoothly(record, asked);
      LoyallyUntried(record, asked);
      QuietlySelf(Run, tasks, company, limits);
      if (chat == [] || parentRunning < limits.perParent) && coordinatorRunning < limits.perCoordinator {
        launched, mid, which := ScanAgents(record, runningNow, c, chat, company, reliable);
        DriftsLength(record, mid);
        SmoothlyLaunched(asked, mid, tasks, which, launched);
      }
      CalmSinceCounted(old(Run), runCounted, runRecord, runAsked, Run, seen, mid, company);
      QuietlyIsTransitive(runCounted, runRecord, runAsked, counted, record, asked, company, limits);
      QuietlyIsTransitive(old(Run), runCounted, runAsked, start, counted, asked, company, limits);
      AddsIsTransitive(old(Run), runAsked, Run, company);
      if InChat(start, c, chat) {
        SeenInChat(start, seen, c, chat);
        SeenKeepsCaps(old(Run), runAsked, Run, start, seen, c, chat, limits);
      }
    }

    /** The multi-round launcher: rounds until one starts nothing. */
    method LaunchReady(c: nat, chat: Bytes, company: Company, reliable: bool) returns (ghost seen: Seen)
      requires Valid()
      modifies this
      ensures Valid() && Adds(old(Run), Run, company) && old(Started) <= Started
      ensures InChat(old(tasks), c, chat) ==> KeepsCaps(old(Run), Run, limits)
      ensures Advances(old(tasks), tasks) && InOrder(seen.counted, seen, tasks)
      ensures Full(seen, c, chat, limits) || Settled(seen.record, tasks, c, |tasks|)
    {
      hide Count, Startable, Full, Invariant, Drifts, Advances, InOrder, Settled, KeepsCaps, OnlyClaims, InChat;
      seen := Seen(tasks, tasks, tasks);
      AdvancesSelf(tasks);
      KeepsCapsSelf(Run, limits);
      var launched := true;
      while launched
        invariant Valid() && Adds(old(Run), Run, company) && old(Started) <= Started && Advances(old(tasks), tasks)
        invariant InChat(old(tasks), c, chat) ==> KeepsCaps(old(Run), Run, limits)
        invariant !launched ==> InOrder(seen.counted, seen, tasks) && |seen.record| == |tasks|
        invariant !launched ==> Full(seen, c, chat, limits) || Settled(seen.record, tasks, c, |tasks|)
        decreases Count(tasks, All, Queued), launched
      {
        ghost var before, run := tasks, Run;
        ghost var mid, which;
        launched, seen, mid, which := LaunchOne(c, chat, company, reliable);
        Launched(before, seen, mid, tasks, c, chat, which, launched, limits);
        AdvancesIsTransitive(old(tasks), before, tasks);
        AddsIsTransitive(old(Run), run, Run, company);
        if InChat(old(tasks), c, chat) {
          InChatStays(old(tasks), before, c, chat);
          KeepsCapsIsTransitive(old(Run), run, Run, limits);
        }
      }
    }

    /** One fair pass: every coordinator with queued tasks gets one turn, and at most one task is started for it. */
    method LaunchForRuntime(active: seq<(nat, Bytes)>, company: Company, reliable: bool)
      returns (ghost turns: seq<Turn>)
      requires Valid() && forall i, j :: 0 <= i < j < |active| ==> active[i].0 != active[j].0
      modifies this
      ensures Valid() && Adds(old(Run), Run, company) && Advances(old(tasks), tasks) && |turns| == |active|
      ensures AllInChat(old(tasks), active) ==> KeepsCaps(old(Run), Run, limits)
      ensures forall n :: 0 <= n < |active| ==>
        FairTurn(active[n].0, active[n].1, turns[n], old(tasks), tasks, limits)
      ensures OneEach(old(Started), Started, tasks)
      ensures company != Anyone && reliable ==> Smoothly(old(tasks), tasks)
      ensures company != Anyone && reliable ==>
        forall n :: 0 <= n < |active| ==> SmoothTurn(turns[n], old(tasks), tasks)
    {
      hide Count, FairTurn, Turned, Invariant, IsRun, Advances, Smoothly, SmoothTurn, KeepsCaps, OnlyClaims, AllInChat;
      var snapshot := tasks;
      turns := [];
      AdvancesSelf(tasks);
      SmoothlySelf(tasks);
      KeepsCapsSelf(Run, limits);
      for n := 0 to |active|
        invariant Valid() && Adds(old(Run), Run, company) && Advances(old(tasks), tasks) && |turns| == n
        invariant AllInChat(old(tasks), active) ==> KeepsCaps(old(Run), Run, limits)
        invariant forall m :: 0 <= m < n ==>
          FairTurn(active[m].0, active[m].1, turns[m], old(tasks), tasks, limits)
        invariant OneEachOf(old(Started), Started, tasks, active[..n])
        invariant company != Anyone && reliable ==> Smoothly(old(tasks), tasks)
        invariant company != Anyone && reliable ==>
          forall m :: 0 <= m < n ==> SmoothTurn(turns[m], old(tasks), tasks)
      {
        var c, chat := active[n].0, active[n].1;
        ghost var before, started, run := tasks, Started, Run;
        ghost var turn := Turn(false, Seen(tasks, tasks, tasks));
        if Count(snapshot, Of(c), Queued) > 0 {
          turn := TakeTurn(c, chat, company, reliable);
          TurnTaken(active, n, turns, turn, old(tasks), before, tasks, limits);
          AdvancesIsTransitive(old(tasks), before, tasks);
          AddsIsTransitive(old(Run), run, Run, company);
          if AllInChat(old(tasks), active) {
            AllInChatStays(old(tasks), before, active);
            KeepsCapsIsTransitive(old(Run), run, Run, limits);
          }
        } else {
          TurnSkipped(c, chat, turn, old(tasks), tasks, limits);
          AdvancesSelf(tasks);
          SmoothTurnSelf(turn, tasks);
        }
        OneMoreEach(old(Started), started, Started, before, tasks, active, n);
        if company != Anyone && reliable {
          MoreSmoothTurns(turns, turn, old(tasks), before, tasks);
        }
        turns := turns + [turn];
      }
    }

    method TakeTurn(c: nat, chat: Bytes, company: Company, reliable: bool) returns (ghost turn: Turn)
      requires Valid()
      modifies this
      ensures Valid() && Adds(old(Run), Run, company) && Advances(old(tasks), tasks)
      ensures InChat(old(tasks), c, chat) ==> KeepsCaps(old(Run), Run, limits)
      ensures Turned(c, chat, turn, old(tasks), tasks, limits)
      ensures Started == old(Started) || exists i: nat ::
        i < |tasks| && tasks[i].coordinator == c && Started == old(Started) + [i]
      ensures company != Anyone && reliable ==> SmoothTurn(turn, old(tasks), tasks)
    {
      hide Count, Full, Invariant, IsRun, Drifts, Ready, Settled, KeepsCaps, OnlyClaims, InChat, Adds, SmoothTurn;
      ghost var before := tasks;
      var launched;
      ghost var seen, mid, which;
      launched, seen, mid, which := LaunchOne(c, chat, company, reliable);
      Launched(before, seen, mid, tasks, c, chat, which, launched, limits);
      turn := Turn(launched, seen);
      TurnOutcome(before, seen, mid, tasks, c, chat, which, launched, limits);
    }
  }

  lemma CalmSelf(a: seq<Task>)
    ensures Calm(a, a)
  {
  }

  /** Room that is left stays unless a waiting task goes on, so a later claim may use it. */
  lemma RoomStays(x: seq<seq<Task>>, y: seq<seq<Task>>, z: seq<seq<Task>>, a: seq<Task>, b: seq<Task>, c: nat,
                  chat: Bytes, company: Company, l: Limits)
    requires KeepsCaps(x, y, l) && Calmly(x, y, a, b, company) && Drifts(a, b) && Room(a, c, chat, l)
    requires y <= z && (Room(b, c, chat, l) ==> KeepsCaps(y, z, l))
    ensures KeepsCaps(x, z, l)
  {
    OnlyClaimsParts(x, y, z);
    if OnlyClaims(z, |x|) {
      CalmCount(a, b, All);
      CalmCount(a, b, Of(c));
      CalmCount(a, b, Under(chat));
      hide OnlyClaims, Capped, Room;
      KeepsCapsIsTransitive(x, y, z, l);
    }
  }

  /** The states between the counts and the claim, while nothing but claims makes a task count as running. */
  lemma CalmSinceCounted(r0: seq<seq<Task>>, r1: seq<seq<Task>>, r2: seq<seq<Task>>, r3: seq<seq<Task>>,
                         r4: seq<seq<Task>>, seen: Seen, now: seq<Task>, company: Company)
    requires r0 != [] && r0 <= r1 && Calmly(r1, r2, seen.counted, seen.record, company)
    requires Calmly(r2, r3, seen.record, seen.asked, company) && Calmly(r3, r4, seen.asked, now, company)
    ensures OnlyClaims(r4, |r0|) ==> CalmSince(seen, seen.asked) && CalmSince(seen, now)
  {
    hide OnlyClaims;
    OnlyClaimsParts(r0, r1, r4);
    OnlyClaimsParts(r1, r2, r4);
    OnlyClaimsParts(r2, r3, r4);
  }

  /** A launch attempt keeps the caps: its counts showed room, or it claimed nothing. */
  lemma SeenKeepsCaps(r0: seq<seq<Task>>, r3: seq<seq<Task>>, r4: seq<seq<Task>>, start: seq<Task>, seen: Seen, c: nat,
                      chat: Bytes, l: Limits)
    requires KeepsCaps(r0, r3, l) && r3 <= r4 && InOrder(start, seen, seen.asked)
    requires OnlyClaims(r4, |r0|) ==> CalmSince(seen, seen.asked)
    requires (!Full(seen, c, chat, l) ==> Room(seen.asked, c, chat, l)) ==> KeepsCaps(r3, r4, l)
    ensures KeepsCaps(r0, r4, l)
  {
    if OnlyClaims(r4, |r0|) {
      if !Full(seen, c, chat, l) {
        ClaimMeetsRoom(start, seen, seen.asked, c, chat, l);
      }
      hide OnlyClaims, Capped, Room, Full;
      KeepsCapsIsTransitive(r0, r3, r4, l);
    }
  }

  lemma ChatOf(a: seq<Task>, b: seq<Task>, c: nat, chat: Bytes, i: nat)
    requires InChat(a, c, chat) && Drifts(a, b) && i < |b| && b[i].coordinator == c
    ensures b[i].chat == chat
  {
    assert TaskDrifts(a[i], b[i]);
  }

  lemma SeenInChat(start: seq<Task>, seen: Seen, c: nat, chat: Bytes)
    requires InOrder(start, seen, seen.asked) && InChat(start, c, chat)
    ensures InChat(seen.asked, c, chat)
  {
    DriftsIsTransitive(start, seen.counted, seen.record);
    DriftsIsTransitive(start, seen.record, seen.asked);
    DriftsAdvances(start, seen.asked);
    InChatStays(start, seen.asked, c, chat);
  }

  predicate AllInChat(tasks: seq<Task>, active: seq<(nat, Bytes)>) {
    forall a <- active :: InChat(tasks, a.0, a.1)
  }

  lemma InChatStays(a: seq<Task>, b: seq<Task>, c: nat, chat: Bytes)
    requires Advances(a, b) && InChat(a, c, chat)
    ensures InChat(b, c, chat)
  {
    assert forall i :: 0 <= i < |a| ==> TaskAdvances(a[i], b[i]);
  }

  lemma AllInChatStays(a: seq<Task>, b: seq<Task>, active: seq<(nat, Bytes)>)
    requires Advances(a, b) && AllInChat(a, active)
    ensures AllInChat(b, active) && forall n :: 0 <= n < |active| ==> InChat(b, active[n].0, active[n].1)
  {
    forall c | c in active ensures InChat(b, c.0, c.1) {
      InChatStays(a, b, c.0, c.1);
    }
  }

  /** The task was queued and is running now, or nothing has changed and it has been given up. */
  ghost predicate Tried(mid: seq<Task>, now: seq<Task>, i: nat, launched: bool) {
    && i < |mid| == |now|
    && if launched then mid[i].status.Queued? && mid[i].kindValid && now == mid[i := mid[i].(status := Running)]
       else now == mid && now[i].status.Failed?
  }

  /** A ready task that waits or has been given up stays one of the two while others act. */
  lemma StillReady(a: seq<Task>, b: seq<Task>, i: nat)
    requires Drifts(a, b) && i < |a| && (a[i].status.Queued? || a[i].status.Failed?)
    requires a[i].status.Queued? ==> Ready(a, i)
    ensures |a| == |b| && SameTask(a[i], b[i]) && (b[i].status.Queued? || b[i].status.Failed?)
    ensures b[i].status.Queued? ==> a[i].status.Queued? && Ready(b, i)
  {
    assert TaskDrifts(a[i], b[i]);
    if b[i].status.Queued? {
      DriftsAdvances(a, b);
      ReadyStays(a, b, i);
    }
  }

  /** What a launch attempt has done: it started the first task it could, or it met a cap, or gave all up. */
  ghost predicate Outcome(seen: Seen, mid: seq<Task>, now: seq<Task>, c: nat, chat: Bytes, which: nat, launched: bool,
                          l: Limits)
  {
    && |seen.record| == |mid| == |now|
    && if launched
       then !Full(seen, c, chat, l) && FirstStarted(seen.record, mid, c, which) && Tried(mid, now, which, true)
       else now == mid && (Full(seen, c, chat, l) || Settled(seen.record, now, c, |now|))
  }

  lemma ReadyIs(record: seq<Task>, i: nat, agents: seq<Agent>)
    requires i < |record| && agents == Record(record, record[i].coordinator)
    ensures Ready(record, i) == Satisfied(agents, record[i].dependsOn)
  {
  }

  lemma DriftsSelf(a: seq<Task>)
    ensures Drifts(a, a)
  {
  }

  lemma DriftsLength(a: seq<Task>, b: seq<Task>)
    requires Drifts(a, b)
    ensures |a| == |b|
  {
  }

  lemma AdvancesSelf(a: seq<Task>)
    ensures Advances(a, a)
  {
  }

  lemma LoyallySelf(a: seq<Task>)
    ensures Loyally(a, a)
  {
  }

  lemma LoyallyIsTransitive(a: seq<Task>, b: seq<Task>, c: seq<Task>)
    ensures Loyally(a, b) && Loyally(b, c) ==> Loyally(a, c)
  {
  }

  lemma SettledStays(record: seq<Task>, before: seq<Task>, after: seq<Task>, c: nat, n: nat)
    requires |record| == |before| && Drifts(before, after) && n <= |record| && Settled(record, before, c, n)
    ensures Settled(record, after, c, n)
  {
    assert forall i :: 0 <= i < |before| ==> TaskDrifts(before[i], after[i]);
  }

  lemma SettledNext(record: seq<Task>, before: seq<Task>, after: seq<Task>, c: nat, n: nat)
    requires |record| == |before| && Drifts(before, after) && n < |record| && Settled(record, before, c, n)
    requires Startable(record, c, n) ==> after[n].status.Failed?
    ensures Settled(record, after, c, n + 1)
  {
    SettledStays(record, before, after, c, n);
  }

  /** What one launch attempt does to the counts. */
  lemma Launched(before: seq<Task>, seen: Seen, mid: seq<Task>, after: seq<Task>, c: nat, chat: Bytes, which: nat,
                 launched: bool, l: Limits)
    requires InOrder(before, seen, mid) && Outcome(seen, mid, after, c, chat, which, launched, l)
    ensures Drifts(before, mid) && Advances(before, after) && |before| == |after|
    ensures Count(after, All, Queued) <= Count(before, All, Queued)
    ensures launched ==> Count(after, All, Queued) < Count(before, All, Queued)
    ensures !launched ==> InOrder(seen.counted, seen, after)
  {
    DriftsIsTransitive(before, seen.counted, seen.record);
    DriftsIsTransitive(before, seen.record, seen.asked);
    DriftsIsTransitive(before, seen.asked, mid);
    DriftsAdvances(before, mid);
    DriftsQueued(before, mid, All);
    DriftsSelf(seen.counted);
    if launched {
      var t := mid[which].(status := Running);
      assert Advances(mid, after);
      AdvancesIsTransitive(before, mid, after);
      CountUpdate(mid, which, t, All, Queued);
    }
  }

  // ----- Fair passes -----

  datatype Turn = Turn(launched: bool, seen: Seen)

  /** One attempt: it started a queued task of the coordinator, or it met a cap or nothing that is still startable. */
  ghost predicate Turned(c: nat, chat: Bytes, t: Turn, start: seq<Task>, now: seq<Task>, l: Limits) {
    && |t.seen.record| == |now| == |start|
    && if t.launched then
         exists i: nat :: i < |now| && start[i].coordinator == c && start[i].status.Queued? && !now[i].status.Queued?
       else
         && Advances(start, t.seen.counted) && InOrder(t.seen.counted, t.seen, t.seen.asked)
         && Advances(t.seen.asked, now)
         && (Full(t.seen, c, chat, l) || Settled(t.seen.record, now, c, |now|))
  }

  /** One coordinator's turn in a fair pass: only coordinators without queued tasks are passed over. */
  ghost predicate FairTurn(c: nat, chat: Bytes, t: Turn, start: seq<Task>, now: seq<Task>, l: Limits) {
    |start| == |now| && (Count(start, Of(c), Queued) == 0 || Turned(c, chat, t, start, now, l))
  }

  /** The tasks started since belong to different coordinators. */
  ghost predicate OneEach(before: seq<nat>, after: seq<nat>, tasks: seq<Task>) {
    && before <= after && (forall i :: |before| <= i < |after| ==> after[i] < |tasks|)
    && forall i, j :: |before| <= i < j < |after| ==> tasks[after[i]].coordinator != tasks[after[j]].coordinator
  }

  /** And all of them to the given ones. */
  ghost predicate OneEachOf(before: seq<nat>, after: seq<nat>, tasks: seq<Task>, active: seq<(nat, Bytes)>) {
    && OneEach(before, after, tasks)
    && forall i :: |before| <= i < |after| ==> exists a <- active :: a.0 == tasks[after[i]].coordinator
  }

  /** The task is started, gets done, is given up for its kind, or stays. */
  predicate TaskSucceeds(a: Task, b: Task) {
    || b == a
    || (a.status.Queued? && a.kindValid && b == a.(status := Running))
    || ((a.status.Running? || (a.status.Queued? && a.kindValid)) && a.hold == FREE && b == a.(status := Done))
    || (a.status.Queued? && !a.kindValid && b == GivenUp(a))
  }

  /** What happens while workers start and succeed and nobody else acts. */
  predicate Smoothly(a: seq<Task>, b: seq<Task>) {
    |a| == |b| && forall i :: 0 <= i < |a| ==> TaskSucceeds(a[i], b[i])
  }

  /** The same for all states of a turn. */
  predicate SmoothTurn(t: Turn, start: seq<Task>, now: seq<Task>) {
    && Smoothly(start, t.seen.counted) && Smoothly(t.seen.counted, t.seen.record)
    && Smoothly(t.seen.record, t.seen.asked) && Smoothly(t.seen.asked, now)
  }

  lemma SmoothlySelf(a: seq<Task>)
    ensures Smoothly(a, a)
  {
  }

  lemma SmoothlyIsTransitive(a: seq<Task>, b: seq<Task>, c: seq<Task>)
    ensures Smoothly(a, b) && Smoothly(b, c) ==> Smoothly(a, c)
  {
  }

  lemma LoyallySmoothly(a: seq<Task>, b: seq<Task>)
    ensures Loyally(a, b) ==> Smoothly(a, b)
  {
  }

  lemma SmoothTurnStays(t: Turn, start: seq<Task>, before: seq<Task>, now: seq<Task>, later: seq<Task>)
    ensures Smoothly(start, before) && SmoothTurn(t, before, now) && Smoothly(now, later) ==>
      SmoothTurn(t, start, later)
  {
    SmoothlyIsTransitive(start, before, t.seen.counted);
    SmoothlyIsTransitive(t.seen.asked, now, later);
  }

  lemma SmoothTurnIsSmooth(t: Turn, start: seq<Task>, now: seq<Task>)
    requires SmoothTurn(t, start, now)
    ensures Smoothly(start, now)
  {
    SmoothlyIsTransitive(start, t.seen.counted, t.seen.record);
    SmoothlyIsTransitive(start, t.seen.record, t.seen.asked);
    SmoothlyIsTransitive(start, t.seen.asked, now);
  }

  /** Tasks that have not been tried are as the snapshot shows them. */
  predicate Untried(record: seq<Task>, now: seq<Task>, n: nat) {
    |record| == |now| && forall i :: n <= i < |record| && record[i].status.Queued? ==> now[i] == record[i]
  }

  /** One attempt while workers start and succeed: a task of a valid kind starts, another one is given up. */
  ghost predicate TriedLoyally(before: seq<Task>, mid: seq<Task>, i: nat, launched: bool)
    requires i < |before|
  {
    && launched == before[i].kindValid
    && Loyally(if launched then before else before[i := GivenUp(before[i])], mid)
  }

  lemma TriedSmoothly(record: seq<Task>, before: seq<Task>, mid: seq<Task>, i: nat, launched: bool)
    requires i < |before| && Untried(record, before, i) && record[i].status.Queued?
    requires TriedLoyally(before, mid, i, launched)
    ensures Smoothly(before, mid) && Untried(record, mid, i + 1)
  {
  }

  lemma StartedSmoothly(mid: seq<Task>, now: seq<Task>, i: nat)
    requires Tried(mid, now, i, true)
    ensures Smoothly(mid, now)
  {
  }

  lemma UntriedNext(record: seq<Task>, now: seq<Task>, n: nat)
    ensures Untried(record, now, n) ==> Untried(record, now, n + 1)
    ensures Untried(record, now, n) && n < |record| && record[n].status.Queued? ==> now[n] == record[n]
  {
  }

  lemma LoyallyUntried(record: seq<Task>, now: seq<Task>)
    ensures Loyally(record, now) ==> Untried(record, now, 0)
  {
  }

  lemma SmoothlyLaunched(before: seq<Task>, mid: seq<Task>, now: seq<Task>, i: nat, launched: bool)
    requires if launched then Tried(mid, now, i, true) else now == mid
    ensures Smoothly(before, mid) ==> Smoothly(before, now)
  {
    SmoothlySelf(mid);
    if launched {
      StartedSmoothly(mid, now, i);
    }
    SmoothlyIsTransitive(before, mid, now);
  }

  lemma SmoothTurnSelf(t: Turn, tasks: seq<Task>)
    requires t.seen == Seen(tasks, tasks, tasks)
    ensures SmoothTurn(t, tasks, tasks)
  {
  }

  lemma MoreSmoothTurns(turns: seq<Turn>, turn: Turn, start: seq<Task>, before: seq<Task>, now: seq<Task>)
    requires Smoothly(start, before) && SmoothTurn(turn, before, now)
    requires forall m :: 0 <= m < |turns| ==> SmoothTurn(turns[m], start, before)
    ensures Smoothly(start, now) && SmoothTurn(turn, start, now)
    ensures forall m :: 0 <= m < |turns| ==> SmoothTurn(turns[m], start, now)
  {
    hide Smoothly;
    SmoothTurnIsSmooth(turn, before, now);
    SmoothlyIsTransitive(start, before, now);
    SmoothlySelf(start);
    SmoothlySelf(now);
    SmoothTurnStays(turn, start, before, now, now);
    forall m | 0 <= m < |turns| ensures SmoothTurn(turns[m], start, now) {
      SmoothTurnStays(turns[m], start, start, before, now);
    }
  }

  lemma TurnOutcome(before: seq<Task>, seen: Seen, mid: seq<Task>, after: seq<Task>, c: nat, chat: Bytes, which: nat,
                    launched: bool, l: Limits)
    requires InOrder(before, seen, mid) && Outcome(seen, mid, after, c, chat, which, launched, l)
    ensures Turned(c, chat, Turn(launched, seen), before, after, l)
    ensures launched ==> which < |after| && after[which].coordinator == c
  {
    Launched(before, seen, mid, after, c, chat, which, launched, l);
    if launched {
      assert TaskDrifts(before[which], mid[which]);
      assert before[which].coordinator == c && before[which].status.Queued? && !after[which].status.Queued?;
    } else {
      DriftsAdvances(before, seen.counted);
      DriftsAdvances(seen.asked, mid);
      DriftsSelf(seen.counted);
      DriftsSelf(seen.asked);
    }
  }

  /** Later steps do not change what a turn has reached. */
  lemma FairTurnStays(c: nat, chat: Bytes, t: Turn, start: seq<Task>, now: seq<Task>, later: seq<Task>, l: Limits)
    requires Advances(now, later) && FairTurn(c, chat, t, start, now, l)
    ensures FairTurn(c, chat, t, start, later, l)
  {
    assert forall i :: 0 <= i < |now| ==> TaskAdvances(now[i], later[i]);
    if Count(start, Of(c), Queued) != 0 {
      if t.launched {
        var i: nat :| i < |now| && start[i].coordinator == c && start[i].status.Queued? && !now[i].status.Queued?;
        assert !later[i].status.Queued?;
      } else {
        AdvancesIsTransitive(t.seen.asked, now, later);
      }
    }
  }

  /** A turn that is taken later counts for the whole pass. */
  lemma FairTurnFrom(c: nat, chat: Bytes, t: Turn, start: seq<Task>, before: seq<Task>, now: seq<Task>, l: Limits)
    requires Advances(start, before) && Turned(c, chat, t, before, now, l)
    ensures FairTurn(c, chat, t, start, now, l)
  {
    assert forall i :: 0 <= i < |start| ==> TaskAdvances(start[i], before[i]);
    if t.launched {
      var i: nat :| i < |now| && before[i].coordinator == c && before[i].status.Queued? && !now[i].status.Queued?;
      assert start[i].coordinator == c && start[i].status.Queued?;
    } else {
      AdvancesIsTransitive(start, before, t.seen.counted);
    }
  }

  lemma TurnSkipped(c: nat, chat: Bytes, t: Turn, start: seq<Task>, now: seq<Task>, l: Limits)
    requires Advances(start, now) && Count(start, Of(c), Queued) <= 0
    ensures FairTurn(c, chat, t, start, now, l)
  {
  }

  lemma TurnTaken(active: seq<(nat, Bytes)>, n: nat, turns: seq<Turn>, turn: Turn, start: seq<Task>, before: seq<Task>,
                  now: seq<Task>, l: Limits)
    requires n < |active| && |turns| == n && Advances(start, before) && Advances(before, now)
    requires forall m :: 0 <= m < n ==> FairTurn(active[m].0, active[m].1, turns[m], start, before, l)
    requires Turned(active[n].0, active[n].1, turn, before, now, l)
    ensures forall m :: 0 <= m < n ==> FairTurn(active[m].0, active[m].1, turns[m], start, now, l)
    ensures FairTurn(active[n].0, active[n].1, turn, start, now, l)
  {
    forall m | 0 <= m < n ensures FairTurn(active[m].0, active[m].1, turns[m], start, now, l) {
      FairTurnStays(active[m].0, active[m].1, turns[m], start, before, now, l);
    }
    FairTurnFrom(active[n].0, active[n].1, turn, start, before, now, l);
  }

  lemma OneMoreEach(first: seq<nat>, before: seq<nat>, after: seq<nat>, was: seq<Task>, now: seq<Task>,
                    active: seq<(nat, Bytes)>, n: nat)
    requires n < |active| && forall i, j :: 0 <= i < j < |active| ==> active[i].0 != active[j].0
    requires OneEachOf(first, before, was, active[..n]) && Advances(was, now)
    requires after == before || exists i: nat ::
      i < |now| && now[i].coordinator == active[n].0 && after == before + [i]
    ensures OneEachOf(first, after, now, active[..n + 1])
  {
    assert forall i :: 0 <= i < |was| ==> TaskAdvances(was[i], now[i]);
    assert forall a <- active[..n] :: a in active[..n + 1] && a.0 != active[n].0;
    assert active[n] in active[..n + 1];
    forall i | |first| <= i < |before|
      ensures now[before[i]].coordinator != active[n].0
      ensures exists a <- active[..n + 1] :: a.0 == now[before[i]].coordinator
    {
      var a :| a in active[..n] && a.0 == was[before[i]].coordinator;
      assert a in active[..n + 1];
    }
  }
}
