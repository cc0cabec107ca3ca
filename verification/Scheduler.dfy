/** The delegated-task scheduler: launchers over a shared store in which workers finish at any time. */
module Scheduler {
  import opened Bytes
  import opened Dependencies

  const TASK_STORE_MAX: nat := 128
  const COORDINATOR_AGENTS_MAX: nat := 16

  datatype Status = Queued | Running | Done | Failed

  /** Why a running task waits: a request to the user is pending, a blocker was reported. */
  datatype Hold = Hold(pending: bool, blocker: bool)

  const FREE := Hold(false, false)

  /** The coordinator of a single task; its chat is []. */
  const NO_COORDINATOR: nat := 0

  /** A task record; the chat is the one of its coordinator. A kind that does not parse cannot be started. */
  datatype Task = Task(coordinator: nat, chat: Bytes, key: Bytes, dependsOn: Bytes, kindValid: bool,
                       status: Status, hold: Hold)

  // ----- Limits -----

  datatype Limits = Limits(global: nat, perCoordinator: nat, perParent: nat)

  /** A limit from the environment: at least 1, at most the size of the table it protects. */
  function Clamped(requested: int, most: nat): (r: nat)
    requires most >= 1
    ensures 1 <= r <= most && (1 <= requested <= most ==> r == requested)
  {
    if requested <= 0 then 1 else if requested > most then most else requested
  }

  predicate GoodLimits(l: Limits) {
    && 1 <= l.global <= TASK_STORE_MAX
    && 1 <= l.perCoordinator <= COORDINATOR_AGENTS_MAX
    && 1 <= l.perParent <= TASK_STORE_MAX
  }

  // ----- Counting -----

  datatype Scope = All | Of(coordinator: nat) | Under(chat: Bytes)

  predicate InScope(t: Task, scope: Scope) {
    match scope
    case All => true
    case Of(c) => t.coordinator == c
    case Under(chat) => t.chat == chat
  }

  /** The counts leave out running tasks that wait. */
  predicate Counts(t: Task, scope: Scope, status: Status) {
    InScope(t, scope) && t.status == status && (status.Running? ==> t.hold == FREE)
  }

  /** A running task counts when no request is pending and no blocker is reported: in all, for its coordinator and
      for its chat. */
  lemma CountsMeans(t: Task, c: nat, chat: Bytes)
    ensures var waits := t.hold.pending || t.hold.blocker;
      && (Counts(t, All, Running) <==> t.status.Running? && !waits)
      && (Counts(t, Of(c), Running) <==> t.status.Running? && !waits && t.coordinator == c)
      && (Counts(t, Under(chat), Running) <==> t.status.Running? && !waits && t.chat == chat)
  {
  }

  /** Number of tasks in the scope with that status. */
  function Count(tasks: seq<Task>, scope: Scope, status: Status): (n: nat)
    ensures n <= |tasks|
  {
    if tasks == [] then 0
    else
      Count(tasks[..|tasks| - 1], scope, status) + if Counts(tasks[|tasks| - 1], scope, status) then 1 else 0
  }

  lemma {:induction false} CountAtMost(a: seq<Task>, b: seq<Task>, scope: Scope, status: Status)
    requires |a| == |b| && forall i :: 0 <= i < |a| && Counts(a[i], scope, status) ==> Counts(b[i], scope, status)
    ensures Count(a, scope, status) <= Count(b, scope, status)
  {
    if a != [] {
      CountAtMost(a[..|a| - 1], b[..|b| - 1], scope, status);
    }
  }

  /** Changing one task changes a count by that task alone. */
  lemma {:induction false} CountUpdate(a: seq<Task>, i: nat, t: Task, scope: Scope, status: Status)
    requires i < |a|
    ensures Count(a[i := t], scope, status) ==
      Count(a, scope, status) - (if Counts(a[i], scope, status) then 1 else 0)
      + (if Counts(t, scope, status) then 1 else 0)
  {
    var n := |a| - 1;
    if i == n {
      assert a[i := t][..n] == a[..n];
    } else {
      assert a[i := t][..n] == a[..n][i := t];
      CountUpdate(a[..n], i, t, scope, status);
    }
  }

  lemma {:induction false} CountNone(a: seq<Task>, scope: Scope, status: Status)
    ensures Count(a, scope, status) == 0 <==> forall i :: 0 <= i < |a| ==> !Counts(a[i], scope, status)
  {
    if a != [] {
      var n := |a| - 1;
      CountNone(a[..n], scope, status);
      assert forall i :: 0 <= i < n ==> a[..n][i] == a[i];
    }
  }

  lemma {:induction false} CountOfAppended(a: seq<Task>, batch: seq<Task>, scope: Scope)
    requires forall t <- batch :: t.status.Queued?
    ensures Count(a + batch, scope, Running) == Count(a, scope, Running)
  {
    if batch == [] {
      assert a + batch == a;
    } else {
      var n := |batch| - 1;
      assert (a + batch)[..|a| + n] == a + batch[..n];
      assert batch[n] in batch;
      CountOfAppended(a, batch[..n], scope);
    }
  }

  // ----- Dependencies inside a coordinator -----

  /** The record of a coordinator, as the dependency check reads it. */
  function Record(tasks: seq<Task>, c: nat): (agents: seq<Agent>) {
    if tasks == [] then []
    else
      var last := tasks[|tasks| - 1];
      Record(tasks[..|tasks| - 1], c) +
      if last.coordinator == c then [Agent(last.key, last.status.Done?)] else []
  }

  predicate Finished(tasks: seq<Task>, c: nat, key: Bytes) {
    exists i :: 0 <= i < |tasks| && tasks[i].coordinator == c && tasks[i].key == key && tasks[i].status.Done?
  }

  lemma {:induction false} RecordMeans(tasks: seq<Task>, c: nat, key: Bytes)
    ensures KeyDone(Record(tasks, c), key) <==> Finished(tasks, c, key)
  {
    if tasks != [] {
      var front, last := tasks[..|tasks| - 1], tasks[|tasks| - 1];
      RecordMeans(front, c, key);
      var before, after := Record(front, c), Record(tasks, c);
      if KeyDone(before, key) {
        var i :| 0 <= i < |before| && before[i].key == key && before[i].done;
        assert after[i] == before[i];
      }
      if KeyDone(after, key) && !KeyDone(before, key) {
        var i :| 0 <= i < |after| && after[i].key == key && after[i].done;
        assert i == |before|;
      }
      if Finished(tasks, c, key) && !Finished(front, c, key) {
        assert last.coordinator == c && last.key == key && last.status.Done?;
        assert after[|before|].done;
      }
    }
  }

  predicate Ready(tasks: seq<Task>, i: nat)
    requires i < |tasks|
  {
    Satisfied(Record(tasks, tasks[i].coordinator), tasks[i].dependsOn)
  }

  lemma ReadyMeans(tasks: seq<Task>, i: nat)
    requires i < |tasks|
    ensures Ready(tasks, i) <==>
      forall key <- Scanned(tasks[i].dependsOn) :: Finished(tasks, tasks[i].coordinator, key)
  {
    var c := tasks[i].coordinator;
    forall key | key in Scanned(tasks[i].dependsOn)
      ensures KeyDone(Record(tasks, c), key) <==> Finished(tasks, c, key)
    {
      RecordMeans(tasks, c, key);
    }
  }

  // ----- What every run keeps -----

  /** Every running or done task has all its dependencies done. */
  predicate Safe(tasks: seq<Task>) {
    forall i :: 0 <= i < |tasks| && (tasks[i].status.Running? || tasks[i].status.Done?) ==> Ready(tasks, i)
  }

  /** No cap is exceeded; tasks without a coordinator or a chat have no cap there. */
  ghost predicate Capped(tasks: seq<Task>, l: Limits) {
    && Count(tasks, All, Running) <= l.global
    && (forall c: nat :: c != NO_COORDINATOR ==> Count(tasks, Of(c), Running) <= l.perCoordinator)
    && (forall chat: Bytes :: chat != [] ==> Count(tasks, Under(chat), Running) <= l.perParent)
  }

  /** Tasks of one coordinator belong to one chat. */
  predicate OneChat(tasks: seq<Task>) {
    forall i, j ::
      0 <= i < |tasks| && 0 <= j < |tasks| && tasks[i].coordinator == tasks[j].coordinator != NO_COORDINATOR ==>
        tasks[i].chat == tasks[j].chat
  }

  predicate Invariant(tasks: seq<Task>) {
    Safe(tasks) && OneChat(tasks)
  }

  // ----- Steps -----

  predicate SameTask(a: Task, b: Task) {
    b == a.(status := b.status, hold := b.hold)
  }

  /** What can happen to a task while nothing is claimed: it finishes, it is given up, it waits or goes on. */
  predicate TaskDrifts(a: Task, b: Task) {
    && SameTask(a, b)
    && (b.status == a.status || (a.status.Running? && (b.status.Done? || b.status.Failed?))
        || (a.status.Queued? && b.status.Failed?))
  }

  predicate Drifts(a: seq<Task>, b: seq<Task>) {
    |a| == |b| && forall i :: 0 <= i < |a| ==> TaskDrifts(a[i], b[i])
  }

  /** No task goes on that was waiting. */
  predicate Calm(a: seq<Task>, b: seq<Task>) {
    |a| == |b| && forall i :: 0 <= i < |a| && Counts(b[i], All, Running) ==> Counts(a[i], All, Running)
  }

  /** Any number of steps: queued to running to done, or to failed; done and failed are final. */
  predicate TaskAdvances(a: Task, b: Task) {
    && SameTask(a, b)
    && (a.status.Done? ==> b.status.Done?) && (a.status.Failed? ==> b.status.Failed?)
    && (a.status.Running? ==> !b.status.Queued?)
  }

  predicate Advances(a: seq<Task>, b: seq<Task>) {
    |a| == |b| && forall i :: 0 <= i < |a| ==> TaskAdvances(a[i], b[i])
  }

  lemma DriftsIsTransitive(a: seq<Task>, b: seq<Task>, c: seq<Task>)
    requires Drifts(a, b) && Drifts(b, c)
    ensures Drifts(a, c)
  {
  }

  lemma AdvancesIsTransitive(a: seq<Task>, b: seq<Task>, c: seq<Task>)
    requires Advances(a, b) && Advances(b, c)
    ensures Advances(a, c)
  {
  }

  lemma DriftsAdvances(a: seq<Task>, b: seq<Task>)
    requires Drifts(a, b)
    ensures Advances(a, b)
  {
  }

  /** Done is final, so a satisfied dependency list stays satisfied. */
  lemma ReadyStays(a: seq<Task>, b: seq<Task>, i: nat)
    requires Advances(a, b) && i < |a| && Ready(a, i)
    ensures Ready(b, i)
  {
    ReadyMeans(a, i);
    ReadyMeans(b, i);
    var c := a[i].coordinator;
    forall key | key in Scanned(a[i].dependsOn) ensures Finished(b, c, key) {
      assert Finished(a, c, key);
      var j :| 0 <= j < |a| && a[j].coordinator == c && a[j].key == key && a[j].status.Done?;
      assert TaskAdvances(a[j], b[j]);
    }
  }

  /** While no waiting task goes on, finishing and giving up never makes a count of running tasks larger. */
  lemma CalmCount(a: seq<Task>, b: seq<Task>, scope: Scope)
    requires Drifts(a, b) && Calm(a, b)
    ensures Count(b, scope, Running) <= Count(a, scope, Running)
  {
    assert forall i :: 0 <= i < |a| ==> TaskDrifts(a[i], b[i]);
    CountAtMost(b, a, scope, Running);
  }

  lemma DriftsQueued(a: seq<Task>, b: seq<Task>, scope: Scope)
    requires Drifts(a, b)
    ensures Count(b, scope, Queued) <= Count(a, scope, Queued)
  {
    assert forall i :: 0 <= i < |a| ==> TaskDrifts(a[i], b[i]);
    CountAtMost(b, a, scope, Queued);
  }

  lemma DriftsKeepsInvariant(a: seq<Task>, b: seq<Task>)
    requires Invariant(a) && Drifts(a, b)
    ensures Invariant(b)
  {
    DriftsAdvances(a, b);
    forall i | 0 <= i < |b| && (b[i].status.Running? || b[i].status.Done?) ensures Ready(b, i) {
      assert TaskDrifts(a[i], b[i]);
      ReadyStays(a, b, i);
    }
    assert forall i :: 0 <= i < |a| ==> TaskDrifts(a[i], b[i]);
  }

  /** Claiming a ready queued task keeps the invariant. */
  lemma ClaimKeepsInvariant(a: seq<Task>, i: nat)
    requires Invariant(a) && i < |a| && a[i].status.Queued? && Ready(a, i)
    ensures Invariant(a[i := a[i].(status := Running)])
    ensures Advances(a, a[i := a[i].(status := Running)])
  {
    var b := a[i := a[i].(status := Running)];
    assert Advances(a, b);
    forall k | 0 <= k < |b| && (b[k].status.Running? || b[k].status.Done?) ensures Ready(b, k) {
      ReadyStays(a, b, k);
    }
  }

  // ----- The caps over runs -----

  /** The caps leave room for one more running task of a coordinator. */
  predicate Room(tasks: seq<Task>, c: nat, chat: Bytes, l: Limits) {
    && Count(tasks, All, Running) < l.global
    && (c != NO_COORDINATOR ==> Count(tasks, Of(c), Running) < l.perCoordinator)
    && (chat != [] ==> Count(tasks, Under(chat), Running) < l.perParent)
  }

  /** One task changes its status or its hold, forward and with its dependencies done. */
  ghost predicate Moves(a: seq<Task>, b: seq<Task>, i: nat) {
    && i < |a| == |b| && b == a[i := b[i]] && TaskAdvances(a[i], b[i])
    && (a[i].status.Queued? && !b[i].status.Queued? && !b[i].status.Failed? ==> b[i].status.Running? && Ready(a, i))
  }

  /** Queued tasks are added for a coordinator. */
  ghost predicate Plans(a: seq<Task>, b: seq<Task>) {
    && |a| <= |b| && a == b[..|a|] && forall i, j ::
      0 <= i < |b| && |a| <= j < |b| ==>
        && b[j].status.Queued?
        && (b[i].coordinator == b[j].coordinator != NO_COORDINATOR ==> b[i].chat == b[j].chat)
  }

  /** A single task, which has no dependencies. */
  function Single(kindValid: bool): Task {
    Task(NO_COORDINATOR, [], [], [], kindValid, Running, FREE)
  }

  /** A single task is created, and is running at once. */
  ghost predicate Starts(a: seq<Task>, b: seq<Task>) {
    b == a + [Single(true)] || b == a + [Single(false)]
  }

  /** One step of the store. */
  ghost predicate Step(a: seq<Task>, b: seq<Task>) {
    a == b || Plans(a, b) || Starts(a, b) || exists i: nat :: Moves(a, b, i)
  }

  ghost predicate IsRun(run: seq<seq<Task>>) {
    run != [] && run[0] == [] && forall k :: 0 <= k < |run| - 1 ==> Step(run[k], run[k + 1])
  }

  /** Task i counts as running behind the step and did not before: it has been claimed, it was waiting and goes
      on, or it has been created. */
  predicate Raises(a: seq<Task>, b: seq<Task>, i: nat) {
    i < |b| && Counts(b[i], All, Running) && (i < |a| ==> !Counts(a[i], All, Running))
  }

  predicate Claims(a: seq<Task>, i: nat) {
    i < |a| && a[i].status.Queued?
  }

  ghost predicate RaisesInRoom(a: seq<Task>, b: seq<Task>, l: Limits) {
    forall i: nat :: Raises(a, b, i) ==> Room(a, b[i].coordinator, b[i].chat, l)
  }

  ghost predicate ClaimsInRoom(a: seq<Task>, b: seq<Task>, l: Limits) {
    forall i: nat :: Raises(a, b, i) && Claims(a, i) ==> Room(a, b[i].coordinator, b[i].chat, l)
  }

  ghost predicate RaisesByClaim(a: seq<Task>, b: seq<Task>) {
    forall i: nat :: Raises(a, b, i) ==> Claims(a, i)
  }

  /** A raising step meets full tables exactly when it breaks a cap; no other step breaks one. */
  lemma StepCaps(a: seq<Task>, b: seq<Task>, l: Limits)
    requires Step(a, b) && Capped(a, l)
    ensures Capped(b, l) <==> RaisesInRoom(a, b, l)
  {
    hide Capped, Room, Ready;
    if i: nat :| Moves(a, b, i) {
      MoveCaps(a, b, i, l);
      forall k: nat | Raises(a, b, k) ensures k == i {
        assert b[k] != a[k];
      }
    } else if Plans(a, b) {
      PlanCaps(a, b, l);
      assert forall i: nat :: !Raises(a, b, i);
    } else if Starts(a, b) {
      StartCaps(a, b, l);
      assert Raises(a, b, |a|);
    }
  }

  lemma PlanCaps(a: seq<Task>, b: seq<Task>, l: Limits)
    requires Plans(a, b) && Capped(a, l)
    ensures Capped(b, l)
  {
    var batch := b[|a|..];
    assert b == a + batch && forall t <- batch :: t.status.Queued?;
    forall scope: Scope ensures Count(b, scope, Running) == Count(a, scope, Running) {
      CountOfAppended(a, batch, scope);
    }
  }

  lemma StartCaps(a: seq<Task>, b: seq<Task>, l: Limits)
    requires Starts(a, b) && Capped(a, l)
    ensures Capped(b, l) <==> Room(a, NO_COORDINATOR, [], l)
  {
    assert b[..|a|] == a;
    assert forall scope: Scope ::
      Count(b, scope, Running) == Count(a, scope, Running) + if InScope(b[|a|], scope) then 1 else 0;
  }

  lemma MoveCaps(a: seq<Task>, b: seq<Task>, i: nat, l: Limits)
    requires Moves(a, b, i) && Capped(a, l)
    ensures Capped(b, l) <==> (Raises(a, b, i) ==> Room(a, b[i].coordinator, b[i].chat, l))
  {
    var more := if Raises(a, b, i) then 1 else 0;
    forall scope: Scope
      ensures Count(b, scope, Running) <= Count(a, scope, Running) + if InScope(a[i], scope) then more else 0
      ensures Raises(a, b, i) ==>
        Count(b, scope, Running) == Count(a, scope, Running) + if InScope(a[i], scope) then 1 else 0
    {
      CountUpdate(a, i, b[i], scope, Running);
    }
  }

  ghost predicate RaisesMeetRoom(run: seq<seq<Task>>, l: Limits) {
    forall k :: 0 <= k < |run| - 1 ==> RaisesInRoom(run[k], run[k + 1], l)
  }

  ghost predicate ClaimsMeetRoom(run: seq<seq<Task>>, l: Limits) {
    forall k :: 0 <= k < |run| - 1 ==> ClaimsInRoom(run[k], run[k + 1], l)
  }

  /** The exact condition over whole runs: the caps hold in every state if and only if every claim, every waiting
      task that goes on and every single task that is created meets room. */
  lemma CapsInRun(run: seq<seq<Task>>, l: Limits)
    requires IsRun(run)
    ensures (forall k :: 0 <= k < |run| ==> Capped(run[k], l)) <==> RaisesMeetRoom(run, l)
  {
    hide Step, RaisesInRoom;
    if RaisesMeetRoom(run, l) {
      forall k | 0 <= k < |run| ensures Capped(run[k], l) {
        CappedUpTo(run, k, l);
      }
    }
    if forall k :: 0 <= k < |run| ==> Capped(run[k], l) {
      forall k | 0 <= k < |run| - 1 ensures RaisesInRoom(run[k], run[k + 1], l) {
        StepCaps(run[k], run[k + 1], l);
      }
    }
  }

  lemma {:induction false} CappedUpTo(run: seq<seq<Task>>, k: nat, l: Limits)
    requires IsRun(run) && k < |run| && RaisesMeetRoom(run, l)
    ensures Capped(run[k], l)
  {
    hide Step, RaisesInRoom, Capped;
    if k > 0 {
      CappedUpTo(run, k - 1, l);
      assert Step(run[k - 1], run[k]);
      StepCaps(run[k - 1], run[k], l);
    } else {
      NothingCapped(l);
    }
  }

  lemma NothingCapped(l: Limits)
    ensures Capped([], l)
  {
  }

  // ----- What the launchers keep -----

  /** From the n-th state on, nothing but claims makes a task count as running. */
  ghost predicate OnlyClaims(run: seq<seq<Task>>, n: nat)
    requires n > 0
  {
    forall k :: n <= k < |run| ==> RaisesByClaim(run[k - 1], run[k])
  }

  /** The states that have been added are within the caps, when the last one before was and nothing but claims
      made a task count as running. */
  ghost predicate KeepsCaps(before: seq<seq<Task>>, after: seq<seq<Task>>, l: Limits) {
    && before <= after && before != []
    && (Capped(before[|before| - 1], l) && OnlyClaims(after, |before|) ==>
          forall k :: |before| <= k < |after| ==> Capped(after[k], l))
  }

  lemma OnlyClaimsParts(a: seq<seq<Task>>, b: seq<seq<Task>>, c: seq<seq<Task>>)
    requires a != [] && a <= b <= c
    ensures OnlyClaims(c, |a|) <==> OnlyClaims(b, |a|) && OnlyClaims(c, |b|)
  {
    hide RaisesByClaim;
  }

  lemma KeepsCapsIsTransitive(a: seq<seq<Task>>, b: seq<seq<Task>>, c: seq<seq<Task>>, l: Limits)
    requires KeepsCaps(a, b, l) && KeepsCaps(b, c, l)
    ensures KeepsCaps(a, c, l)
  {
    OnlyClaimsParts(a, b, c);
    hide OnlyClaims, Capped;
  }

  lemma KeepsCapsSelf(a: seq<seq<Task>>, l: Limits)
    requires a != []
    ensures KeepsCaps(a, a, l) && OnlyClaims(a, |a|)
  {
  }

  lemma OneStepClaims(run: seq<seq<Task>>, b: seq<Task>)
    requires run != []
    ensures OnlyClaims(run + [b], |run|) <==> RaisesByClaim(run[|run| - 1], b)
  {
    hide RaisesByClaim;
    var more := run + [b];
    assert more[|run|] == b && more[|run| - 1] == run[|run| - 1];
  }

  /** A step that is no claim, or a claim that meets room. */
  lemma OneStepKeepsCaps(run: seq<seq<Task>>, b: seq<Task>, l: Limits)
    requires IsRun(run) && Step(run[|run| - 1], b) && ClaimsInRoom(run[|run| - 1], b, l)
    ensures KeepsCaps(run, run + [b], l)
  {
    hide Raises, Claims, Room, Step, Capped;
    OneStepClaims(run, b);
    var a := run[|run| - 1];
    if Capped(a, l) && OnlyClaims(run + [b], |run|) {
      StepCaps(a, b, l);
    }
  }

  /** In every state of every run, whatever waits and goes on, started tasks have their dependencies done. */
  lemma {:induction false} SafeInRun(run: seq<seq<Task>>, k: nat)
    requires IsRun(run) && k < |run|
    ensures Invariant(run[k])
  {
    if k > 0 {
      SafeInRun(run, k - 1);
      StepKeepsInvariant(run[k - 1], run[k]);
    }
  }

  lemma StepKeepsInvariant(a: seq<Task>, b: seq<Task>)
    requires Invariant(a) && Step(a, b)
    ensures Invariant(b)
  {
    if i: nat :| Moves(a, b, i) {
      assert Advances(a, b);
      forall k | 0 <= k < |b| && (b[k].status.Running? || b[k].status.Done?) ensures Ready(b, k) {
        if k == i && a[i].status.Queued? {
          assert Ready(a, i);
        }
        ReadyStays(a, b, k);
      }
    } else if Plans(a, b) {
      MoreKeepsInvariant(a, b);
    } else if Starts(a, b) {
      assert a == b[..|a|];
      assert Scanned(b[|a|].dependsOn) == [];
      MoreKeepsInvariant(a, b);
    }
  }

  lemma MoreKeepsInvariant(a: seq<Task>, b: seq<Task>)
    requires Invariant(a) && |a| <= |b| && a == b[..|a|] && OneChat(b)
    requires forall j :: |a| <= j < |b| && (b[j].status.Running? || b[j].status.Done?) ==> Scanned(b[j].dependsOn) == []
    ensures Invariant(b)
  {
    forall i | 0 <= i < |b| && (b[i].status.Running? || b[i].status.Done?) ensures Ready(b, i) {
      ReadyMeans(b, i);
      if i < |a| {
        ReadyMeans(a, i);
        forall key | key in Scanned(b[i].dependsOn) ensures Finished(b, b[i].coordinator, key) {
          assert b[i] == a[i] && Finished(a, a[i].coordinator, key);
          var j :| 0 <= j < |a| && a[j].coordinator == b[i].coordinator && a[j].key == key && a[j].status.Done?;
          assert b[j] == a[j];
        }
      }
    }
  }

  lemma RunGrows(run: seq<seq<Task>>, b: seq<Task>)
    requires IsRun(run) && Step(run[|run| - 1], b)
    ensures IsRun(run + [b])
  {
  }

  const ONE_TASK := Task(1, [], [], [], true, Queued, FREE)

  /** A task is started, waits for an answer, leaves the count, the next one is started, the first one goes on. */
  function WaitingRun(): (run: seq<seq<Task>>)
    ensures |run| == 6
  {
    var q := ONE_TASK;
    var r, p := q.(status := Running), q.(status := Running, hold := Hold(true, false));
    [[], [q, q], [r, q], [p, q], [p, r], [r, r]]
  }

  lemma WaitingRunIsRun()
    ensures IsRun(WaitingRun())
  {
    var run := WaitingRun();
    assert Scanned([]) == [];
    ReadyMeans(run[1], 0);
    ReadyMeans(run[3], 1);
    hide Ready;
    assert Plans(run[0], run[1]) && Moves(run[1], run[2], 0) && Moves(run[2], run[3], 0);
    assert Moves(run[3], run[4], 1) && Moves(run[4], run[5], 0);
    forall k | 0 <= k < 5 ensures Step(run[k], run[k + 1]) {
      hide Moves, Plans, Starts;
    }
  }

  lemma WaitingRunClaims()
    ensures ClaimsMeetRoom(WaitingRun(), Limits(1, 1, 1))
  {
    var run := WaitingRun();
    CountNone(run[1], All, Running);
    CountNone(run[1], Of(1), Running);
    CountNone(run[3], All, Running);
    CountNone(run[3], Of(1), Running);
    hide Count, Ready;
    forall k | 0 <= k < 5 ensures ClaimsInRoom(run[k], run[k + 1], Limits(1, 1, 1)) {
      assert k == 1 || k == 3 || forall i: nat :: !(Raises(run[k], run[k + 1], i) && Claims(run[k], i));
    }
  }

  lemma TwoRunning(r: Task)
    requires Counts(r, All, Running)
    ensures Count([r, r], All, Running) == 2
  {
    assert [r, r][..1] == [r] && [r][..0] == [];
    assert Count([r], All, Running) == 1;
  }

  /** With a cap of 1 and every claim made with room, a run without single tasks can end with two running tasks. */
  lemma WaitingBreaksTheCap()
    ensures exists run: seq<seq<Task>> ::
      && IsRun(run) && ClaimsMeetRoom(run, Limits(1, 1, 1)) && !Capped(run[|run| - 1], Limits(1, 1, 1))
      && forall k, t: Task :: 0 <= k < |run| && t in run[k] ==> t.coordinator != NO_COORDINATOR
  {
    var run := WaitingRun();
    WaitingRunIsRun();
    WaitingRunClaims();
    hide IsRun, ClaimsMeetRoom;
    TwoRunning(ONE_TASK.(status := Running));
    assert !Capped(run[|run| - 1], Limits(1, 1, 1));
  }

  /** Two single tasks exceed a cap of 1 without a claim and without a task that waits. */
  lemma SinglesBreakTheCap()
    ensures exists run: seq<seq<Task>> ::
      && IsRun(run) && !Capped(run[|run| - 1], Limits(1, 1, 1))
      && forall k, t: Task :: 0 <= k < |run| && t in run[k] ==> t == Single(true)
  {
    var r := Single(true);
    var run := [[], [r], [r, r]];
    assert Starts(run[0], run[1]) && Starts(run[1], run[2]);
    forall k | 0 <= k < 2 ensures Step(run[k], run[k + 1]) {
      hide Moves, Plans, Starts;
    }
    TwoRunning(r);
    assert !Capped(run[2], Limits(1, 1, 1));
    hide Capped;
    assert IsRun(run);
  }
}
