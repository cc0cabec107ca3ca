/** Progress: acyclic, resolved dependencies never get stuck, and a serial batch runs in order. */
module Progress {
  import opened Bytes
  import opened Json
  import opened Dependencies
  import opened Scheduler
  import opened Dispatch

  // ----- No run gets stuck -----

  /** Every dependency of the coordinator's tasks names one of its tasks, of smaller rank. */
  ghost predicate Resolved(tasks: seq<Task>, c: nat, rank: seq<nat>) {
    |rank| == |tasks| &&
    forall i, key {:trigger key in Scanned(tasks[i].dependsOn)} ::
      0 <= i < |tasks| && tasks[i].coordinator == c && key in Scanned(tasks[i].dependsOn) ==>
        exists j :: 0 <= j < |tasks| && tasks[j].coordinator == c && tasks[j].key == key && rank[j] < rank[i]
  }

  /** While no task of the coordinator has failed and none is running, a queued one is ready. */
  lemma {:induction false} NotStuck(tasks: seq<Task>, c: nat, rank: seq<nat>, i: nat) returns (k: nat)
    requires Resolved(tasks, c, rank)
    requires forall j :: 0 <= j < |tasks| && tasks[j].coordinator == c ==>
      tasks[j].status.Queued? || tasks[j].status.Done?
    requires i < |tasks| && tasks[i].coordinator == c && tasks[i].status.Queued?
    ensures Startable(tasks, c, k)
    decreases if i < |rank| then rank[i] else 0
  {
    ReadyMeans(tasks, i);
    if Ready(tasks, i) {
      k := i;
    } else {
      var key :| key in Scanned(tasks[i].dependsOn) && !Finished(tasks, c, key);
      var j :| 0 <= j < |tasks| && tasks[j].coordinator == c && tasks[j].key == key && rank[j] < rank[i];
      k := NotStuck(tasks, c, rank, j);
    }
  }

  lemma ResolvedStays(a: seq<Task>, b: seq<Task>, c: nat, rank: seq<nat>)
    requires Resolved(a, c, rank) && Advances(a, b)
    ensures Resolved(b, c, rank)
  {
    forall i, key | 0 <= i < |b| && b[i].coordinator == c && key in Scanned(b[i].dependsOn)
      ensures exists j :: 0 <= j < |b| && b[j].coordinator == c && b[j].key == key && rank[j] < rank[i]
    {
      assert TaskAdvances(a[i], b[i]);
      var j :| 0 <= j < |a| && a[j].coordinator == c && a[j].key == key && rank[j] < rank[i];
      assert TaskAdvances(a[j], b[j]);
    }
  }

  /** Every running task waits for an answer or reports a blocker. */
  ghost predicate NothingRuns(tasks: seq<Task>) {
    forall i :: 0 <= i < |tasks| ==> !Counts(tasks[i], All, Running)
  }

  /** The tasks of the coordinator can all get done: none has failed, waits or has an invalid kind, and their
      dependencies are resolved and acyclic. */
  ghost predicate Healthy(tasks: seq<Task>, c: nat, rank: seq<nat>) {
    && Resolved(tasks, c, rank)
    && forall i :: 0 <= i < |tasks| && tasks[i].coordinator == c ==>
      !tasks[i].status.Failed? && tasks[i].hold == FREE && tasks[i].kindValid
  }

  ghost predicate AllDone(tasks: seq<Task>, c: nat) {
    forall i :: 0 <= i < |tasks| && tasks[i].coordinator == c ==> tasks[i].status.Done?
  }

  function TaskWork(t: Task): nat {
    if t.status.Queued? then 2 else if t.status.Running? then 1 else 0
  }

  /** Steps that are left when every task ends. */
  function Work(tasks: seq<Task>): nat {
    if tasks == [] then 0 else Work(tasks[..|tasks| - 1]) + TaskWork(tasks[|tasks| - 1])
  }

  lemma {:induction false} SmoothlyWork(a: seq<Task>, b: seq<Task>)
    requires Smoothly(a, b)
    ensures Work(b) <= Work(a) && (Work(b) == Work(a) ==> a == b)
  {
    if a != [] {
      var n := |a| - 1;
      SmoothlyWork(a[..n], b[..n]);
      LessTaskWork(a[n], b[n]);
      assert a == a[..n] + [a[n]] && b == b[..n] + [b[n]];
    }
  }

  lemma LessTaskWork(a: Task, b: Task)
    requires TaskSucceeds(a, b)
    ensures TaskWork(b) <= TaskWork(a) && (TaskWork(b) == TaskWork(a) ==> a == b)
  {
  }

  /** Some running worker ends successfully, if there is one that does not wait; which one is open. */
  method FinishOne(store: TaskStore) returns (finished: bool)
    requires store.Valid()
    modifies store
    ensures store.Valid() && Smoothly(old(store.tasks), store.tasks)
    ensures finished == (store.tasks != old(store.tasks)) && (!finished ==> NothingRuns(store.tasks))
    ensures KeepsCaps(old(store.Run), store.Run, store.limits) && OnlyClaims(store.Run, |old(store.Run)|)
  {
    KeepsCapsSelf(store.Run, store.limits);
    hide KeepsCaps, OnlyClaims, Invariant, IsRun;
    finished := exists i :: 0 <= i < |store.tasks| && Counts(store.tasks[i], All, Running);
    if finished {
      var i: nat :| i < |store.tasks| && Counts(store.tasks[i], All, Running);
      store.FinishWorker(i, true);
    }
  }

  /** Fair passes over any coordinators, with workers that succeed at any time during a pass and at least one between
      two passes while any is running: all tasks of the healthy coordinators get done, whatever has failed or waits
      elsewhere, and no cap is exceeded on the way. */
  method RunToCompletion(store: TaskStore, active: seq<(nat, Bytes)>, ghost rank: seq<nat>)
    requires store.Valid()
    requires forall i, j :: 0 <= i < j < |active| ==> active[i].0 != active[j].0
    modifies store
    ensures store.Valid() && Smoothly(old(store.tasks), store.tasks)
    ensures forall a <- active :: Healthy(old(store.tasks), a.0, rank) ==> AllDone(store.tasks, a.0)
    ensures old(store.Run) <= store.Run
    ensures AllInChat(old(store.tasks), active) && Capped(old(store.tasks), store.limits) ==>
      forall k :: |old(store.Run)| <= k < |store.Run| ==> Capped(store.Run[k], store.limits)
  {
    hide Smoothly, Healthy, NothingRuns, AllDone, Work, FairTurn, SmoothTurn, OneEach, Advances;
    hide KeepsCaps, OnlyClaims, Capped, AllInChat, Invariant, IsRun;
    SmoothlySelf(store.tasks);
    KeepsCapsSelf(store.Run, store.limits);
    AdvancesSelf(store.tasks);
    var more := true;
    while more
      invariant store.Valid() && Smoothly(old(store.tasks), store.tasks) && Advances(old(store.tasks), store.tasks)
      invariant forall a <- active :: Healthy(old(store.tasks), a.0, rank) ==> Healthy(store.tasks, a.0, rank)
      invariant !more ==> forall a <- active :: Healthy(old(store.tasks), a.0, rank) ==> AllDone(store.tasks, a.0)
      invariant Adds(old(store.Run), store.Run, Loyal)
      invariant AllInChat(old(store.tasks), active) ==> KeepsCaps(old(store.Run), store.Run, store.limits)
      decreases Work(store.tasks), more
    {
      var before := store.tasks;
      ghost var run := store.Run;
      ghost var turns := store.LaunchForRuntime(active, Loyal, true);
      ghost var passed, runPassed := store.tasks, store.Run;
      var finished := FinishOne(store);
      more := store.tasks != before;
      RoundOfWork(before, passed, store.tasks);
      RoundOfCaps(old(store.Run), run, runPassed, store.Run, old(store.tasks), before, active, store.limits);
      AdvancesIsTransitive(old(store.tasks), before, store.tasks);
      SmoothlyIsTransitive(old(store.tasks), before, store.tasks);
      forall a | a in active && Healthy(old(store.tasks), a.0, rank) ensures Healthy(store.tasks, a.0, rank) {
        HealthyStays(before, store.tasks, a.0, rank);
      }
      if !more {
        forall a | a in active && Healthy(old(store.tasks), a.0, rank) ensures AllDone(store.tasks, a.0) {
          var n :| 0 <= n < |active| && active[n] == a;
          NothingLeft(store.tasks, a.0, a.1, rank, turns[n], store.limits);
        }
      }
    }
    CapsOfRun(old(store.Run), store.Run, store.limits);
  }

  lemma RoundOfWork(before: seq<Task>, passed: seq<Task>, after: seq<Task>)
    requires Smoothly(before, passed) && Smoothly(passed, after)
    ensures Smoothly(before, after) && Advances(before, after)
    ensures if after == before then passed == before else Work(after) < Work(before)
  {
    SmoothlyIsTransitive(before, passed, after);
    SmoothlyWork(before, passed);
    SmoothlyWork(passed, after);
    SmoothlyWork(before, after);
    assert forall i :: 0 <= i < |before| ==> TaskSucceeds(before[i], after[i]);
  }

  lemma RoundOfCaps(first: seq<seq<Task>>, run: seq<seq<Task>>, passed: seq<seq<Task>>, now: seq<seq<Task>>,
                    start: seq<Task>, before: seq<Task>, active: seq<(nat, Bytes)>, l: Limits)
    requires Adds(first, run, Loyal) && Adds(run, passed, Loyal) && KeepsCaps(passed, now, l)
    requires OnlyClaims(now, |passed|) && Advances(start, before)
    requires AllInChat(start, active) ==> KeepsCaps(first, run, l)
    requires AllInChat(before, active) ==> KeepsCaps(run, passed, l)
    ensures Adds(first, now, Loyal) && (AllInChat(start, active) ==> KeepsCaps(first, now, l))
  {
    hide OnlyClaims, Capped, AllInChat;
    AddsIsTransitive(first, run, passed, Loyal);
    AddsIsTransitive(first, passed, now, Loyal);
    if AllInChat(start, active) {
      AllInChatStays(start, before, active);
      KeepsCapsIsTransitive(first, run, passed, l);
      KeepsCapsIsTransitive(first, passed, now, l);
    }
  }

  lemma CapsOfRun(first: seq<seq<Task>>, now: seq<seq<Task>>, l: Limits)
    requires Adds(first, now, Loyal)
    ensures KeepsCaps(first, now, l) && Capped(first[|first| - 1], l) ==>
      forall k :: |first| <= k < |now| ==> Capped(now[k], l)
  {
    hide OnlyClaims, Capped;
  }

  lemma HealthyStays(a: seq<Task>, b: seq<Task>, c: nat, rank: seq<nat>)
    requires Smoothly(a, b) && Advances(a, b) && Healthy(a, c, rank)
    ensures Healthy(b, c, rank)
  {
    ResolvedStays(a, b, c, rank);
    assert forall i :: 0 <= i < |a| ==> TaskSucceeds(a[i], b[i]);
  }

  /** Where a pass starts and ends in the same state, all its states are the same. */
  lemma NothingBetween(t: Turn, tasks: seq<Task>)
    requires SmoothTurn(t, tasks, tasks)
    ensures t.seen == Seen(tasks, tasks, tasks)
  {
    SmoothlyWork(tasks, t.seen.counted);
    SmoothlyWork(t.seen.counted, t.seen.record);
    SmoothlyWork(t.seen.record, t.seen.asked);
    SmoothlyWork(t.seen.asked, tasks);
  }

  /** A pass that changed nothing while nothing runs: all is done. */
  lemma NothingLeft(tasks: seq<Task>, c: nat, chat: Bytes, rank: seq<nat>, t: Turn, l: Limits)
    requires NothingRuns(tasks) && Healthy(tasks, c, rank) && GoodLimits(l)
    requires FairTurn(c, chat, t, tasks, tasks, l) && SmoothTurn(t, tasks, tasks)
    ensures AllDone(tasks, c)
  {
    if i :| 0 <= i < |tasks| && tasks[i].coordinator == c && !tasks[i].status.Done? {
      assert !Counts(tasks[i], All, Running) && tasks[i].status.Queued?;
      CountNone(tasks, Of(c), Queued);
      assert Counts(tasks[i], Of(c), Queued);
      assert Turned(c, chat, t, tasks, tasks, l) && !t.launched;
      NothingBetween(t, tasks);
      CountNone(tasks, All, Running);
      CountNone(tasks, Of(c), Running);
      CountNone(tasks, Under(chat), Running);
      var k := NotStuck(tasks, c, rank, i);
    }
  }

  // ----- Serial batches -----

  const TASK_PREFIX: Bytes := [116, 97, 115, 107, 95]

  /** "task_%d". */
  function StepKey(n: nat): Bytes {
    TASK_PREFIX + Decimal(n)
  }

  /** The names a step of a serial batch depends on: the step before it. */
  function StepNames(i: nat): seq<Bytes> {
    if i == 0 then [] else [StepKey(i)]
  }

  /** The i-th task of a serial batch, as it arrives in the store. */
  function StepTask(c: nat, chat: Bytes, i: nat): Task {
    Task(c, chat, TaskKey(StepKey(i + 1)), Built(StepNames(i), DEPENDS_ON_LEN), true, Queued, FREE)
  }

  /** tool_delegate_build_user_prompt_serial_delegate_batch_json, with the request parser's list building. */
  method BuildSerialBatch(c: nat, chat: Bytes, total: nat) returns (batch: seq<Task>)
    ensures |batch| == total && forall i :: 0 <= i < total ==> batch[i] == StepTask(c, chat, i)
  {
    hide Built, TaskKey, StepKey, StepNames, CString, Filtered;
    batch := [];
    for i := 0 to total
      invariant |batch| == i && forall k :: 0 <= k < i ==> batch[k] == StepTask(c, chat, k)
    {
      var dependsOn := new byte[DEPENDS_ON_LEN](_ => NUL);
      BuildList(StepNames(i), dependsOn);
      var key := SanitizeTaskKey(StepKey(i + 1), KEY_LEN);
      assert key == TaskKey(StepKey(i + 1)) by { KeyIs(StepKey(i + 1)); }
      batch := batch + [Task(c, chat, key, CString(dependsOn[..]), true, Queued, FREE)];
    }
  }

  lemma KeyIs(name: Bytes)
    ensures TaskKey(name) == Prefix(Filtered(name), KEY_LEN - 1)
  {
  }

  /** "task_" and the number without leading zeros. */
  lemma StepKeyIs(n: nat)
    ensures StepKey(n) == [116, 97, 115, 107, 95] + Decimal(n)
    ensures n < 10 ==> Decimal(n) == [48 + n]
    ensures n >= 10 ==> Decimal(n) == Decimal(n / 10) + [48 + n % 10]
  {
  }

  /** The step keys survive sanitizing and scanning. */
  lemma StepKeys(i: nat)
    requires |StepKey(i + 1)| < KEY_LEN
    ensures TaskKey(StepKey(i + 1)) == StepKey(i + 1)
    ensures Scanned(Built(StepNames(i), DEPENDS_ON_LEN)) == StepNames(i)
  {
    KeyStays(StepKey(i + 1));
    if i > 0 {
      DecimalGrows(i);
      KeyStays(StepKey(i));
      assert Keys([StepKey(i)]) == [StepKey(i)];
      assert Joined([StepKey(i)]) == StepKey(i);
    }
    ScannedBuilt(StepNames(i), DEPENDS_ON_LEN);
  }

  lemma {:induction false} FilteredStays(s: Bytes)
    requires forall i :: 0 <= i < |s| ==> KeyByte(s[i]) && Lower(s[i]) == s[i]
    ensures Filtered(s) == s
  {
    if s != [] {
      FilteredStays(s[1..]);
      assert s == [s[0]] + s[1..];
    }
  }

  lemma KeyStays(s: Bytes)
    requires |s| < KEY_LEN && forall i :: 0 <= i < |s| ==> KeyByte(s[i]) && Lower(s[i]) == s[i]
    ensures TaskKey(s) == s
  {
    FilteredStays(s);
  }

  lemma {:induction false} DecimalGrows(n: nat)
    ensures |Decimal(n)| <= |Decimal(n + 1)|
  {
    if n >= 10 {
      if (n + 1) / 10 == n / 10 + 1 {
        DecimalGrows(n / 10);
      }
    }
  }

  lemma {:induction false} DecimalIsInjective(m: nat, n: nat)
    requires Decimal(m) == Decimal(n)
    ensures m == n
  {
    var s := Decimal(m);
    if m >= 10 && n >= 10 {
      assert Decimal(m / 10) == s[..|s| - 1] == Decimal(n / 10);
      DecimalIsInjective(m / 10, n / 10);
      assert s[|s| - 1] == 48 + m % 10 == 48 + n % 10;
    }
  }

  /** The coordinator's tasks are the steps of a serial batch, from position first on. */
  ghost predicate SerialBatchAt(tasks: seq<Task>, c: nat, chat: Bytes, first: nat, total: nat) {
    && first + total <= |tasks|
    && (forall i :: 0 <= i < |tasks| ==> (tasks[i].coordinator == c <==> first <= i < first + total))
    && (forall i: nat :: i < total ==> SameTask(StepTask(c, chat, i), tasks[first + i]))
  }

  /** In every state of every run, a step that has started finds all earlier steps done. */
  lemma {:induction false} SerialOrder(tasks: seq<Task>, c: nat, chat: Bytes, first: nat, total: nat, k: nat, i: nat)
    requires Safe(tasks) && SerialBatchAt(tasks, c, chat, first, total)
    requires |StepKey(total)| < KEY_LEN && k < i < total
    requires tasks[first + i].status.Running? || tasks[first + i].status.Done?
    ensures tasks[first + k].status.Done?
  {
    StepBefore(tasks, c, chat, first, total, i);
    if k < i - 1 {
      SerialOrder(tasks, c, chat, first, total, k, i - 1);
    }
  }

  lemma StepBefore(tasks: seq<Task>, c: nat, chat: Bytes, first: nat, total: nat, i: nat)
    requires Safe(tasks) && SerialBatchAt(tasks, c, chat, first, total)
    requires |StepKey(total)| < KEY_LEN && 0 < i < total
    requires tasks[first + i].status.Running? || tasks[first + i].status.Done?
    ensures tasks[first + i - 1].status.Done?
  {
    hide StepTask, StepKey, Ready, Scanned;
    StepFacts(tasks, c, chat, first, total, i);
    ReadyMeans(tasks, first + i);
    assert StepNames(i)[0] == StepKey(i);
    assert Finished(tasks, c, StepKey(i));
    var j :| 0 <= j < |tasks| && tasks[j].coordinator == c && tasks[j].key == StepKey(i) && tasks[j].status.Done?;
    StepOfKey(tasks, c, chat, first, total, j, i);
  }

  /** The key and the dependencies of a step. */
  lemma StepFacts(tasks: seq<Task>, c: nat, chat: Bytes, first: nat, total: nat, i: nat)
    requires SerialBatchAt(tasks, c, chat, first, total) && |StepKey(total)| < KEY_LEN && i < total
    ensures tasks[first + i].coordinator == c && tasks[first + i].key == StepKey(i + 1)
    ensures Scanned(tasks[first + i].dependsOn) == StepNames(i)
  {
    assert SameTask(StepTask(c, chat, i), tasks[first + i]);
    KeyLengths(i + 1, total);
    StepKeys(i);
  }

  /** Only one step carries the key. */
  lemma StepOfKey(tasks: seq<Task>, c: nat, chat: Bytes, first: nat, total: nat, j: nat, i: nat)
    requires SerialBatchAt(tasks, c, chat, first, total) && |StepKey(total)| < KEY_LEN
    requires j < |tasks| && tasks[j].coordinator == c && tasks[j].key == StepKey(i)
    ensures j == first + i - 1
  {
    hide StepTask, StepKey, StepNames, Scanned;
    assert first <= j < first + total;
    StepFacts(tasks, c, chat, first, total, j - first);
    StepKeyIsInjective(j - first + 1, i);
  }

  lemma StepKeyIsInjective(m: nat, n: nat)
    requires StepKey(m) == StepKey(n)
    ensures m == n
  {
    assert StepKey(m)[|TASK_PREFIX|..] == Decimal(m) && StepKey(n)[|TASK_PREFIX|..] == Decimal(n);
    DecimalIsInjective(m, n);
  }

  lemma {:induction false} KeyLengths(i: nat, total: nat)
    requires i <= total
    ensures |StepKey(i)| <= |StepKey(total)|
    decreases total - i
  {
    if i < total {
      DecimalGrows(i);
      KeyLengths(i + 1, total);
    }
  }

  /** The dependencies of a serial batch are resolved and acyclic. */
  lemma SerialIsResolved(tasks: seq<Task>, c: nat, chat: Bytes, first: nat, total: nat)
    requires SerialBatchAt(tasks, c, chat, first, total) && |StepKey(total)| < KEY_LEN
    ensures Resolved(tasks, c, seq(|tasks|, i => i))
  {
    hide StepTask, StepKey, Scanned, SerialBatchAt;
    var rank := seq(|tasks|, i => i);
    forall i, key | 0 <= i < |tasks| && tasks[i].coordinator == c && key in Scanned(tasks[i].dependsOn)
      ensures exists j :: 0 <= j < |tasks| && tasks[j].coordinator == c && tasks[j].key == key && rank[j] < rank[i]
    {
      StepResolved(tasks, c, chat, first, total, i, key);
      assert rank[i - 1] < rank[i];
    }
  }

  lemma StepResolved(tasks: seq<Task>, c: nat, chat: Bytes, first: nat, total: nat, i: nat, key: Bytes)
    requires SerialBatchAt(tasks, c, chat, first, total) && |StepKey(total)| < KEY_LEN
    requires i < |tasks| && tasks[i].coordinator == c && key in Scanned(tasks[i].dependsOn)
    ensures i > 0 && tasks[i - 1].coordinator == c && tasks[i - 1].key == key
  {
    hide StepTask, StepKey, Scanned;
    assert first <= i < first + total;
    var n := i - first;
    StepFacts(tasks, c, chat, first, total, n);
    assert n > 0 && key == StepKey(n);
    hide SerialBatchAt, StepNames;
    StepFacts(tasks, c, chat, first, total, n - 1);
  }

  /** A serial batch given to an empty coordinator: with successful workers every step gets done, whatever else is
      in the store, and no cap is exceeded on the way. */
  method RunSerialBatch(store: TaskStore, c: nat, chat: Bytes, total: nat)
    requires store.Valid() && |StepKey(total)| < KEY_LEN
    requires forall i :: 0 <= i < |store.tasks| ==> store.tasks[i].coordinator != c
    modifies store
    ensures store.Valid() && SerialBatchAt(store.tasks, c, chat, |old(store.tasks)|, total)
    ensures AllDone(store.tasks, c) && old(store.Run) <= store.Run
    ensures Capped(old(store.tasks), store.limits) ==>
      forall k :: |old(store.Run)| <= k < |store.Run| ==> Capped(store.Run[k], store.limits)
  {
    ghost var before := store.tasks;
    ghost var run := store.Run;
    var batch := BuildSerialBatch(c, chat, total);
    BatchFacts(before, batch, c, chat, total);
    store.AddBatch(c, chat, batch);
    ghost var queued, planned := store.tasks, store.Run;
    SerialIsResolved(queued, c, chat, |before|, total);
    hide StepTask, StepKey, Scanned, Resolved, Invariant, Smoothly, AllDone, Capped, OnlyClaims, IsRun;
    var active := [(c, chat)];
    RunToCompletion(store, active, seq(|queued|, i => i));
    assert active[0] in active;
    SerialStays(queued, store.tasks, c, chat, |before|, total);
    hide SerialBatchAt;
    assert Capped(before, store.limits) ==> forall k :: |run| <= k < |planned| ==> Capped(planned[k], store.limits);
    assert planned[|planned| - 1] == queued;
  }

  lemma BatchFacts(before: seq<Task>, batch: seq<Task>, c: nat, chat: Bytes, total: nat)
    requires |batch| == total
    requires forall i :: 0 <= i < |before| ==> before[i].coordinator != c
    requires forall i :: 0 <= i < total ==> batch[i] == StepTask(c, chat, i)
    ensures InChat(before, c, chat) && forall t <- batch :: t.coordinator == c && t.chat == chat && t.status.Queued?
    ensures SerialBatchAt(before + batch, c, chat, |before|, total)
    ensures AllInChat(before + batch, [(c, chat)])
    ensures forall i :: 0 <= i < |before + batch| && (before + batch)[i].coordinator == c ==>
      && !(before + batch)[i].status.Failed?
      && (before + batch)[i].hold == FREE && (before + batch)[i].kindValid
  {
    hide TaskKey, Built, StepKey;
    var all := before + batch;
    assert forall i :: 0 <= i < |before| ==> all[i] == before[i];
    assert forall i :: |before| <= i < |all| ==> all[i] == StepTask(c, chat, i - |before|);
  }

  lemma SerialStays(a: seq<Task>, b: seq<Task>, c: nat, chat: Bytes, first: nat, total: nat)
    requires Smoothly(a, b) && SerialBatchAt(a, c, chat, first, total)
    ensures |a| == |b| && SerialBatchAt(b, c, chat, first, total)
  {
    hide StepTask;
  }
}
