/** The life of a background task, driven by timers, callers and its process, and the table of
    tasks with its bounded capacity. */
module BackgroundTasks {
  import opened Wrappers

  datatype Status = Running | Completed | Failed | Cancelled | TimedOut

  datatype Signal = Terminate | Kill

  /** Everything that happens to a task, and the signals it sends to its process. */
  datatype Happening =
    | TimerFired
    | CancelCalled
    | Closed(exitCode: Option<int>)
    | Sent(signal: Signal)

  // ------------------------------------------------------------------ first cause wins

  predicate IsCause(h: Happening) {
    h.TimerFired? || h.CancelCalled?
  }

  /** The first timeout or cancellation, if there was one. */
  function FirstCause(trail: seq<Happening>): Option<Happening> {
    if trail == [] then None
    else if IsCause(trail[0]) then Some(trail[0])
    else FirstCause(trail[1..])
  }

  predicate Open(trail: seq<Happening>) {
    forall h | h in trail :: !h.Closed?
  }

  function StatusFor(cause: Option<Happening>, exitCode: Option<int>): Status {
    match cause
    case Some(TimerFired) => TimedOut
    case Some(_) => Cancelled
    case None => if exitCode == Some(0) then Completed else Failed
  }

  predicate ClosesAt(trail: seq<Happening>, n: nat) {
    n < |trail| && trail[n].Closed? && Open(trail[..n])
  }

  /** The status a task must have after a trail: what came first up to the first close decides. */
  ghost predicate FirstCauseWins(trail: seq<Happening>, status: Status) {
    if Open(trail) then status == Running
    else exists n: nat :: ClosesAt(trail, n) && status == StatusFor(FirstCause(trail[..n]), trail[n].exitCode)
  }

  /** No signal is sent once the process has closed. */
  ghost predicate QuietAfterClose(trail: seq<Happening>) {
    forall i, j | 0 <= i < j < |trail| && trail[i].Closed? :: !trail[j].Sent?
  }

  /** A process is asked to terminate before it is killed. */
  ghost predicate AskedFirst(trail: seq<Happening>) {
    forall i | 0 <= i < |trail| && trail[i] == Sent(Kill) :: Sent(Terminate) in trail[..i]
  }

  /** Happening i is a cause, and none comes before it. */
  predicate CausesFirst(trail: seq<Happening>, i: nat) {
    i < |trail| && IsCause(trail[i]) && forall j | 0 <= j < i :: !IsCause(trail[j])
  }

  lemma {:induction false} FirstCauseExactly(trail: seq<Happening>)
    ensures FirstCause(trail).None? <==> forall i: nat :: !CausesFirst(trail, i)
    ensures forall i: nat | CausesFirst(trail, i) :: FirstCause(trail) == Some(trail[i])
    ensures FirstCause(trail).Some? ==> exists i: nat :: CausesFirst(trail, i)
    ensures FirstCause(trail).None? ==> forall h | h in trail :: !IsCause(h)
  {
    if trail != [] && !IsCause(trail[0]) {
      FirstCauseExactly(trail[1..]);
      forall i: nat
        ensures CausesFirst(trail, i + 1) <==> CausesFirst(trail[1..], i)
      {
        assert i + 1 < |trail| ==> trail[i + 1] == trail[1..][i];
        assert forall j | 0 <= j < i && i < |trail[1..]| :: trail[1..][j] == trail[j + 1];
      }
      assert FirstCause(trail).Some? ==> exists i: nat :: CausesFirst(trail[1..], i);
      if FirstCause(trail).Some? {
        var i: nat :| CausesFirst(trail[1..], i);
        assert CausesFirst(trail, i + 1);
      }
      forall i: nat | CausesFirst(trail, i)
        ensures FirstCause(trail) == Some(trail[i])
      {
        assert i > 0 && CausesFirst(trail[1..], i - 1);
      }
    } else if trail != [] {
      assert CausesFirst(trail, 0);
    }
  }

  /** The timeout fired before process closed, and no cancellation came before it. */
  ghost predicate TimedOutFirst(trail: seq<Happening>, closed: nat) {
    exists i: nat ::
      i < closed <= |trail| && trail[i] == TimerFired && forall j | 0 <= j < i :: trail[j] != CancelCalled
  }

  ghost predicate CancelledFirst(trail: seq<Happening>, closed: nat) {
    exists i: nat ::
      i < closed <= |trail| && trail[i] == CancelCalled && forall j | 0 <= j < i :: trail[j] != TimerFired
  }

  /** The final status, read off the trail: what came first up to the close at place closed. */
  lemma StatusExactly(trail: seq<Happening>, closed: nat, status: Status)
    requires FirstCauseWins(trail, status) && ClosesAt(trail, closed)
    ensures status == TimedOut <==> TimedOutFirst(trail, closed)
    ensures status == Cancelled <==> CancelledFirst(trail, closed)
    ensures status == Completed <==>
              !TimedOutFirst(trail, closed) && !CancelledFirst(trail, closed) && trail[closed].exitCode == Some(0)
    ensures status == Failed <==>
              !TimedOutFirst(trail, closed) && !CancelledFirst(trail, closed) && trail[closed].exitCode != Some(0)
  {
    OneClose(trail, closed, status);
    var before := trail[..closed];
    FirstCauseExactly(before);
    hide FirstCause, FirstCauseWins, ClosesAt;
    CausesAre(trail, closed);
    if FirstCause(before).Some? {
      var i: nat :| CausesFirst(before, i);
      assert trail[i] == before[i];
    }
  }

  lemma OneClose(trail: seq<Happening>, closed: nat, status: Status)
    requires FirstCauseWins(trail, status) && ClosesAt(trail, closed)
    ensures closed < |trail| && trail[closed].Closed?
    ensures status == StatusFor(FirstCause(trail[..closed]), trail[closed].exitCode)
  {
    assert trail[closed] in trail && !Open(trail);
    var n: nat :| ClosesAt(trail, n) && status == StatusFor(FirstCause(trail[..n]), trail[n].exitCode);
    assert forall i | 0 <= i < n :: trail[i] in trail[..n];
    assert forall i | 0 <= i < closed :: trail[i] in trail[..closed];
  }

  lemma CausesAre(trail: seq<Happening>, closed: nat)
    requires closed <= |trail|
    ensures TimedOutFirst(trail, closed)
            <==> exists i: nat :: CausesFirst(trail[..closed], i) && trail[..closed][i] == TimerFired
    ensures CancelledFirst(trail, closed)
            <==> exists i: nat :: CausesFirst(trail[..closed], i) && trail[..closed][i] == CancelCalled
  {
    var before := trail[..closed];
    FirstCauseExactly(before);
    hide FirstCause;
    if TimedOutFirst(trail, closed) || CancelledFirst(trail, closed) {
      var k: nat :| k < closed && IsCause(trail[k]);
      assert before[k] in before;
      var i: nat :| CausesFirst(before, i);
      assert trail[i] == before[i];
    }
    forall i: nat | CausesFirst(before, i)
      ensures trail[i] == before[i] && i < closed && forall j | 0 <= j < i :: !IsCause(trail[j])
    {
      assert forall j | 0 <= j < i :: trail[j] == before[j];
    }
  }

  lemma {:induction false} FirstCauseOfMore(trail: seq<Happening>, h: Happening)
    ensures FirstCause(trail + [h])
            == if FirstCause(trail).Some? then FirstCause(trail) else if IsCause(h) then Some(h) else None
  {
    if trail != [] {
      assert (trail + [h])[1..] == trail[1..] + [h];
      if !IsCause(trail[0]) {
        FirstCauseOfMore(trail[1..], h);
      }
    }
  }

  /** Once decided, the status never changes again, whatever still happens. */
  lemma DecidedForGood(trail: seq<Happening>, more: seq<Happening>, status: Status, later: Status)
    requires FirstCauseWins(trail, status) && !Open(trail)
    requires FirstCauseWins(trail + more, later)
    ensures later == status && status != Running
  {
    var n: nat :| ClosesAt(trail, n) && status == StatusFor(FirstCause(trail[..n]), trail[n].exitCode);
    var all := trail + more;
    assert all[n].Closed? && all[..n] == trail[..n];
    assert !Open(all);
    assert forall i | 0 <= i < n :: all[i] in trail[..n];
    var m: nat :| ClosesAt(all, m) && later == StatusFor(FirstCause(all[..m]), all[m].exitCode);
    assert forall i | 0 <= i < m :: all[i] in all[..m];
  }

  lemma OneMore(trail: seq<Happening>, h: Happening, status: Status)
    requires FirstCauseWins(trail, status)
    ensures Open(trail) && !h.Closed? ==> FirstCauseWins(trail + [h], Running)
    ensures Open(trail) && h.Closed? ==> FirstCauseWins(trail + [h], StatusFor(FirstCause(trail), h.exitCode))
    ensures !Open(trail) ==> FirstCauseWins(trail + [h], status)
    ensures Open(trail + [h]) <==> Open(trail) && !h.Closed?
  {
    var all := trail + [h];
    assert h in all && forall g | g in trail :: g in all;
    if Open(trail) {
      assert all[..|trail|] == trail && all[|trail|] == h;
      assert h.Closed? ==> ClosesAt(all, |trail|);
    } else {
      var n: nat :| ClosesAt(trail, n) && status == StatusFor(FirstCause(trail[..n]), trail[n].exitCode);
      assert all[..n] == trail[..n] && ClosesAt(all, n);
    }
  }

  lemma SignalsKept(trail: seq<Happening>, h: Happening)
    requires QuietAfterClose(trail) && AskedFirst(trail)
    requires h.Sent? ==> Open(trail)
    requires h == Sent(Kill) ==> Sent(Terminate) in trail
    ensures QuietAfterClose(trail + [h]) && AskedFirst(trail + [h])
  {
    var all := trail + [h];
    forall i, j | 0 <= i < j < |all| && all[i].Closed?
      ensures !all[j].Sent?
    {
      assert all[i] in trail;
    }
    forall i | 0 <= i < |all| && all[i] == Sent(Kill)
      ensures Sent(Terminate) in all[..i]
    {
      assert all[..i] == trail[..i];
      assert trail[..|trail|] == trail;
    }
  }

  lemma Closing(trail: seq<Happening>, exitCode: Option<int>)
    requires FirstCauseWins(trail, Running) && QuietAfterClose(trail) && AskedFirst(trail) && Open(trail)
    ensures var all := trail + [Closed(exitCode)];
      && FirstCauseWins(all, StatusFor(FirstCause(trail), exitCode)) && !Open(all)
      && QuietAfterClose(all) && AskedFirst(all)
  {
    OneMore(trail, Closed(exitCode), Running);
    SignalsKept(trail, Closed(exitCode));
  }

  /** The two flags are all that the status needs to remember of the first cause. */
  lemma FlagsDecide(cause: Option<Happening>, timedOut: bool, cancelled: bool, exitCode: Option<int>)
    requires timedOut <==> cause == Some(TimerFired)
    requires cancelled || timedOut <==> cause.Some?
    ensures StatusFor(cause, exitCode)
            == if timedOut then TimedOut else if cancelled then Cancelled
               else if exitCode == Some(0) then Completed else Failed
  {
  }

  // ------------------------------------------------------------------ a task

  class BackgroundTask {
    const key: (string, string)  // workspace root and task id
    const fingerprint: string
    const startedAtMs: int
    var status: Status
    var timedOut: bool
    var cancellationRequested: bool
    var exitCode: Option<int>
    var completedAtMs: Option<int>
    var timeoutPending: bool
    var forcePending: bool
    ghost var trail: seq<Happening>

    ghost predicate Recorded()
      reads this
    {
      && FirstCauseWins(trail, status) && QuietAfterClose(trail) && AskedFirst(trail)
      && (status.Running? <==> Open(trail))
    }

    ghost predicate Valid()
      reads this
    {
      && Recorded()
      && (status.Running? <==> completedAtMs.None?)
      && (forcePending ==> Sent(Terminate) in trail)
      && (if status.Running?
          then && (timedOut <==> FirstCause(trail) == Some(TimerFired))
               && (cancellationRequested || timedOut <==> FirstCause(trail).Some?)
               && (cancellationRequested || timedOut ==> !timeoutPending)
          else !timeoutPending && !forcePending)
    }

    /** Settled, or cancelled and killed. */
    ghost predicate Stopping()
      reads this
    {
      status.Running? ==> Sent(Kill) in trail && FirstCause(trail).Some?
    }

    constructor (key: (string, string), fingerprint: string, now: int)
      ensures Valid() && status == Running && trail == [] && timeoutPending && !cancellationRequested
      ensures this.key == key && this.fingerprint == fingerprint
    {
      this.key, this.fingerprint, startedAtMs := key, fingerprint, now;
      status, timedOut, cancellationRequested, exitCode, completedAtMs := Running, false, false, None, None;
      timeoutPending, forcePending, trail := true, false, [];
    }

    ghost method Note(h: Happening)
      requires Recorded()
      requires h.Sent? ==> status.Running?
      requires h == Sent(Kill) ==> Sent(Terminate) in trail
      requires h.Closed? ==> !status.Running?
      modifies `trail
      ensures Recorded() && trail == old(trail) + [h]
      ensures FirstCause(trail) == if old(FirstCause(trail)).Some? then old(FirstCause(trail))
                                   else if IsCause(h) then Some(h) else None
      ensures forall g | g in old(trail) :: g in trail
      ensures h in trail
    {
      OneMore(trail, h, status);
      SignalsKept(trail, h);
      FirstCauseOfMore(trail, h);
      trail := trail + [h];
    }

    /** Ask the process tree to end; immediate kills at once instead of a second later. */
    method EndProcess(immediate: bool)
      requires Recorded() && status.Running?
      modifies `timeoutPending, `forcePending, `trail
      ensures Recorded() && !timeoutPending && Sent(Terminate) in trail
      ensures forcePending == !immediate
      ensures FirstCause(trail) == old(FirstCause(trail))
      ensures trail == old(trail) + if immediate then [Sent(Terminate), Sent(Kill)] else [Sent(Terminate)]
    {
      timeoutPending := false;
      Note(Sent(Terminate));
      if immediate {
        forcePending := false;
        Note(Sent(Kill));
        return;
      }
      forcePending := true;
    }

    /** The timeout's callback; a timer that was cleared does not fire. */
    method OnTimeout()
      requires Valid() && timeoutPending
      modifies this
      ensures Valid() && status == old(status)
      ensures trail == old(trail) + [TimerFired, Sent(Terminate)]
    {
      timeoutPending := false;
      if !status.Running? {
        return;
      }
      timedOut := true;
      Note(TimerFired);
      EndProcess(false);
    }

    /** The callback of the timer that EndProcess sets. */
    method OnForce()
      requires Valid() && forcePending
      modifies this
      ensures Valid() && status == old(status)
      ensures trail == old(trail) + [Sent(Kill)]
    {
      forcePending := false;
      if status.Running? {
        Note(Sent(Kill));
      }
    }

    /** cancel, or with immediate the part of stopWorkspace and close that concerns one task. */
    method Cancel(immediate: bool)
      requires Valid()
      modifies this
      ensures Valid() && status == old(status)
      ensures trail == old(trail)
                       + if !old(status).Running? then []
                         else if immediate then [CancelCalled, Sent(Terminate), Sent(Kill)]
                         else [CancelCalled, Sent(Terminate)]
      ensures immediate ==> Stopping()
    {
      if !status.Running? {
        return;
      }
      cancellationRequested := true;
      Note(CancelCalled);
      EndProcess(immediate);
    }

    /** The process closed, or could not be spawned. */
    method Finish(exitCode: Option<int>, now: int)
      requires Valid()
      modifies this
      ensures Valid() && !status.Running?
      ensures if old(status).Running?
              then trail == old(trail) + [Closed(exitCode)] && completedAtMs == Some(now) && this.exitCode == exitCode
              else trail == old(trail) && status == old(status) && completedAtMs == old(completedAtMs)
    {
      if !status.Running? {
        return;
      }
      Settle(exitCode, now);
    }

    method Settle(exitCode: Option<int>, now: int)
      requires Valid() && status.Running?
      modifies this
      ensures Valid() && !status.Running?
      ensures trail == old(trail) + [Closed(exitCode)] && completedAtMs == Some(now) && this.exitCode == exitCode
    {
      hide FirstCauseWins, QuietAfterClose, AskedFirst, Open, FirstCause;
      Closing(trail, exitCode);
      FlagsDecide(FirstCause(trail), timedOut, cancellationRequested, exitCode);
      timeoutPending, forcePending := false, false;
      completedAtMs, this.exitCode := Some(now), exitCode;
      status := if timedOut then TimedOut
                else if cancellationRequested then Cancelled
                else if exitCode == Some(0) then Completed
                else Failed;
      trail := trail + [Closed(exitCode)];
    }
  }

  datatype Occasion = Timeout | Force | CancelRequest | StopRequest | Close(exitCode: Option<int>, now: int)

  /** Any order of timers, cancellations, workspace stops and process events. */
  method AnyLife(task: BackgroundTask, occasions: seq<Occasion>)
    requires task.Valid() && task.trail == []
    modifies task
    ensures task.Valid()
    ensures FirstCauseWins(task.trail, task.status) && QuietAfterClose(task.trail) && AskedFirst(task.trail)
  {
    for i := 0 to |occasions|
      invariant task.Valid()
    {
      match occasions[i]
      case Timeout => if task.timeoutPending { task.OnTimeout(); }
      case Force => if task.forcePending { task.OnForce(); }
      case CancelRequest => task.Cancel(false);
      case StopRequest => task.Cancel(true);
      case Close(exitCode, now) => task.Finish(exitCode, now);
    }
  }

  // ------------------------------------------------------------------ the table of tasks

  type TaskKey = (string, string)

  ghost predicate Keyed(tasks: map<TaskKey, BackgroundTask>)
    reads tasks.Values
  {
    forall k | k in tasks :: tasks[k].key == k && tasks[k].Valid()
  }

  function RunningKeys(tasks: map<TaskKey, BackgroundTask>): set<TaskKey>
    reads tasks.Values
  {
    set k | k in tasks && tasks[k].status.Running?
  }

  function SettledKeys(tasks: map<TaskKey, BackgroundTask>): set<TaskKey>
    reads tasks.Values
  {
    set k | k in tasks && !tasks[k].status.Running?
  }

  function CompletedAt(task: BackgroundTask): int
    reads task
  {
    if task.completedAtMs.Some? then task.completedAtMs.value else task.startedAtMs
  }

  /** Only settled tasks were taken out, and none that completed after one that stayed. */
  ghost predicate EvictsOldest(before: map<TaskKey, BackgroundTask>, after: map<TaskKey, BackgroundTask>)
    reads before.Values
  {
    && after.Keys <= before.Keys && (forall k | k in after :: after[k] == before[k])
    && (forall k | k in before && k !in after ::
          && !before[k].status.Running?
          && forall j | j in after && !before[j].status.Running? :: CompletedAt(before[k]) <= CompletedAt(before[j]))
  }

  function Without(tasks: map<TaskKey, BackgroundTask>, k: TaskKey): map<TaskKey, BackgroundTask> {
    tasks - {k}
  }

  ghost predicate IsOldest(tasks: map<TaskKey, BackgroundTask>, settled: set<TaskKey>, oldest: TaskKey)
    requires settled <= tasks.Keys
    reads tasks.Values
  {
    oldest in settled && forall j | j in settled :: CompletedAt(tasks[oldest]) <= CompletedAt(tasks[j])
  }

  /** On the way: settled are the ones that could still go. */
  ghost predicate Evicting(
    before: map<TaskKey, BackgroundTask>, after: map<TaskKey, BackgroundTask>, settled: set<TaskKey>)
    reads before.Values
  {
    && EvictsOldest(before, after)
    && settled <= before.Keys && RunningKeys(before) !! settled
    && after.Keys == RunningKeys(before) + settled
    && |after| == |RunningKeys(before)| + |settled|
  }

  lemma EvictsNothingYet(before: map<TaskKey, BackgroundTask>)
    ensures Evicting(before, before, SettledKeys(before))
  {
    var running, settled := RunningKeys(before), SettledKeys(before);
    assert before.Keys == running + settled;
    Parts(before.Keys, running, settled);
  }

  /** Taking out one more, the oldest of the settled ones that are left. */
  lemma EvictsOneMore(
    before: map<TaskKey, BackgroundTask>, after: map<TaskKey, BackgroundTask>, settled: set<TaskKey>, oldest: TaskKey)
    requires Evicting(before, after, settled) && oldest in settled
    requires settled <= before.Keys && IsOldest(before, settled, oldest)
    ensures Evicting(before, Without(after, oldest), settled - {oldest})
  {
    var fewer := Without(after, oldest);
    assert fewer.Keys == RunningKeys(before) + (settled - {oldest});
    Parts(fewer.Keys, RunningKeys(before), settled - {oldest});
  }

  lemma Evicted(before: map<TaskKey, BackgroundTask>, after: map<TaskKey, BackgroundTask>, settled: set<TaskKey>)
    requires Evicting(before, after, settled)
    ensures EvictsOldest(before, after)
    ensures settled <= before.Keys
    ensures Keyed(before) ==> Keyed(after)
    ensures |after| == |RunningKeys(before)| + |settled|
    ensures settled == {} ==> after.Keys == RunningKeys(before)
  {
    assert forall k | k in after :: after[k] == before[k];
  }

  lemma Parts<T>(whole: set<T>, a: set<T>, b: set<T>)
    requires whole == a + b && a !! b
    ensures |whole| == |a| + |b|
  {
  }

  lemma OldestIsSettled(tasks: map<TaskKey, BackgroundTask>, settled: set<TaskKey>, oldest: TaskKey)
    requires settled <= tasks.Keys && IsOldest(tasks, settled, oldest)
    ensures oldest in settled && |settled - {oldest}| == |settled| - 1
  {
  }

  /** The settled task that completed first. */
  method Oldest(tasks: map<TaskKey, BackgroundTask>, settled: set<TaskKey>) returns (oldest: TaskKey)
    requires settled != {} && settled <= tasks.Keys
    ensures IsOldest(tasks, settled, oldest)
  {
    oldest :| oldest in settled;
    var left := settled - {oldest};
    while left != {}
      invariant left <= settled && oldest in settled
      invariant forall k | k in settled && k !in left :: CompletedAt(tasks[oldest]) <= CompletedAt(tasks[k])
      decreases |left|
    {
      var k :| k in left;
      if CompletedAt(tasks[k]) < CompletedAt(tasks[oldest]) {
        oldest := k;
      }
      left := left - {k};
    }
  }

  /** The task under key is running, or completed after the cutoff. */
  ghost predicate Knows(tasks: map<TaskKey, BackgroundTask>, key: TaskKey, cutoff: int)
    reads tasks.Values
  {
    key in tasks
    && (tasks[key].status.Running? || tasks[key].completedAtMs.None? || tasks[key].completedAtMs.value > cutoff)
  }

  /** Exactly the tasks that are known after the cutoff stay. */
  ghost predicate PrunedTo(before: map<TaskKey, BackgroundTask>, after: map<TaskKey, BackgroundTask>, cutoff: int)
    reads before.Values
  {
    && (forall k :: k in after <==> Knows(before, k, cutoff))
    && (forall k | k in after :: after[k] == before[k])
  }

  class RemoteBackgroundTasks {
    const maxTasks: nat
    const retentionMs: int
    var tasks: map<TaskKey, BackgroundTask>

    constructor (maxTasks: nat, retentionMs: int)
      ensures Keyed(tasks) && tasks == map[]
    {
      this.maxTasks, this.retentionMs, tasks := maxTasks, retentionMs, map[];
    }

    /** Make room for one task.  Running tasks are never given up; settled ones are, oldest
        first and only as many as it takes, except that a refusal has given up all of them. */
    method MakeCapacity() returns (granted: bool)
      requires Keyed(tasks)
      modifies `tasks
      ensures Keyed(tasks) && EvictsOldest(old(tasks), tasks)
      ensures granted <==> |RunningKeys(old(tasks))| < maxTasks
      ensures granted ==> |tasks| == if |old(tasks)| < maxTasks then |old(tasks)| else maxTasks - 1
      ensures !granted ==> tasks.Keys == RunningKeys(old(tasks))
    {
      hide *;
      var before := tasks;
      EvictsNothingYet(before);
      var settled := SettledKeys(tasks);
      Evicted(before, tasks, settled);
      while |tasks| >= maxTasks && settled != {}
        invariant Evicting(before, tasks, settled)
        invariant |tasks| == |RunningKeys(before)| + |settled|
        invariant settled <= before.Keys
        invariant |tasks| == |before| || maxTasks <= |tasks| + 1 <= |before|
        decreases |settled|
      {
        var oldest := Oldest(before, settled);
        OldestIsSettled(before, settled, oldest);
        EvictsOneMore(before, tasks, settled, oldest);
        tasks := Without(tasks, oldest);
        settled := settled - {oldest};
        Evicted(before, tasks, settled);
      }
      Evicted(before, tasks, settled);
      granted := |tasks| < maxTasks;
    }

    /** Settled tasks go once they have been kept long enough. */
    method Prune(now: int)
      requires Keyed(tasks)
      modifies `tasks
      ensures Keyed(tasks) && PrunedTo(old(tasks), tasks, now - retentionMs)
    {
      var cutoff := now - retentionMs;
      tasks := map k | k in tasks
        && !(!tasks[k].status.Running? && tasks[k].completedAtMs.Some? && tasks[k].completedAtMs.value <= cutoff)
        :: tasks[k];
    }

    /** start, taken as one step: the directory checks and the wait for the process are left
        out.  A running task is never given up, a known id is never run again, and the table
        stays within its bound. */
    method Start(key: TaskKey, fingerprint: string, now: int) returns (started: Started)
      requires Keyed(tasks)
      modifies `tasks
      ensures Keyed(tasks) && (|old(tasks)| <= maxTasks ==> |tasks| <= maxTasks)
      ensures KeepsRunning(old(tasks), tasks)
      ensures started.Summary? ==> key in tasks && tasks[key] == started.task && started.task.fingerprint == fingerprint
      ensures started.Summary? ==>
                && (started.outcome.Executed? ==> fresh(started.task) && started.task.status.Running?)
                && (!started.outcome.Executed? ==> key in old(tasks) && started.task == old(tasks)[key])
                && (started.outcome.Joined? ==> started.task.status.Running?)
                && (started.outcome.Replayed? ==> !started.task.status.Running?)
      ensures started.Mismatch? ==> tasks.Keys <= old(tasks).Keys
      ensures
        var known := old(Knows(tasks, key, now - retentionMs));
        var same := known && old(tasks)[key].fingerprint == fingerprint;
        && (started.Mismatch? <==> known && !same)
        && (started.Summary? && started.outcome.Joined? <==> same && old(tasks[key].status).Running?)
        && (started.Summary? && started.outcome.Replayed? <==> same && !old(tasks[key].status).Running?)
        && (started.Summary? && started.outcome.Executed? <==> !known && |RunningKeys(old(tasks))| < maxTasks)
        && (started.CapacityFull? <==> !known && |RunningKeys(old(tasks))| >= maxTasks)
    {
      hide Keyed, RunningKeys, EvictsOldest, PrunedTo, KeepsRunning, Knows;
      var before := tasks;
      Prune(now);
      var pruned := tasks;
      PrunedAreFewer(before, pruned, now - retentionMs, key);
      if key in tasks {
        var existing := tasks[key];
        if existing.fingerprint != fingerprint {
          return Mismatch;
        }
        return Summary(if existing.status.Running? then Joined else Replayed, existing);
      }
      var granted := MakeCapacity();
      EvictionKeepsRunning(before, pruned, tasks);
      if !granted {
        return CapacityFull;
      }
      var task := Enter(key, fingerprint, now, before);
      return Summary(Executed, task);
    }

    method Enter(key: TaskKey, fingerprint: string, now: int, ghost before: map<TaskKey, BackgroundTask>)
      returns (task: BackgroundTask)
      requires Keyed(tasks) && key !in tasks && KeepsRunning(before, tasks)
      modifies `tasks
      ensures fresh(task) && task.status.Running? && task.fingerprint == fingerprint
      ensures tasks == old(tasks)[key := task] && |tasks| == |old(tasks)| + 1
      ensures Keyed(tasks) && KeepsRunning(before, tasks)
    {
      hide Keyed, KeepsRunning;
      task := new BackgroundTask(key, fingerprint, now);
      AddedTask(before, tasks, key, task);
      tasks := tasks[key := task];
    }

    /** stopWorkspace up to its wait: every running task of the workspace is cancelled and killed
        at once; no other task notices. */
    method StopBegin(root: string) returns (chosen: map<TaskKey, BackgroundTask>)
      requires Keyed(tasks)
      modifies tasks.Values
      ensures Keyed(tasks) && chosen.Keys == set k | k in tasks && k.0 == root
      ensures forall k | k in chosen :: chosen[k] == tasks[k] && chosen[k].Stopping()
      ensures forall k | k in tasks && k.0 != root :: tasks[k].trail == old(tasks[k].trail)
    {
      hide BackgroundTask.Valid, BackgroundTask.Stopping;
      chosen := map k | k in tasks && k.0 == root :: tasks[k];
      var left := chosen.Keys;
      while left != {}
        invariant Keyed(tasks) && left <= chosen.Keys
        invariant forall k | k in chosen && k !in left :: chosen[k].Stopping()
        invariant forall k | k in tasks && k.0 != root :: tasks[k].trail == old(tasks[k].trail)
        decreases |left|
      {
        var k :| k in left;
        chosen[k].Cancel(true);
        left := left - {k};
      }
    }

    /** stopWorkspace after its wait: the stopped tasks go, but not one that has meanwhile been
        started under the same id. */
    method StopFinish(chosen: map<TaskKey, BackgroundTask>)
      requires Keyed(tasks)
      modifies `tasks
      ensures Keyed(tasks) && tasks.Keys <= old(tasks).Keys
      ensures forall k | k in old(tasks) :: k !in tasks <==> k in chosen && old(tasks)[k] == chosen[k]
      ensures forall k | k in tasks :: tasks[k] == old(tasks)[k]
    {
      tasks := map k | k in tasks && !(k in chosen && tasks[k] == chosen[k]) :: tasks[k];
    }
  }

  ghost predicate KeepsRunning(before: map<TaskKey, BackgroundTask>, after: map<TaskKey, BackgroundTask>)
    reads before.Values
  {
    forall k | k in before && before[k].status.Running? :: k in after && after[k] == before[k]
  }

  lemma PrunedAreFewer(
    before: map<TaskKey, BackgroundTask>, after: map<TaskKey, BackgroundTask>, cutoff: int, key: TaskKey)
    requires PrunedTo(before, after, cutoff)
    ensures after.Keys <= before.Keys
    ensures |after| <= |before| && RunningKeys(after) == RunningKeys(before) && KeepsRunning(before, after)
    ensures key in after <==> Knows(before, key, cutoff)
    ensures key in after ==> after[key] == before[key]
  {
    Parts(before.Keys, after.Keys, before.Keys - after.Keys);
  }

  lemma EvictionKeepsRunning(
    before: map<TaskKey, BackgroundTask>, pruned: map<TaskKey, BackgroundTask>, after: map<TaskKey, BackgroundTask>)
    requires KeepsRunning(before, pruned) && EvictsOldest(pruned, after)
    ensures KeepsRunning(before, after) && after.Keys <= pruned.Keys && |after| <= |pruned|
  {
    Parts(pruned.Keys, after.Keys, pruned.Keys - after.Keys);
  }

  lemma AddedTask(
    before: map<TaskKey, BackgroundTask>, after: map<TaskKey, BackgroundTask>, key: TaskKey, task: BackgroundTask)
    requires KeepsRunning(before, after) && Keyed(after) && key !in after && task.key == key && task.Valid()
    ensures KeepsRunning(before, after[key := task]) && Keyed(after[key := task])
    ensures |after[key := task]| == |after| + 1
  {
    assert after[key := task].Keys == after.Keys + {key};
  }

  datatype StartOutcome = Executed | Joined | Replayed

  datatype Started = Summary(outcome: StartOutcome, task: BackgroundTask) | Mismatch | CapacityFull
}
