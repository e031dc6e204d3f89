/** Starts of background tasks that overlap: a start looks for its id, waits for the file system,
    and only then spawns and enters its task, without looking again. */
module OverlappingStarts {

  type TaskKey = (string, string)  // workspace root and task id
  type StartId = nat

  /** One spawned process, by the key it was spawned for. */
  datatype Process = Process(key: TaskKey, running: bool)

  datatype World = World(
    processes: seq<Process>,           // every process ever spawned
    table: map<TaskKey, nat>,          // the tasks, as places in processes
    pending: map<StartId, TaskKey>     // starts between their check and their spawn
  )

  const EMPTY := World([], map[], map[])

  datatype Step =
    | Check(id: StartId, key: TaskKey)  // the id is not known, so the start goes on
    | GiveUp(id: StartId)               // the directory does not pass
    | Enter(id: StartId)                // spawn, and enter the task
    | SpawnFails(n: nat)                // the process reports an error: its key is removed
    | Settle(n: nat)
    | Drop(key: TaskKey)                // a settled task is pruned, evicted or stopped

  predicate CanStep(w: World, step: Step) {
    match step
    case Check(id, key) => id !in w.pending && key !in w.table
    case GiveUp(id) => id in w.pending
    case Enter(id) => id in w.pending
    case SpawnFails(n) => n < |w.processes| && w.processes[n].running
    case Settle(n) => n < |w.processes| && w.processes[n].running
    case Drop(key) => key in w.table && !RunsUnder(w, key)
  }

  /** The task entered under key is running. */
  predicate RunsUnder(w: World, key: TaskKey) {
    key in w.table && w.table[key] < |w.processes| && w.processes[w.table[key]].running
  }

  function Ended(w: World, n: nat): World
    requires n < |w.processes|
  {
    w.(processes := w.processes[n := w.processes[n].(running := false)])
  }

  function Next(w: World, step: Step): World
    requires CanStep(w, step)
  {
    match step
    case Check(id, key) => w.(pending := w.pending[id := key])
    case GiveUp(id) => w.(pending := w.pending - {id})
    case Enter(id) =>
      World(w.processes + [Process(w.pending[id], true)],
            w.table[w.pending[id] := |w.processes|],
            w.pending - {id})
    case SpawnFails(n) => Ended(w, n).(table := w.table - {w.processes[n].key})
    case Settle(n) => Ended(w, n)
    case Drop(key) => w.(table := w.table - {key})
  }

  predicate TableOk(w: World) {
    forall key | key in w.table :: w.table[key] < |w.processes| && w.processes[w.table[key]].key == key
  }

  /** Every running process is the task entered under its key; so no key runs twice at once, and
      every running process can be found, cancelled and stopped. */
  predicate Accounted(w: World) {
    && TableOk(w)
    && (forall n | 0 <= n < |w.processes| && w.processes[n].running ::
          w.processes[n].key in w.table && w.table[w.processes[n].key] == n)
  }

  /** The one step that loses sight of a process: entering over a task that runs. */
  predicate Hides(w: World, step: Step) {
    step.Enter? && step.id in w.pending && RunsUnder(w, w.pending[step.id])
  }

  lemma StepAccountsExactly(w: World, step: Step)
    requires Accounted(w) && CanStep(w, step)
    ensures Accounted(Next(w, step)) <==> !Hides(w, step)
  {
    var w' := Next(w, step);
    if Hides(w, step) {
      var n := w.table[w.pending[step.id]];
      assert w'.processes[n] == w.processes[n];
    }
  }

  /** worlds[i] is the world before steps[i]. */
  predicate IsRun(worlds: seq<World>, steps: seq<Step>) {
    && |worlds| == |steps| + 1 && worlds[0] == EMPTY
    && forall i | 0 <= i < |steps| :: CanStep(worlds[i], steps[i]) && worlds[i + 1] == Next(worlds[i], steps[i])
  }

  lemma {:induction false} RunTableOk(worlds: seq<World>, steps: seq<Step>, i: nat)
    requires IsRun(worlds, steps) && i <= |steps|
    ensures TableOk(worlds[i])
    decreases i
  {
    if i > 0 {
      RunTableOk(worlds, steps, i - 1);
    }
  }

  /** At step j another start entered its task while start id was pending for the same key. */
  predicate OvertakenAt(worlds: seq<World>, steps: seq<Step>, j: nat, id: StartId, key: TaskKey) {
    && j < |steps| && j < |worlds| && steps[j].Enter? && steps[j].id != id
    && id in worlds[j].pending && worlds[j].pending[id] == key
    && steps[j].id in worlds[j].pending && worlds[j].pending[steps[j].id] == key
  }

  /** A pending start finds its key running only because it has been overtaken. */
  lemma {:induction false} PendingKeysRunOnlyIfOvertaken(
    worlds: seq<World>, steps: seq<Step>, i: nat, id: StartId)
    requires IsRun(worlds, steps) && i <= |steps|
    requires id in worlds[i].pending && RunsUnder(worlds[i], worlds[i].pending[id])
    ensures exists j: nat :: j < i && OvertakenAt(worlds, steps, j, id, worlds[i].pending[id])
    decreases i
  {
    var w, step, key := worlds[i - 1], steps[i - 1], worlds[i].pending[id];
    RunTableOk(worlds, steps, i - 1);
    if id in w.pending && w.pending[id] == key && RunsUnder(w, key) {
      PendingKeysRunOnlyIfOvertaken(worlds, steps, i - 1, id);
    } else {
      assert step.Enter? && w.pending[step.id] == key;
      assert OvertakenAt(worlds, steps, i - 1, id, key);
    }
  }

  /** When one id runs twice: as long as no start is overtaken by another one for its key between
      its check and its spawn, every running process is accounted for. */
  lemma {:induction false} AccountedUnlessOvertaken(worlds: seq<World>, steps: seq<Step>, i: nat)
    requires IsRun(worlds, steps) && i <= |steps|
    requires forall j: nat, id: StartId, key: TaskKey | j < i :: !OvertakenAt(worlds, steps, j, id, key)
    ensures Accounted(worlds[i])
    decreases i
  {
    if i > 0 {
      AccountedUnlessOvertaken(worlds, steps, i - 1);
      StepAccountsExactly(worlds[i - 1], steps[i - 1]);
      if Hides(worlds[i - 1], steps[i - 1]) {
        PendingKeysRunOnlyIfOvertaken(worlds, steps, i - 1, steps[i - 1].id);
      }
    }
  }

  /** And for every key there is a run in which two starts overlap: both processes run, and the
      table knows only the second. */
  lemma OverlappingStartsBothRun(key: TaskKey) returns (worlds: seq<World>, steps: seq<Step>)
    ensures IsRun(worlds, steps)
    ensures worlds[|steps|] == World([Process(key, true), Process(key, true)], map[key := 1], map[])
    ensures !Accounted(worlds[|steps|])
  {
    var w1 := EMPTY.(pending := map[0 := key]);
    var w2 := EMPTY.(pending := map[0 := key, 1 := key]);
    var w3 := World([Process(key, true)], map[key := 0], map[1 := key]);
    var w4 := World([Process(key, true), Process(key, true)], map[key := 1], map[]);
    worlds, steps := [EMPTY, w1, w2, w3, w4], [Check(0, key), Check(1, key), Enter(0), Enter(1)];
    assert w2.pending - {0} == map[1 := key] && w3.pending - {1} == map[];
    assert w4.processes[0].running && w4.table[key] == 1;
  }
}
