/** Local files dropped into a conversation: staged, then claimed by one thread, with every
    mutation of the stored lists passing through one barrier while staging goes on beside it. */
module ConversationClaims {
  import opened Wrappers

  type ThreadId = string
  type Path = string

  datatype Kind = File | Directory

  /** Its id is the hash of these three, taken to be injective. */
  datatype Resource = Resource(threadId: ThreadId, kind: Kind, path: Path)

  /** A staged drop; drop numbers the stagings. */
  datatype Pending = Pending(kind: Kind, stagedAtMs: int, drop: nat)

  datatype Call = Claim(threadId: ThreadId, mentions: seq<string>) | Delete(threadId: ThreadId)

  /** A claim under way: current is the list it will save, claimed what it has added. */
  datatype Work =
    | Claiming(threadId: ThreadId, mentions: seq<string>, current: seq<Resource>, claimed: seq<Resource>)
    | Deleting(threadId: ThreadId)

  /** One caller of the barrier; it runs once the caller before it has been released. */
  datatype Ticket = Waiting(call: Call) | Running(work: Work) | Released

  datatype Entry = Claimed(resource: Resource, drop: nat) | Deleted(threadId: ThreadId)

  datatype State = State(
    pending: map<Path, Pending>,
    stored: map<ThreadId, seq<Resource>>,
    tickets: seq<Ticket>,
    drops: nat,        // how many drops have been staged
    log: seq<Entry>    // every claim and deletion, in order
  )

  const PENDING_DROP_TTL_MS := 30 * 60000

  function Purged(pending: map<Path, Pending>, now: int): map<Path, Pending> {
    map p | p in pending && !(pending[p].stagedAtMs < now - PENDING_DROP_TTL_MS) :: pending[p]
  }

  function StoredList(s: State, threadId: ThreadId): seq<Resource> {
    if threadId in s.stored then s.stored[threadId] else []
  }

  predicate HasPath(resources: seq<Resource>, path: Path) {
    exists r | r in resources :: r.path == path
  }

  /** What the code does between two awaits. */
  datatype Step =
    | Purge(now: int)                                  // stageDropped begins
    | Stage(path: Path, kind: Kind, now: int)          // one dropped path has been resolved
    | Enter(call: Call)                                // a mutation queues at the barrier
    | Begin(t: nat, now: int)                          // the one before it is done
    | Mention(t: nat, found: Option<(Path, Kind)>)     // a mentioned path has been resolved, or not
    | Finish(t: nat)                                   // the list is saved or deleted; next one

  /** blank: the path's base name, as it is displayed, is white space only. */
  predicate Readable(blank: Path -> bool, resources: seq<Resource>) {
    forall r | r in resources :: !blank(r.path)
  }

  predicate CanStep(s: State, step: Step) {
    match step
    case Purge(_) => true
    case Stage(_, _, _) => true
    case Enter(_) => true
    case Begin(t, _) => t < |s.tickets| && s.tickets[t].Waiting? && (t == 0 || s.tickets[t - 1].Released?)
    case Mention(t, _) => IsClaiming(s, t) && s.tickets[t].work.mentions != []
    case Finish(t) =>
      && t < |s.tickets| && s.tickets[t].Running?
      && (s.tickets[t].work.Claiming? ==> s.tickets[t].work.mentions == [])
  }

  predicate IsClaiming(s: State, t: nat) {
    t < |s.tickets| && s.tickets[t].Running? && s.tickets[t].work.Claiming?
  }

  function At(s: State, t: nat, ticket: Ticket): State
    requires t < |s.tickets|
  {
    s.(tickets := s.tickets[t := ticket])
  }

  function BeginCall(blank: Path -> bool, s: State, t: nat, now: int): State
    requires CanStep(s, Begin(t, now))
  {
    match s.tickets[t].call
    case Delete(threadId) => At(s, t, Running(Deleting(threadId)))
    case Claim(threadId, mentions) =>
      var purged := s.(pending := Purged(s.pending, now));
      var current := StoredList(s, threadId);
      if Readable(blank, current) then At(purged, t, Running(Claiming(threadId, mentions, current, [])))
      else At(purged, t, Released)
  }

  function MentionOne(s: State, t: nat, found: Option<(Path, Kind)>): State
    requires CanStep(s, Mention(t, found))
  {
    var work := s.tickets[t].work;
    var next := work.(mentions := work.mentions[1..]);
    match found
    case None => At(s, t, Running(next))
    case Some((path, kind)) =>
      if HasPath(work.current, path) then At(s.(pending := s.pending - {path}), t, Running(next))
      else if path !in s.pending || s.pending[path].kind != kind then At(s, t, Running(next))
      else
        var r := Resource(work.threadId, kind, path);
        At(s.(pending := s.pending - {path}, log := s.log + [Claimed(r, s.pending[path].drop)]),
           t, Running(next.(current := work.current + [r], claimed := work.claimed + [r])))
  }

  function FinishCall(s: State, t: nat): State
    requires CanStep(s, Finish(t))
  {
    match s.tickets[t].work
    case Claiming(threadId, _, current, claimed) =>
      At(if claimed == [] then s else s.(stored := s.stored[threadId := current]), t, Released)
    case Deleting(threadId) =>
      At(if threadId !in s.stored then s
         else s.(stored := s.stored - {threadId}, log := s.log + [Deleted(threadId)]), t, Released)
  }

  function Next(blank: Path -> bool, s: State, step: Step): State
    requires CanStep(s, step)
  {
    match step
    case Purge(now) => s.(pending := Purged(s.pending, now))
    case Stage(path, kind, now) => s.(pending := s.pending[path := Pending(kind, now, s.drops)], drops := s.drops + 1)
    case Enter(call) => s.(tickets := s.tickets + [Waiting(call)])
    case Begin(t, now) => BeginCall(blank, s, t, now)
    case Mention(t, found) => MentionOne(s, t, found)
    case Finish(t) => FinishCall(s, t)
  }

  // ------------------------------------------------------------------ the barrier

  /** Everything behind a call that has not been released still waits. */
  predicate OneAtATime(s: State) {
    forall i, j | 0 <= i < j < |s.tickets| && !s.tickets[i].Released? :: s.tickets[j].Waiting?
  }

  lemma NextOneAtATime(blank: Path -> bool, s: State, step: Step)
    requires OneAtATime(s) && CanStep(s, step)
    ensures OneAtATime(Next(blank, s, step))
  {
  }

  // ------------------------------------------------------------------ drops

  predicate DropClaimed(log: seq<Entry>, i: nat, drop: nat) {
    i < |log| && log[i].Claimed? && log[i].drop == drop
  }

  /** Drops waiting or claimed are different ones, and have been staged. */
  predicate DropsOnce(s: State) {
    && (forall p | p in s.pending :: s.pending[p].drop < s.drops)
    && (forall p, q | p in s.pending && q in s.pending && s.pending[p].drop == s.pending[q].drop :: p == q)
    && (forall i | 0 <= i < |s.log| && s.log[i].Claimed? :: s.log[i].drop < s.drops)
    && (forall i, p | 0 <= i < |s.log| && s.log[i].Claimed? && p in s.pending :: s.log[i].drop != s.pending[p].drop)
    && (forall i, j | 0 <= i < j < |s.log| && s.log[i].Claimed? && s.log[j].Claimed? :: s.log[i].drop != s.log[j].drop)
  }

  /** Pending drops may go, and a deletion is no claim. */
  lemma FewerDropsOnce(s: State, t: State)
    requires DropsOnce(s) && t.drops == s.drops
    requires t.pending.Keys <= s.pending.Keys && forall p | p in t.pending :: t.pending[p] == s.pending[p]
    requires t.log == s.log || exists id :: t.log == s.log + [Deleted(id)]
    ensures DropsOnce(t)
  {
  }

  lemma StageDropsOnce(s: State, t: State, path: Path, staged: Pending)
    requires DropsOnce(s) && t.drops == s.drops + 1 && t.log == s.log
    requires t.pending == s.pending[path := staged] && staged.drop == s.drops
    ensures DropsOnce(t)
  {
  }

  lemma ClaimDropsOnce(s: State, t: State, path: Path, r: Resource)
    requires DropsOnce(s) && t.drops == s.drops && path in s.pending
    requires t.pending == s.pending - {path} && t.log == s.log + [Claimed(r, s.pending[path].drop)]
    ensures DropsOnce(t)
  {
  }

  lemma NextDropsOnce(blank: Path -> bool, s: State, step: Step)
    requires DropsOnce(s) && CanStep(s, step)
    ensures DropsOnce(Next(blank, s, step))
  {
    hide DropsOnce, Readable;
    var t := Next(blank, s, step);
    match step
    case Stage(path, kind, now) => StageDropsOnce(s, t, path, Pending(kind, now, s.drops));
    case Mention(_, found) =>
      if t.log != s.log {
        ClaimDropsOnce(s, t, found.value.0, Resource(s.tickets[step.t].work.threadId, found.value.1, found.value.0));
      } else {
        FewerDropsOnce(s, t);
      }
    case _ => FewerDropsOnce(s, t);
  }

  // ------------------------------------------------------------------ lists

  /** What a thread has claimed since it was last deleted, on top of what it had at first. */
  function Since(first: map<ThreadId, seq<Resource>>, log: seq<Entry>, threadId: ThreadId): seq<Resource> {
    if log == [] then (if threadId in first then first[threadId] else [])
    else
      var before := Since(first, log[..|log| - 1], threadId);
      match log[|log| - 1]
      case Claimed(r, _) => if r.threadId == threadId then before + [r] else before
      case Deleted(id) => if id == threadId then [] else before
  }

  ghost predicate KeptBut(first: map<ThreadId, seq<Resource>>, s: State, except: Option<ThreadId>) {
    forall id | Some(id) != except :: StoredList(s, id) == Since(first, s.log, id)
  }

  /** What is stored is what was claimed, save for the claim under way, whose own list is ahead. */
  ghost predicate ListsKept(first: map<ThreadId, seq<Resource>>, s: State) {
    && ((forall t | 0 <= t < |s.tickets| :: !IsClaiming(s, t)) ==> KeptBut(first, s, None))
    && (forall t | 0 <= t < |s.tickets| && IsClaiming(s, t) :: ClaimKept(first, s, s.tickets[t].work))
  }

  ghost predicate ClaimKept(first: map<ThreadId, seq<Resource>>, s: State, work: Work)
    requires work.Claiming?
  {
    && KeptBut(first, s, Some(work.threadId))
    && work.current == Since(first, s.log, work.threadId)
    && work.current == StoredList(s, work.threadId) + work.claimed
  }

  lemma SinceOneMore(first: map<ThreadId, seq<Resource>>, log: seq<Entry>, e: Entry, id: ThreadId)
    ensures Since(first, log + [e], id)
            == match e
               case Claimed(r, _) => Since(first, log, id) + if r.threadId == id then [r] else []
               case Deleted(gone) => if gone == id then [] else Since(first, log, id)
  {
    assert (log + [e])[..|log|] == log;
  }

  /** Ticket t is the only one that may be running. */
  predicate OnlyOpen(s: State, t: nat) {
    forall i | 0 <= i < |s.tickets| && i != t :: !s.tickets[i].Running?
  }

  lemma ThisOneAlone(s: State, t: nat)
    requires OneAtATime(s) && t < |s.tickets|
    requires s.tickets[t].Running? || (s.tickets[t].Waiting? && (t == 0 || s.tickets[t - 1].Released?))
    ensures OnlyOpen(s, t)
  {
  }

  /** Steps that touch neither the stored lists nor a running call. */
  lemma BesideKeepsLists(first: map<ThreadId, seq<Resource>>, s: State, t: State)
    requires ListsKept(first, s) && t.stored == s.stored && t.log == s.log
    requires |s.tickets| <= |t.tickets|
    requires forall i | 0 <= i < |t.tickets| && t.tickets[i].Running? :: i < |s.tickets| && t.tickets[i] == s.tickets[i]
    requires forall i | 0 <= i < |s.tickets| && s.tickets[i].Running? :: t.tickets[i] == s.tickets[i]
    ensures ListsKept(first, t)
  {
    hide Since;
    forall i | 0 <= i < |t.tickets| && IsClaiming(t, i)
      ensures ClaimKept(first, t, t.tickets[i].work)
    {
      assert IsClaiming(s, i);
    }
    if forall i | 0 <= i < |t.tickets| :: !IsClaiming(t, i) {
      forall i | 0 <= i < |s.tickets|
        ensures !IsClaiming(s, i)
      {
        assert !IsClaiming(t, i);
      }
    }
  }

  lemma ClaimKeptAtFirst(first: map<ThreadId, seq<Resource>>, s: State, work: Work)
    requires KeptBut(first, s, None) && work.Claiming?
    requires work.current == StoredList(s, work.threadId) && work.claimed == []
    ensures ClaimKept(first, s, work)
  {
    NoneButOne(first, s, work.threadId);
    assert StoredList(s, work.threadId) + [] == work.current;
  }

  lemma BeginKeepsLists(blank: Path -> bool, first: map<ThreadId, seq<Resource>>, s: State, t: nat, now: int)
    requires ListsKept(first, s) && OneAtATime(s) && CanStep(s, Begin(t, now))
    ensures ListsKept(first, Next(blank, s, Begin(t, now)))
  {
    ThisOneAlone(s, t);
    assert forall i | 0 <= i < |s.tickets| :: !IsClaiming(s, i);
    var s' := Next(blank, s, Begin(t, now));
    SameLists(first, s, s');
    hide Since, Readable, OneAtATime, KeptBut, Purged, ClaimKept;
    forall i | 0 <= i < |s'.tickets| && IsClaiming(s', i)
      ensures ClaimKept(first, s', s'.tickets[i].work)
    {
      assert i == t;
      ClaimKeptAtFirst(first, s', s'.tickets[i].work);
    }
  }

  lemma SameLists(first: map<ThreadId, seq<Resource>>, s: State, s': State)
    requires KeptBut(first, s, None) && s'.stored == s.stored && s'.log == s.log
    ensures KeptBut(first, s', None)
  {
    hide Since;
  }

  lemma NoneButOne(first: map<ThreadId, seq<Resource>>, s: State, threadId: ThreadId)
    requires KeptBut(first, s, None)
    ensures KeptBut(first, s, Some(threadId)) && StoredList(s, threadId) == Since(first, s.log, threadId)
  {
    hide Since;
  }

  lemma ClaimKeptAfterOne(first: map<ThreadId, seq<Resource>>, s: State, s': State, work: Work, work': Work, e: Entry)
    requires work.Claiming? && work'.Claiming? && ClaimKept(first, s, work)
    requires work'.threadId == work.threadId && s'.stored == s.stored
    requires e.Claimed? && e.resource.threadId == work.threadId && s'.log == s.log + [e]
    requires work'.current == work.current + [e.resource] && work'.claimed == work.claimed + [e.resource]
    ensures ClaimKept(first, s', work')
  {
    forall id
      ensures Since(first, s'.log, id) == Since(first, s.log, id) + if id == work.threadId then [e.resource] else []
    {
      SinceOneMore(first, s.log, e, id);
    }
    hide Since;
    assert (StoredList(s, work.threadId) + work.claimed) + [e.resource]
        == StoredList(s, work.threadId) + (work.claimed + [e.resource]);
  }

  lemma ClaimKeptAsIs(first: map<ThreadId, seq<Resource>>, s: State, s': State, work: Work, work': Work)
    requires work.Claiming? && work'.Claiming? && ClaimKept(first, s, work)
    requires work' == work.(mentions := work'.mentions) && s'.stored == s.stored && s'.log == s.log
    ensures ClaimKept(first, s', work')
  {
    hide Since;
  }

  lemma MentionKeepsLists(
    blank: Path -> bool, first: map<ThreadId, seq<Resource>>, s: State, t: nat, found: Option<(Path, Kind)>)
    requires ListsKept(first, s) && OneAtATime(s) && CanStep(s, Mention(t, found))
    ensures ListsKept(first, Next(blank, s, Mention(t, found)))
  {
    ThisOneAlone(s, t);
    var work, s' := s.tickets[t].work, Next(blank, s, Mention(t, found));
    assert ClaimKept(first, s, work) && IsClaiming(s', t);
    hide Since, OneAtATime, HasPath, ClaimKept, KeptBut;
    if s'.log != s.log {
      ClaimKeptAfterOne(first, s, s', work, s'.tickets[t].work, s'.log[|s.log|]);
    } else {
      ClaimKeptAsIs(first, s, s', work, s'.tickets[t].work);
    }
    forall i | 0 <= i < |s'.tickets| && IsClaiming(s', i)
      ensures i == t
    {
    }
  }

  lemma FinishKeepsLists(blank: Path -> bool, first: map<ThreadId, seq<Resource>>, s: State, t: nat)
    requires ListsKept(first, s) && OneAtATime(s) && CanStep(s, Finish(t))
    ensures ListsKept(first, Next(blank, s, Finish(t)))
  {
    ThisOneAlone(s, t);
    var work, s' := s.tickets[t].work, Next(blank, s, Finish(t));
    if work.Claiming? {
      assert IsClaiming(s, t);
      assert ClaimKept(first, s, work);
    } else {
      assert forall i | 0 <= i < |s.tickets| :: !IsClaiming(s, i);
      assert KeptBut(first, s, None);
      if s'.log != s.log {
        forall id
          ensures Since(first, s'.log, id) == if id == work.threadId then [] else Since(first, s.log, id)
        {
          SinceOneMore(first, s.log, Deleted(work.threadId), id);
        }
      }
    }
    hide Since, OneAtATime;
    forall i | 0 <= i < |s'.tickets|
      ensures !IsClaiming(s', i)
    {
    }
    assert KeptBut(first, s', None);
  }

  lemma NextKeepsLists(blank: Path -> bool, first: map<ThreadId, seq<Resource>>, s: State, step: Step)
    requires ListsKept(first, s) && OneAtATime(s) && CanStep(s, step)
    ensures ListsKept(first, Next(blank, s, step))
  {
    match step
    case Begin(t, now) => BeginKeepsLists(blank, first, s, t, now);
    case Mention(t, found) => MentionKeepsLists(blank, first, s, t, found);
    case Finish(t) => FinishKeepsLists(blank, first, s, t);
    case _ =>
      hide ListsKept;
      BesideKeepsLists(first, s, Next(blank, s, step));
  }

  // ------------------------------------------------------------------ unique paths

  predicate Distinct(threadId: ThreadId, resources: seq<Resource>) {
    && (forall r | r in resources :: r.threadId == threadId)
    && (forall i, j | 0 <= i < j < |resources| :: resources[i].path != resources[j].path)
  }

  ghost predicate AllDistinct(first: map<ThreadId, seq<Resource>>, log: seq<Entry>) {
    forall id :: Distinct(id, Since(first, log, id))
  }

  lemma EntryKeepsDistinct(first: map<ThreadId, seq<Resource>>, log: seq<Entry>, e: Entry)
    requires AllDistinct(first, log)
    requires e.Claimed? ==> !HasPath(Since(first, log, e.resource.threadId), e.resource.path)
    ensures AllDistinct(first, log + [e])
  {
    forall id
      ensures Distinct(id, Since(first, log + [e], id))
    {
      SinceOneMore(first, log, e, id);
      assert Distinct(id, Since(first, log, id));
      hide Since;
    }
  }

  /** At most one entry is logged, and a claim only for a path that its list does not have yet. */
  lemma LoggedByStep(blank: Path -> bool, s: State, step: Step) returns (e: Entry)
    requires CanStep(s, step) && Next(blank, s, step).log != s.log
    ensures Next(blank, s, step).log == s.log + [e]
    ensures e.Claimed? ==>
              && step.Mention? && IsClaiming(s, step.t)
              && e.resource.threadId == s.tickets[step.t].work.threadId
              && !HasPath(s.tickets[step.t].work.current, e.resource.path)
  {
    hide HasPath, Readable;
    e := Next(blank, s, step).log[|s.log|];
  }

  lemma NextAllDistinct(blank: Path -> bool, first: map<ThreadId, seq<Resource>>, s: State, step: Step)
    requires ListsKept(first, s) && CanStep(s, step) && AllDistinct(first, s.log)
    ensures AllDistinct(first, Next(blank, s, step).log)
  {
    hide Since, AllDistinct, KeptBut, HasPath, Next, CanStep;
    if Next(blank, s, step).log != s.log {
      var e := LoggedByStep(blank, s, step);
      assert e.Claimed? ==> ClaimKept(first, s, s.tickets[step.t].work);
      EntryKeepsDistinct(first, s.log, e);
    }
  }

  // ------------------------------------------------------------------ runs

  /** states[i] is the state before steps[i]; it starts with valid stored lists and nothing staged. */
  ghost predicate IsRun(
    blank: Path -> bool, first: map<ThreadId, seq<Resource>>, states: seq<State>, steps: seq<Step>) {
    && |states| == |steps| + 1
    && states[0] == State(map[], first, [], 0, []) && AllDistinct(first, [])
    && forall i | 0 <= i < |steps| :: CanStep(states[i], steps[i]) && states[i + 1] == Next(blank, states[i], steps[i])
  }

  ghost predicate Consistent(first: map<ThreadId, seq<Resource>>, s: State) {
    OneAtATime(s) && DropsOnce(s) && ListsKept(first, s) && AllDistinct(first, s.log)
  }

  lemma {:induction false} RunIsConsistent(
    blank: Path -> bool, first: map<ThreadId, seq<Resource>>, states: seq<State>, steps: seq<Step>, i: nat)
    requires IsRun(blank, first, states, steps) && i <= |steps|
    ensures Consistent(first, states[i])
    decreases i
  {
    if i > 0 {
      RunIsConsistent(blank, first, states, steps, i - 1);
      var s, step := states[i - 1], steps[i - 1];
      hide OneAtATime, DropsOnce, ListsKept, AllDistinct, Next, CanStep;
      NextOneAtATime(blank, s, step);
      NextDropsOnce(blank, s, step);
      NextKeepsLists(blank, first, s, step);
      NextAllDistinct(blank, first, s, step);
    }
  }

  /** Under every interleaving: no drop is claimed twice; and whenever no claim is under way,
      each thread's stored list is exactly what it has claimed since its last deletion, without
      a path occurring twice. */
  lemma ClaimsAreExact(
    blank: Path -> bool, first: map<ThreadId, seq<Resource>>, states: seq<State>, steps: seq<Step>, k: nat)
    requires IsRun(blank, first, states, steps) && k <= |steps|
    ensures var s := states[k];
      && (forall i: nat, j: nat, drop: nat | DropClaimed(s.log, i, drop) && DropClaimed(s.log, j, drop) :: i == j)
      && ((forall t | 0 <= t < |s.tickets| :: !IsClaiming(s, t)) ==>
            forall id :: StoredList(s, id) == Since(first, s.log, id) && Distinct(id, StoredList(s, id)))
  {
    RunIsConsistent(blank, first, states, steps, k);
    hide Since;
  }

  /** A claim gets to run, when its turn comes, exactly if no path its thread has claimed since
      its last deletion has a blank base name: such a list is saved, but is refused when read. */
  lemma ClaimRunsExactlyIfReadable(
    blank: Path -> bool, first: map<ThreadId, seq<Resource>>, states: seq<State>, steps: seq<Step>, k: nat,
    t: nat, now: int)
    requires IsRun(blank, first, states, steps) && k < |steps| && steps[k] == Begin(t, now)
    requires CanStep(states[k], steps[k]) && states[k].tickets[t].call.Claim?
    ensures var id := states[k].tickets[t].call.threadId;
      states[k + 1].tickets[t].Running? <==> forall r | r in Since(first, states[k].log, id) :: !blank(r.path)
  {
    var s := states[k];
    RunIsConsistent(blank, first, states, steps, k);
    ThisOneAlone(s, t);
    assert forall i | 0 <= i < |s.tickets| :: !IsClaiming(s, i);
    hide Since, OneAtATime, DropsOnce;
  }

  // ------------------------------------------------------------------ what a claim brings in

  /** A staged drop is kept for thirty minutes. */
  lemma PurgedExactly(pending: map<Path, Pending>, now: int, path: Path)
    ensures path in Purged(pending, now) <==> path in pending && now - pending[path].stagedAtMs <= 1800000
    ensures path in Purged(pending, now) ==> Purged(pending, now)[path] == pending[path]
  {
  }

  /** A mentioned path is claimed exactly if it is staged as what it is now and not in the list yet;
      claimed or in the list already, it is staged no longer; nothing else about the list changes. */
  lemma MentionExactly(s: State, t: nat, path: Path, kind: Kind)
    requires CanStep(s, Mention(t, Some((path, kind))))
    ensures
      var work, s' := s.tickets[t].work, MentionOne(s, t, Some((path, kind)));
      var listed := exists r :: r in work.current && r.path == path;
      var claims := !listed && path in s.pending && s.pending[path].kind == kind;
      && IsClaiming(s', t) && s'.stored == s.stored && s'.drops == s.drops
      && s'.tickets[t].work.threadId == work.threadId
      && s'.tickets[t].work.current == work.current + (if claims then [Resource(work.threadId, kind, path)] else [])
      && s'.log == s.log + (if claims then [Claimed(Resource(work.threadId, kind, path), s.pending[path].drop)] else [])
      && forall p :: p in s'.pending <==> p in s.pending && !(p == path && (listed || claims))
  {
  }

  /** From end to end: a fresh drop, mentioned by a thread that can be read and does not have the
      path yet, is in that thread's stored list once the claim is through, and staged no longer. */
  lemma FreshDropIsClaimed(
    blank: Path -> bool, s: State, threadId: ThreadId, mention: string, path: Path, kind: Kind, now: int)
    requires forall t | 0 <= t < |s.tickets| :: s.tickets[t].Released?
    requires path in s.pending && s.pending[path].kind == kind && now - s.pending[path].stagedAtMs <= 1800000
    requires forall r | r in StoredList(s, threadId) :: !blank(r.path) && r.path != path
    ensures
      var t := |s.tickets|;
      var s1 := Next(blank, s, Enter(Claim(threadId, [mention])));
      && CanStep(s1, Begin(t, now))
      && var s2 := Next(blank, s1, Begin(t, now));
      && CanStep(s2, Mention(t, Some((path, kind))))
      && var s3 := Next(blank, s2, Mention(t, Some((path, kind))));
      && CanStep(s3, Finish(t))
      && var s4 := Next(blank, s3, Finish(t));
      && StoredList(s4, threadId) == StoredList(s, threadId) + [Resource(threadId, kind, path)]
      && path !in s4.pending && s4.tickets[t].Released?
  {
    PurgedExactly(s.pending, now, path);
    var t := |s.tickets|;
    var s1 := Next(blank, s, Enter(Claim(threadId, [mention])));
    var s2 := Next(blank, s1, Begin(t, now));
    assert IsClaiming(s2, t) && s2.tickets[t].work.current == StoredList(s, threadId);
    hide Purged;
    MentionExactly(s2, t, path, kind);
  }
}
