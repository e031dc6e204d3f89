/** The claim file through which Bridge processes take over a detached app-server: a lock file
    with recovery from dead owners, as processes interleaving at every file-system call. */
module HandoffClaim {
  import opened Wrappers

  type Pid = nat
  type Inode = nat

  /** The text of a claim file; a freshly created file is empty, which is no JSON. */
  datatype Content = Unparsable | NoOwner | Owner(pid: Pid, claimId: nat)

  /** Where one process is in claiming, holding and releasing; each phase ends with one call. */
  datatype Phase =
    | Idle
    | Reading(inode: Inode)                      // the claim file is open for reading
    | FoundDead(raw: Content)                    // its owner is gone; rename comes next
    | Quarantined(raw: Content, inode: Inode)    // renamed to a name of its own
    | PuttingBack(content: Content)              // what was renamed is not what was read
    | WritingBack(inode: Inode, content: Content)
    | Discarding                                 // the renamed file goes
    | Claiming                                   // exclusive create comes next
    | Claimed(inode: Inode)                      // created, still empty
    | Holding
    | Releasing                                  // closed, not yet removed

  /** Process p of phases has pid p; every other pid is dead. */
  datatype World = World(claim: Option<Inode>, inodes: seq<Content>, phases: seq<Phase>)
  {
    predicate Dead(c: Content) {
      c.Owner? && c.pid >= |phases|
    }

    /** From the successful exclusive create until the file is removed again. */
    predicate Holds(p: Pid) {
      p < |phases| && (phases[p].Claimed? || phases[p].Holding? || phases[p].Releasing?)
    }

    predicate WellFormed() {
      && (claim.Some? ==> claim.value < |inodes|)
      && forall p | 0 <= p < |phases| ::
           phases[p].Reading? || phases[p].Quarantined? || phases[p].WritingBack? || phases[p].Claimed? ==>
             phases[p].inode < |inodes|
    }

    function At(p: Pid, phase: Phase): World
      requires p < |phases|
    {
      this.(phases := phases[p := phase])
    }

    /** An exclusive create that found the name free. */
    function Created(): World {
      this.(claim := Some(|inodes|), inodes := inodes + [Unparsable])
    }
  }

  /** The next call of process p.  breaksOff: after its create the write fails, or what it then
      checks has changed, so that it releases at once. */
  function Next(w: World, p: Pid, breaksOff: bool): World
    requires p < |w.phases| && w.WellFormed()
  {
    match w.phases[p]
    case Idle =>
      (match w.claim
       case None => w.At(p, Claiming)
       case Some(inode) => w.At(p, Reading(inode)))
    case Reading(inode) =>
      (match w.inodes[inode]
       case Unparsable => w.At(p, Idle)
       case NoOwner => w.At(p, Claiming)
       case Owner(_, _) => if w.Dead(w.inodes[inode]) then w.At(p, FoundDead(w.inodes[inode])) else w.At(p, Claiming))
    case FoundDead(raw) =>
      (match w.claim
       case None => w.At(p, Claiming)
       case Some(inode) => w.(claim := None).At(p, Quarantined(raw, inode)))
    case Quarantined(raw, inode) =>
      if w.inodes[inode] != raw then w.At(p, PuttingBack(w.inodes[inode])) else w.At(p, Discarding)
    case PuttingBack(content) =>
      if w.claim.Some? then w.At(p, Idle) else w.Created().At(p, WritingBack(|w.inodes|, content))
    case WritingBack(inode, content) => w.(inodes := w.inodes[inode := content]).At(p, Discarding)
    case Discarding => w.At(p, Claiming)
    case Claiming =>
      if w.claim.Some? then w.At(p, Idle) else w.Created().At(p, Claimed(|w.inodes|))
    case Claimed(inode) =>
      if breaksOff then w.At(p, Releasing) else w.(inodes := w.inodes[inode := Owner(p, inode)]).At(p, Holding)
    case Holding => w.At(p, Releasing)
    case Releasing => w.(claim := None).At(p, Idle)
  }

  // ------------------------------------------------------------------ exclusion of two

  /** Process q has renamed a live claim away and will put it back. */
  predicate InWindow(w: World, q: Pid) {
    && q < |w.phases|
    && ((w.phases[q].Quarantined? && w.phases[q].inode < |w.inodes| && !w.Dead(w.inodes[w.phases[q].inode]))
        || w.phases[q].PuttingBack?)
  }

  /** If p holds, q does not, and the name is taken or q is about to take it again. */
  predicate Guarded(w: World, p: Pid, q: Pid) {
    w.WellFormed() && w.Holds(p) ==>
      && !w.Holds(q)
      && (w.claim.Some? ==> !w.Dead(w.inodes[w.claim.value]))
      && (w.claim.None? ==> InWindow(w, q))
  }

  predicate PhaseOk(w: World, phase: Phase, d: Content) {
    match phase
    case FoundDead(raw) => raw == d && w.Dead(raw)
    case Quarantined(raw, _) => raw == d && w.Dead(raw)
    case PuttingBack(content) => !w.Dead(content)
    case WritingBack(_, content) => !w.Dead(content)
    case _ => true
  }

  /** d is the only text of a dead owner there is. */
  predicate OneDead(w: World, d: Content) {
    && (forall n | 0 <= n < |w.inodes| && w.Dead(w.inodes[n]) :: w.inodes[n] == d)
    && (forall p | 0 <= p < |w.phases| :: PhaseOk(w, w.phases[p], d))
  }

  predicate Safe(w: World, d: Content) {
    |w.phases| == 2 && w.WellFormed() && OneDead(w, d) && Guarded(w, 0, 1) && Guarded(w, 1, 0)
  }

  lemma NextWellFormed(w: World, p: Pid, breaksOff: bool)
    requires p < |w.phases| && w.WellFormed()
    ensures var w' := Next(w, p, breaksOff);
      && w'.WellFormed() && |w'.phases| == |w.phases|
      && forall q | 0 <= q < |w.phases| && q != p :: w'.phases[q] == w.phases[q]
  {
  }

  lemma NextOneDead(w: World, p: Pid, breaksOff: bool, d: Content)
    requires p < |w.phases| && w.WellFormed() && OneDead(w, d)
    ensures OneDead(Next(w, p, breaksOff), d)
  {
    var w' := Next(w, p, breaksOff);
    assert PhaseOk(w, w.phases[p], d);
    assert PhaseOk(w', w'.phases[p], d);
    hide Next, World.WellFormed;
    forall q | 0 <= q < |w'.phases|
      ensures PhaseOk(w', w'.phases[q], d)
    {
      assert q != p ==> PhaseOk(w, w.phases[q], d);
    }
  }

  lemma NextSafe(w: World, p: Pid, breaksOff: bool, d: Content)
    requires p < 2 && Safe(w, d)
    ensures Safe(Next(w, p, breaksOff), d)
  {
    NextWellFormed(w, p, breaksOff);
    NextOneDead(w, p, breaksOff, d);
    StepperGuarded(w, p, 1 - p, breaksOff, d);
    OtherGuarded(w, p, 1 - p, breaksOff, d);
  }

  /** The stepping process p, if it holds afterwards, is guarded from q. */
  lemma StepperGuarded(w: World, p: Pid, q: Pid, breaksOff: bool, d: Content)
    requires Safe(w, d) && p < 2 && q == 1 - p
    ensures Guarded(Next(w, p, breaksOff), p, q)
  {
    assert Guarded(w, p, q) && Guarded(w, q, p);
    hide OneDead, PhaseOk;
  }

  /** The other process q, if it holds, stays guarded from the stepping p. */
  lemma OtherGuarded(w: World, p: Pid, q: Pid, breaksOff: bool, d: Content)
    requires Safe(w, d) && p < 2 && q == 1 - p
    ensures Guarded(Next(w, p, breaksOff), q, p)
  {
    if w.Holds(q) {
      assert Guarded(w, q, p);
      assert PhaseOk(w, w.phases[p], d);
    }
  }

  /** One call after another, by any process in turn. */
  datatype Turn = Turn(p: Pid, breaksOff: bool)

  /** worlds[i] is the world before turns[i]. */
  predicate IsRun(worlds: seq<World>, turns: seq<Turn>) {
    && |worlds| == |turns| + 1
    && forall i | 0 <= i < |turns| ::
         && turns[i].p < |worlds[i].phases| && worlds[i].WellFormed()
         && worlds[i + 1] == Next(worlds[i], turns[i].p, turns[i].breaksOff)
  }

  /** n processes that have not begun, and possibly a claim file left by earlier ones. */
  predicate Fresh(w: World, n: nat) {
    && |w.phases| == n && (forall p | 0 <= p < n :: w.phases[p].Idle?)
    && (if w.inodes == [] then w.claim == None else |w.inodes| == 1 && w.claim == Some(0))
  }

  lemma {:induction false} RunIsSafe(worlds: seq<World>, turns: seq<Turn>, i: nat, d: Content)
    requires IsRun(worlds, turns) && Fresh(worlds[0], 2) && i <= |turns|
    requires worlds[0].inodes != [] ==> worlds[0].inodes[0] == d
    ensures Safe(worlds[i], d)
    decreases i
  {
    if i > 0 {
      RunIsSafe(worlds, turns, i - 1, d);
      NextSafe(worlds[i - 1], turns[i - 1].p, turns[i - 1].breaksOff, d);
    }
  }

  /** Two processes never hold the claim together, however their calls interleave and however
      often each tries again, whatever claim file they found. */
  lemma TwoNeverHoldTogether(worlds: seq<World>, turns: seq<Turn>, i: nat)
    requires IsRun(worlds, turns) && Fresh(worlds[0], 2) && i <= |turns|
    ensures !(worlds[i].Holds(0) && worlds[i].Holds(1))
  {
    RunIsSafe(worlds, turns, i, if worlds[0].inodes != [] then worlds[0].inodes[0] else NoOwner);
  }

  // ------------------------------------------------------------------ the bound is needed

  lemma Then(worlds: seq<World>, turns: seq<Turn>, p: Pid) returns (worlds': seq<World>, turns': seq<Turn>, w: World)
    requires IsRun(worlds, turns) && p < |worlds[|turns|].phases| && worlds[|turns|].WellFormed()
    ensures IsRun(worlds', turns') && worlds'[0] == worlds[0]
    ensures worlds'[|turns'|] == w == Next(worlds[|turns|], p, false)
  {
    hide Next;
    w := Next(worlds[|turns|], p, false);
    worlds', turns' := worlds + [w], turns + [Turn(p, false)];
  }

  /** Processes 0 and 1 have both judged a dead owner's claim; process 1 has renamed it. */
  lemma TwoJudge(others: seq<Phase>) returns (worlds: seq<World>, turns: seq<Turn>)
    requires others == [] || others == [Idle]
    ensures IsRun(worlds, turns) && Fresh(worlds[0], 2 + |others|)
    ensures worlds[|turns|]
            == World(None, [Owner(7, 0)], [FoundDead(Owner(7, 0)), Quarantined(Owner(7, 0), 0)] + others)
  {
    var w := World(Some(0), [Owner(7, 0)], [Idle, Idle] + others);
    worlds, turns := [w], [];
    assert IsRun(worlds, turns);
    hide IsRun;
    worlds, turns, w := Then(worlds, turns, 0);
    worlds, turns, w := Then(worlds, turns, 0);
    assert w == World(Some(0), [Owner(7, 0)], [FoundDead(Owner(7, 0)), Idle] + others);
    worlds, turns, w := Then(worlds, turns, 1);
    worlds, turns, w := Then(worlds, turns, 1);
    worlds, turns, w := Then(worlds, turns, 1);
  }

  /** Process 1 holds, process 0 has judged the claim before it. */
  lemma TwoContend(others: seq<Phase>) returns (worlds: seq<World>, turns: seq<Turn>)
    requires others == [] || others == [Idle]
    ensures IsRun(worlds, turns) && Fresh(worlds[0], 2 + |others|)
    ensures worlds[|turns|]
            == World(Some(1), [Owner(7, 0), Owner(1, 1)], [FoundDead(Owner(7, 0)), Holding] + others)
  {
    hide IsRun;
    var w;
    worlds, turns := TwoJudge(others);
    worlds, turns, w := Then(worlds, turns, 1);
    worlds, turns, w := Then(worlds, turns, 1);
    worlds, turns, w := Then(worlds, turns, 1);
    worlds, turns, w := Then(worlds, turns, 1);
  }

  /** With a third contender it fails: process 0 goes on to rename process 1's live claim away,
      and before it puts it back, process 2 finds no claim at all. */
  lemma ThirdContenderBreaksIt() returns (worlds: seq<World>, turns: seq<Turn>)
    ensures IsRun(worlds, turns) && Fresh(worlds[0], 3)
    ensures worlds[|turns|].Holds(1) && worlds[|turns|].Holds(2)
  {
    hide IsRun;
    var w;
    worlds, turns := TwoContend([Idle]);
    worlds, turns, w := Then(worlds, turns, 0);
    worlds, turns, w := Then(worlds, turns, 2);
    worlds, turns, w := Then(worlds, turns, 2);
  }

  // ------------------------------------------------------------------ when a claim succeeds

  function Alone(w: World, p: Pid, calls: nat): World
    requires p < |w.phases| && w.WellFormed()
    decreases calls
  {
    if calls == 0 then w
    else
      NextWellFormed(w, p, false);
      Alone(Next(w, p, false), p, calls - 1)
  }

  predicate Claimable(w: World)
    requires w.WellFormed()
  {
    w.claim.None? || w.Dead(w.inodes[w.claim.value])
  }

  lemma OneCall(w: World, p: Pid, calls: nat) returns (next: World)
    requires p < |w.phases| && w.WellFormed()
    ensures next == Next(w, p, false) && next.WellFormed() && |next.phases| == |w.phases|
    ensures Alone(w, p, calls + 1) == Alone(next, p, calls)
  {
    NextWellFormed(w, p, false);
    next := Next(w, p, false);
  }

  /** Undisturbed, an attempt ends with the claim held if there was none or a dead owner's, and
      otherwise gives up within three calls and leaves everything as it was. */
  lemma SucceedsExactlyWhenClaimable(w: World, p: Pid)
    requires p < |w.phases| && w.WellFormed() && w.phases[p].Idle?
    ensures Claimable(w) ==> Alone(w, p, if w.claim.None? then 3 else 7).Holds(p)
    ensures !Claimable(w) ==> Alone(w, p, if w.inodes[w.claim.value].Unparsable? then 2 else 3) == w
  {
    hide Alone;
    if w.claim.None? {
      TakesFree(w, p, 1);
    } else if Claimable(w) {
      var w1 := OneCall(w, p, 6);
      var w2 := OneCall(w1, p, 5);
      var w3 := OneCall(w2, p, 4);
      var w4 := OneCall(w3, p, 3);
      TakesFree(w4, p, 0);
    } else {
      GivesUp(w, p);
    }
  }

  lemma TakesFree(w: World, p: Pid, begin: nat)
    requires p < |w.phases| && w.WellFormed() && w.claim.None? && begin < 2
    requires w.phases[p] == if begin == 1 then Idle else Discarding
    ensures Alone(w, p, 3).Holds(p)
  {
    var w1 := OneCall(w, p, 2);
    var w2 := OneCall(w1, p, 1);
    var w3 := OneCall(w2, p, 0);
    assert Alone(w3, p, 0) == w3;
  }

  lemma GivesUp(w: World, p: Pid)
    requires p < |w.phases| && w.WellFormed() && w.phases[p].Idle? && !Claimable(w)
    ensures Alone(w, p, if w.inodes[w.claim.value].Unparsable? then 2 else 3) == w
  {
    if w.inodes[w.claim.value].Unparsable? {
      var w1 := OneCall(w, p, 1);
      var w2 := OneCall(w1, p, 0);
      assert w2.phases == w.phases;
      assert Alone(w2, p, 0) == w2;
    } else {
      var w1 := OneCall(w, p, 2);
      var w2 := OneCall(w1, p, 1);
      var w3 := OneCall(w2, p, 0);
      assert w3.phases == w.phases;
      assert Alone(w3, p, 0) == w3;
    }
  }

  // ------------------------------------------------------------------ when a release is lost

  /** The name is taken by a text that names no dead owner, and nobody is about to change that. */
  predicate Jammed(w: World) {
    && w.WellFormed() && w.claim.Some? && !w.Dead(w.inodes[w.claim.value])
    && forall p | 0 <= p < |w.phases| ::
         || w.phases[p].Idle? || w.phases[p].Claiming?
         || (w.phases[p].Reading? && !w.Dead(w.inodes[w.phases[p].inode]))
  }

  lemma NextStaysJammed(w: World, p: Pid, breaksOff: bool)
    requires p < |w.phases| && Jammed(w)
    ensures Jammed(Next(w, p, breaksOff))
  {
  }

  /** From a jammed state on nobody ever holds the claim again, while these processes live. */
  lemma {:induction false} JammedForEver(worlds: seq<World>, turns: seq<Turn>, i: nat, j: nat)
    requires IsRun(worlds, turns) && i <= j <= |turns| && Jammed(worlds[i])
    ensures Jammed(worlds[j]) && forall p :: !worlds[j].Holds(p)
    decreases j
  {
    if i < j {
      JammedForEver(worlds, turns, i, j - 1);
      NextStaysJammed(worlds[j - 1], turns[j - 1].p, turns[j - 1].breaksOff);
    }
  }

  /** How many calls process q has left in its attempt, up to an exclusive create that works. */
  function CallsLeft(w: World, q: Pid): nat
    requires q < |w.phases| && w.WellFormed()
  {
    match w.phases[q]
    case Reading(inode) => if w.inodes[inode].Unparsable? then 1 else if w.Dead(w.inodes[inode]) then 3 else 2
    case FoundDead(_) => 2
    case Quarantined(raw, inode) => if w.inodes[inode] == raw then 3 else 5
    case PuttingBack(_) => 4
    case WritingBack(_, _) => 3
    case Discarding => 2
    case Claiming => 1
    case _ => 0
  }

  /** p releases.  Once q has ended the attempt it may be in, the claim is free or q has it, unless
      q had renamed p's claim away and puts it back after the release: then nobody has it and
      nobody can get it. */
  lemma ReleaseFreesExactly(w: World, p: Pid, q: Pid, d: Content)
    requires Safe(w, d) && p < 2 && q == 1 - p && w.phases[p].Releasing?
    ensures var released := Next(w, p, false);
      var after := Alone(released, q, CallsLeft(released, q));
      if InWindow(w, q) then Jammed(after)
      else after.Holds(q) || (after.claim.None? && after.phases == [Idle, Idle])
  {
    assert Guarded(w, p, q) && PhaseOk(w, w.phases[q], d);
    NextWellFormed(w, p, false);
    var released := Next(w, p, false);
    if InWindow(w, q) {
      PutsBackForNobody(released, q);
    } else {
      GoesOnToHold(released, q);
    }
  }

  lemma PutsBackForNobody(w: World, q: Pid)
    requires |w.phases| == 2 && q < 2 && w.WellFormed() && w.claim.None? && w.phases[1 - q].Idle? && InWindow(w, q)
    requires w.phases[q].Quarantined? ==> w.inodes[w.phases[q].inode] != w.phases[q].raw
    requires w.phases[q].PuttingBack? ==> !w.Dead(w.phases[q].content)
    ensures Jammed(Alone(w, q, CallsLeft(w, q)))
  {
    hide Alone;
    var w0 := w;
    if w.phases[q].Quarantined? {
      w0 := OneCall(w, q, 4);
    }
    var w1 := OneCall(w0, q, 3);
    var w2 := OneCall(w1, q, 2);
    var w3 := OneCall(w2, q, 1);
    var w4 := OneCall(w3, q, 0);
    NoCall(w4, q);
  }

  lemma NoCall(w: World, p: Pid)
    requires p < |w.phases| && w.WellFormed()
    ensures Alone(w, p, 0) == w
  {
  }

  lemma GoesOnToHold(w: World, q: Pid)
    requires |w.phases| == 2 && q < 2 && w.WellFormed() && w.claim.None? && w.phases[1 - q].Idle?
    requires !InWindow(w, q) && !w.Holds(q)
    requires w.phases[q].Quarantined? ==> w.inodes[w.phases[q].inode] == w.phases[q].raw
    ensures var after := Alone(w, q, CallsLeft(w, q));
      after.Holds(q) || (after.claim.None? && after.phases == [Idle, Idle])
    decreases CallsLeft(w, q)
  {
    hide Alone;
    if CallsLeft(w, q) == 0 {
      NoCall(w, q);
    } else {
      var next := OneCall(w, q, CallsLeft(w, q) - 1);
      if next.Holds(q) {
        NoCall(next, q);
      } else {
        GoesOnToHold(next, q);
      }
    }
  }

  /** It happens with two processes: 0 renames 1's live claim away, 1 releases, 0 puts it back. */
  lemma ReleaseIsLost() returns (worlds: seq<World>, turns: seq<Turn>)
    ensures IsRun(worlds, turns) && Fresh(worlds[0], 2)
    ensures worlds[|turns|] == World(Some(2), [Owner(7, 0), Owner(1, 1), Owner(1, 1)], [Idle, Idle])
    ensures Jammed(worlds[|turns|])
  {
    hide IsRun;
    var w;
    worlds, turns := TwoContend([]);
    worlds, turns, w := Then(worlds, turns, 0);
    worlds, turns, w := Then(worlds, turns, 1);
    worlds, turns, w := Then(worlds, turns, 1);
    assert w == World(None, [Owner(7, 0), Owner(1, 1)], [Quarantined(Owner(7, 0), 1), Idle]);
    worlds, turns, w := Then(worlds, turns, 0);
    worlds, turns, w := Then(worlds, turns, 0);
    worlds, turns, w := Then(worlds, turns, 0);
    worlds, turns, w := Then(worlds, turns, 0);
    worlds, turns, w := Then(worlds, turns, 0);
  }
}
