/** Executing a command through a lossy transport, and finding out afterwards what became of
    it: clients, the messages in flight, and the executor with its ledger. */
module ExecuteProtocol {
  import opened Wrappers
  import opened LedgerSpec
  import opened LedgerProperties

  // ------------------------------------------------------------------ values on the wire

  /** resultWithIdempotencyOutcome. */
  function Annotated(v: Value, outcome: IdempotencyOutcome): Value {
    match v
    case Plain(text) => Wrapper(text, Some(outcome), None)
    case Record(body, _, timing) => Record(body, Some(outcome), timing)
    case Wrapper(text, _, timing) => Wrapper(text, Some(outcome), timing)
  }

  /** The transport server and the client add their timing to a record. */
  function Timed(v: Value, timing: int): Value {
    match v
    case Plain(_) => v
    case Record(body, outcome, _) => Record(body, outcome, Some(timing))
    case Wrapper(text, outcome, _) => Wrapper(text, outcome, Some(timing))
  }

  /** A value without the bridge's annotations. */
  function Essence(v: Value): Value {
    match v
    case Record(body, _, _) => Record(body, None, None)
    case Wrapper(text, _, _) => Plain(text)
    case Plain(text) => v
  }

  // ------------------------------------------------------------------ recovery

  /** Codes that BridgeError marks retryable. */
  predicate Retryable(code: ErrorCode) {
    code in {SshDisconnected, TransportDisconnected, OtherCode("OUTPUT_TRUNCATED")}
  }

  /** The answer to one resultStatus request: a snapshot, or the error the request ended in. */
  datatype Poll = Answer(snapshot: Snapshot) | Unanswered(code: ErrorCode)

  /** What one poll decides: go on polling, succeed, or throw with a code. */
  datatype Verdict = Again | Success(value: Value) | Throw(code: ErrorCode)

  function Judge(poll: Poll): Verdict {
    match poll
    case Unanswered(code) => if Retryable(code) then Again else Throw(ResultUnknown)
    case Answer(s) =>
      match s.status
      case Completed =>
        if s.result.Some? && !s.result.value.Plain? then Success(Annotated(s.result.value, Replayed))
        else Throw(ResultUnknown)
      case Running => Again
      case Unknown => Throw(ResultUnknown)
      case _ => if s.error.Some? then Throw(s.error.value.code) else Throw(ResultUnknown)
  }

  // What a poll means for the caller, by its status and code alone.

  /** Nothing is decided: it still runs, or the question was lost on the way. */
  predicate GoesPast(poll: Poll) {
    || (poll.Answer? && poll.snapshot.status == Running)
    || (poll.Unanswered?
        && (poll.code == SshDisconnected || poll.code == TransportDisconnected
            || poll.code == OtherCode("OUTPUT_TRUNCATED")))
  }

  predicate Completes(poll: Poll) {
    && poll.Answer? && poll.snapshot.status == Completed
    && poll.snapshot.result.Some? && !poll.snapshot.result.value.Plain?
  }

  predicate FailsWith(poll: Poll, code: ErrorCode) {
    && poll.Answer? && (poll.snapshot.status == Cancelled || poll.snapshot.status == Failed)
    && poll.snapshot.error.Some? && poll.snapshot.error.value.code == code
  }

  /** verdict is what a deciding poll leads to. */
  ghost predicate Follows(poll: Poll, verdict: Verdict) {
    if Completes(poll) then
      && verdict.Success? && !verdict.value.Plain?
      && verdict.value == poll.snapshot.result.value.(idempotencyOutcome := Some(Replayed))
    else
      && verdict.Throw?
      && (FailsWith(poll, verdict.code)
          || (verdict.code == ResultUnknown && forall code :: !FailsWith(poll, code)))
  }

  /** Poll k is the first that decides anything. */
  predicate DecidesFirst(polls: seq<Poll>, k: nat) {
    k < |polls| && !GoesPast(polls[k]) && forall i | 0 <= i < k :: GoesPast(polls[i])
  }

  lemma JudgeExactly(poll: Poll)
    ensures Judge(poll).Again? <==> GoesPast(poll)
    ensures !GoesPast(poll) ==> Follows(poll, Judge(poll))
  {
    if poll.Answer? && poll.snapshot.error.Some? {
      assert FailsWith(poll, poll.snapshot.error.value.code)
        <==> poll.snapshot.status == Cancelled || poll.snapshot.status == Failed;
    }
  }

  /** The polling loop.  polls are the answers that arrive before the deadline or the closing
      of the executor; the first one that decides anything ends it. */
  method RecoverExecuteResult(polls: seq<Poll>) returns (verdict: Verdict, attempts: nat)
    ensures forall k: nat | DecidesFirst(polls, k) :: attempts == k + 1 && Follows(polls[k], verdict)
    ensures (forall k: nat :: !DecidesFirst(polls, k)) ==> attempts == |polls| && verdict == Throw(ResultUnknown)
    ensures verdict.Success? ==>
              attempts > 0 && Completes(polls[attempts - 1])
              && Essence(verdict.value) == Essence(polls[attempts - 1].snapshot.result.value)
  {
    attempts := 0;
    while attempts < |polls|
      invariant 0 <= attempts <= |polls|
      invariant forall i | 0 <= i < attempts :: GoesPast(polls[i])
    {
      var poll := polls[attempts];
      attempts := attempts + 1;
      match poll {
        case Unanswered(code) =>
          if !Retryable(code) {
            assert DecidesFirst(polls, attempts - 1);
            return Throw(ResultUnknown), attempts;
          }
        case Answer(snapshot) =>
          if snapshot.status.Completed? {
            assert DecidesFirst(polls, attempts - 1);
            if snapshot.result.None? || snapshot.result.value.Plain? {
              return Throw(ResultUnknown), attempts;
            }
            return Success(Annotated(snapshot.result.value, Replayed)), attempts;
          }
          if snapshot.status.Cancelled? || snapshot.status.Failed? {
            assert DecidesFirst(polls, attempts - 1);
            if snapshot.error.None? {
              return Throw(ResultUnknown), attempts;
            }
            return Throw(snapshot.error.value.code), attempts;
          }
          if snapshot.status.Unknown? {
            assert DecidesFirst(polls, attempts - 1);
            return Throw(ResultUnknown), attempts;
          }
      }
    }
    return Throw(ResultUnknown), attempts;
  }

  // ------------------------------------------------------------------ the protocol

  type RequestId = string
  type CallId = nat

  datatype Request =
    | Execute(id: RequestId, key: EntryId, fingerprint: string)
    | ResultStatus(id: RequestId, key: EntryId)

  datatype Response =
    | ResultReply(id: RequestId, value: Value)
    | ErrorReply(id: RequestId, code: ErrorCode)
    | StatusReply(id: RequestId, snapshot: Snapshot)

  /** One execute() call of a client. */
  datatype Phase =
    | Requesting(request: RequestId)
    | Polling(request: RequestId)
    | Waiting
    | Resolved(value: Value, recovered: bool)  // recovered: the answer came from resultStatus
    | Threw(code: ErrorCode)

  datatype Call = Call(key: EntryId, fingerprint: string, sideEffect: bool, phase: Phase)

  /** An execute request the executor has accepted and whose outcome it still owes. */
  datatype Waiter = Waiter(key: EntryId, fingerprint: string, outcome: IdempotencyOutcome, result: Promise)

  /** What a request id was issued for. */
  datatype Issue = ForExecute(key: EntryId, fingerprint: string) | ForStatus(key: EntryId)

  datatype World = World(
    calls: map<CallId, Call>,
    issued: map<RequestId, Issue>,       // every request id ever used
    toRemote: set<Request>,
    toClient: set<Response>,
    waiters: map<RequestId, Waiter>,
    ledger: State,
    dropped: set<EntryId>                // keys whose entry the ledger has let go
  )

  const START := World(map[], map[], {}, {}, map[], EMPTY, {})

  datatype Step =
    | CallExecute(c: CallId, r: RequestId, key: EntryId, fingerprint: string, sideEffect: bool)
    | RemoteExecute(request: Request, now: int)
    | RemoteStatus(request: Request, now: int)
    | RemoteSettle(u: nat, outcome: Outcome, now: int)
    | RemoteComplete(r: RequestId, timing: int)
    | RemoteOther(event: Event)          // cancel requests and workspace stops
    | LoseRequest(request: Request)
    | LoseResponse(response: Response)
    | Receive(c: CallId, response: Response, timing: int)
    | Disconnect(c: CallId)
    | Poll(c: CallId, r: RequestId)
    | GiveUp(c: CallId)

  function Phased(w: World, c: CallId, phase: Phase): World
    requires c in w.calls
  {
    w.(calls := w.calls[c := w.calls[c].(phase := phase)])
  }

  /** The request closure: a lost connection leaves a side effect in doubt. */
  function AfterRequestError(call: Call, code: ErrorCode): Phase {
    var seen := if call.sideEffect && code in {TransportDisconnected, SshDisconnected} then ResultUnknown else code;
    if call.sideEffect && seen == ResultUnknown then Waiting else Threw(seen)
  }

  function AfterReply(call: Call, response: Response, timing: int): Phase {
    match call.phase
    case Requesting(_) =>
      (match response
       case ResultReply(_, value) => Resolved(Timed(value, timing), false)
       case ErrorReply(_, code) => AfterRequestError(call, code)
       case StatusReply(_, _) => call.phase)
    case Polling(_) =>
      (match response
       case StatusReply(_, snapshot) =>
         (match Judge(Answer(snapshot))
          case Again => Waiting
          case Success(value) => Resolved(Timed(value, timing), true)
          case Throw(code) => Threw(code))
       case ErrorReply(_, code) =>
         (match Judge(Unanswered(code))
          case Throw(code') => Threw(code')
          case _ => Waiting)
       case ResultReply(_, _) => call.phase)
    case _ => call.phase
  }

  /** When an execute request ends in an error: a side effect in doubt goes on to recovery, and
      nothing else does; any other error reaches the caller as it is. */
  lemma RequestErrorsExactly(call: Call, code: ErrorCode)
    ensures AfterRequestError(call, code) == Waiting
            <==> call.sideEffect && (code == ResultUnknown || code == TransportDisconnected || code == SshDisconnected)
    ensures AfterRequestError(call, code) != Waiting ==> AfterRequestError(call, code) == Threw(code)
  {
  }

  /** What an answer to resultStatus does to a call that waits for it. */
  lemma StatusAnswersExactly(call: Call, r: RequestId, snapshot: Snapshot, timing: int)
    requires call.phase == Polling(r)
    ensures
      var poll, phase := Answer(snapshot), AfterReply(call, StatusReply(r, snapshot), timing);
      && (phase == Waiting <==> GoesPast(poll))
      && (phase.Resolved? <==> Completes(poll))
      && (phase.Resolved? ==>
            && phase.recovered && !phase.value.Plain?
            && phase.value
               == snapshot.result.value.(idempotencyOutcome := Some(Replayed), transportTiming := Some(timing)))
      && (phase.Threw? <==> !GoesPast(poll) && !Completes(poll))
      && (forall code :: FailsWith(poll, code) ==> phase == Threw(code))
      && (phase.Threw? && (forall code :: !FailsWith(poll, code)) ==> phase == Threw(ResultUnknown))
  {
    JudgeExactly(Answer(snapshot));
  }

  /** An event inside the ledger, noting what it lets go. */
  function Ledgered(cfg: Config, w: World, e: Event): World
    requires Indexed(w.ledger) && Enabled(w.ledger, e)
  {
    var next := Apply(cfg, w.ledger, e);
    w.(ledger := next, dropped := w.dropped + (w.ledger.entries.Keys - next.entries.Keys) + Pruned(cfg, w.ledger, e))
  }

  predicate CanStep(w: World, step: Step) {
    match step
    case CallExecute(c, r, _, _, _) => c !in w.calls && r !in w.issued
    case RemoteExecute(request, _) => request in w.toRemote && request.Execute?
    case RemoteStatus(request, _) => request in w.toRemote && request.ResultStatus?
    case RemoteSettle(u, _, _) => u < |w.ledger.cells| && w.ledger.cells[u].snapshot.status.Running?
    case RemoteComplete(r, _) => r in w.waiters && LedgerSpec.Resolved(w.ledger, w.waiters[r].result).Some?
    case RemoteOther(event) => (event.CancelCall? || event.ClearCall? || event.ClearDone?) && Enabled(w.ledger, event)
    case LoseRequest(request) => request in w.toRemote
    case LoseResponse(response) => response in w.toClient
    case Receive(c, response, _) =>
      && response in w.toClient && c in w.calls
      && (w.calls[c].phase.Requesting? || w.calls[c].phase.Polling?)
      && w.calls[c].phase.request == response.id
      && (response.StatusReply? ==> w.calls[c].phase.Polling?)
      && (response.ResultReply? ==> w.calls[c].phase.Requesting?)
    case Disconnect(c) => c in w.calls && (w.calls[c].phase.Requesting? || w.calls[c].phase.Polling?)
    case Poll(c, r) => c in w.calls && w.calls[c].phase.Waiting? && r !in w.issued
    case GiveUp(c) => c in w.calls && w.calls[c].phase.Waiting?
  }

  function Next(cfg: Config, w: World, step: Step): World
    requires Indexed(w.ledger) && CanStep(w, step)
  {
    match step
    case CallExecute(c, r, key, fingerprint, sideEffect) =>
      w.(calls := w.calls[c := Call(key, fingerprint, sideEffect, Requesting(r))],
         issued := w.issued[r := ForExecute(key, fingerprint)],
         toRemote := w.toRemote + {Execute(r, key, fingerprint)})
    case RemoteExecute(request, now) =>
      var e := StartCall(now, request.key, request.id, request.fingerprint);
      var started := Start(cfg, w.ledger, now, request.key, request.id, request.fingerprint).1;
      var after := Ledgered(cfg, w, e).(toRemote := w.toRemote - {request});
      (match started
       case Denied(code) => after.(toClient := w.toClient + {ErrorReply(request.id, code)})
       case Handle(outcome, result) =>
         after.(waiters := w.waiters[request.id := Waiter(request.key, request.fingerprint, outcome, result)]))
    case RemoteStatus(request, now) =>
      var after := Ledgered(cfg, w, StatusCall(now)).(toRemote := w.toRemote - {request});
      after.(toClient := w.toClient + {StatusReply(request.id, StatusOf(after.ledger, request.key))})
    case RemoteSettle(u, outcome, now) => Ledgered(cfg, w, SettleEvent(u, outcome, now))
    case RemoteComplete(r, timing) =>
      var waiter := w.waiters[r];
      var reply := match LedgerSpec.Resolved(w.ledger, waiter.result).value
        case Fulfilled(value) => ResultReply(r, Timed(Annotated(value, waiter.outcome), timing))
        case Rejected(error) => ErrorReply(r, error.code);
      w.(waiters := w.waiters - {r}, toClient := w.toClient + {reply})
    case RemoteOther(event) => Ledgered(cfg, w, event)
    case LoseRequest(request) => w.(toRemote := w.toRemote - {request})
    case LoseResponse(response) => w.(toClient := w.toClient - {response})
    case Receive(c, response, timing) =>
      Phased(w, c, AfterReply(w.calls[c], response, timing)).(toClient := w.toClient - {response})
    case Disconnect(c) =>
      Phased(w, c,
             if w.calls[c].phase.Requesting? then AfterRequestError(w.calls[c], TransportDisconnected) else Waiting)
    case Poll(c, r) =>
      Phased(w, c, Polling(r)).(
        issued := w.issued[r := ForStatus(w.calls[c].key)],
        toRemote := w.toRemote + {ResultStatus(r, w.calls[c].key)})
    case GiveUp(c) => Phased(w, c, Threw(ResultUnknown))
  }

  // ------------------------------------------------------------------ the invariant

  ghost predicate ProducedBy(s: State, u: nat, key: EntryId, v: Value) {
    && u < |s.cells| && s.cells[u].entryId == key
    && s.cells[u].outcome.Some? && s.cells[u].outcome.value.Fulfilled?
    && Essence(s.cells[u].outcome.value.value) == Essence(v)
  }

  /** Some execution that the ledger started for the key produced v, annotations aside. */
  ghost predicate Produced(s: State, key: EntryId, v: Value) {
    exists u: nat :: ProducedBy(s, u, key, v)
  }

  ghost predicate ProducedFrom(s: State, u: nat, key: EntryId, fingerprint: string, v: Value) {
    ProducedBy(s, u, key, v) && s.cells[u].fingerprint == fingerprint
  }

  /** Some execution that the ledger started for the key and these parameters produced v. */
  ghost predicate ProducedFor(s: State, key: EntryId, fingerprint: string, v: Value) {
    exists u: nat :: ProducedFrom(s, u, key, fingerprint, v)
  }

  predicate IssuedFor(w: World, r: RequestId, issue: Issue) {
    r in w.issued && w.issued[r] == issue
  }

  function IssueOf(request: Request): Issue {
    match request
    case Execute(_, key, fingerprint) => ForExecute(key, fingerprint)
    case ResultStatus(_, key) => ForStatus(key)
  }

  ghost predicate CallOk(w: World, call: Call) {
    match call.phase
    case Requesting(r) => IssuedFor(w, r, ForExecute(call.key, call.fingerprint))
    case Polling(r) => IssuedFor(w, r, ForStatus(call.key)) && call.sideEffect
    case Waiting => call.sideEffect
    case Resolved(v, recovered) =>
      if recovered then Produced(w.ledger, call.key, v) && call.sideEffect
      else ProducedFor(w.ledger, call.key, call.fingerprint, v)
    case _ => true
  }

  ghost predicate ResponseOk(w: World, response: Response) {
    && response.id in w.issued
    && var issue := w.issued[response.id];
    && (response.ResultReply? && issue.ForExecute? ==>
          ProducedFor(w.ledger, issue.key, issue.fingerprint, response.value))
    && (response.StatusReply? && response.snapshot.status.Completed? && response.snapshot.result.Some? ==>
          Produced(w.ledger, issue.key, response.snapshot.result.value))
  }

  ghost predicate WaiterOk(w: World, r: RequestId, waiter: Waiter) {
    && IssuedFor(w, r, ForExecute(waiter.key, waiter.fingerprint))
    && (waiter.result.OfOperation? ==>
          && waiter.result.u < |w.ledger.cells|
          && w.ledger.cells[waiter.result.u].entryId == waiter.key
          && w.ledger.cells[waiter.result.u].fingerprint == waiter.fingerprint)
  }

  /** While a key has not been let go, every execution made for it is the stored one. */
  ghost predicate KeptUnlessDropped(w: World) {
    forall u | 0 <= u < |w.ledger.cells| && w.ledger.cells[u].entryId !in w.dropped :: Stored(w.ledger, u)
  }

  ghost predicate WorldOk(cfg: Config, w: World) {
    && Inv(cfg, w.ledger)
    && (forall c | c in w.calls :: CallOk(w, w.calls[c]))
    && (forall request | request in w.toRemote :: IssuedFor(w, request.id, IssueOf(request)))
    && (forall response | response in w.toClient :: ResponseOk(w, response))
    && (forall r | r in w.waiters :: WaiterOk(w, r, w.waiters[r]))
    && KeptUnlessDropped(w)
  }

  lemma ProducedStays(s: State, t: State, key: EntryId, v: Value)
    requires CellsEvolve(s, t) && Produced(s, key, v)
    ensures Produced(t, key, v)
  {
    var u: nat :| ProducedBy(s, u, key, v);
    assert Evolves(s.cells[u], t.cells[u]);
    assert ProducedBy(t, u, key, v);
  }

  lemma ProducedForStays(s: State, t: State, key: EntryId, fingerprint: string, v: Value)
    requires CellsEvolve(s, t) && ProducedFor(s, key, fingerprint, v)
    ensures ProducedFor(t, key, fingerprint, v)
  {
    var u: nat :| ProducedFrom(s, u, key, fingerprint, v);
    assert Evolves(s.cells[u], t.cells[u]);
    assert ProducedFrom(t, u, key, fingerprint, v);
  }

  lemma LedgerKeepsUnlessDropped(cfg: Config, w: World, e: Event)
    requires Inv(cfg, w.ledger) && Enabled(w.ledger, e) && KeptUnlessDropped(w)
    ensures KeptUnlessDropped(Ledgered(cfg, w, e))
  {
    var t, dropped := Apply(cfg, w.ledger, e), Ledgered(cfg, w, e).dropped;
    ApplyEvolvesCells(cfg, w.ledger, e);
    hide Inv, Indexed, Apply, Pruned;
    forall u | 0 <= u < |t.cells| && t.cells[u].entryId !in dropped
      ensures Stored(t, u)
    {
      assert u < |w.ledger.cells| ==> Evolves(w.ledger.cells[u], t.cells[u]);
      StoredUnlessLetGo(cfg, w.ledger, e, u);
    }
  }

  /** From w to w' request ids keep their keys and settled executions their outcomes. */
  ghost predicate Grows(w: World, w': World) {
    CellsEvolve(w.ledger, w'.ledger) && forall r | r in w.issued :: IssuedFor(w', r, w.issued[r])
  }

  lemma CallOkStays(w: World, w': World, call: Call)
    requires Grows(w, w') && CallOk(w, call)
    ensures CallOk(w', call)
  {
    if call.phase.Resolved? && call.phase.recovered {
      ProducedStays(w.ledger, w'.ledger, call.key, call.phase.value);
    } else if call.phase.Resolved? {
      ProducedForStays(w.ledger, w'.ledger, call.key, call.fingerprint, call.phase.value);
    }
  }

  lemma ResponseOkStays(w: World, w': World, response: Response)
    requires Grows(w, w') && ResponseOk(w, response)
    ensures ResponseOk(w', response)
  {
    var issue := w.issued[response.id];
    assert IssuedFor(w', response.id, issue);
    if response.ResultReply? && issue.ForExecute? {
      ProducedForStays(w.ledger, w'.ledger, issue.key, issue.fingerprint, response.value);
    } else if response.StatusReply? && response.snapshot.status.Completed? && response.snapshot.result.Some? {
      ProducedStays(w.ledger, w'.ledger, issue.key, response.snapshot.result.value);
    }
  }

  lemma WaiterOkStays(w: World, w': World, r: RequestId, waiter: Waiter)
    requires Grows(w, w') && WaiterOk(w, r, waiter)
    ensures WaiterOk(w', r, waiter)
  {
    if waiter.result.OfOperation? {
      assert Evolves(w.ledger.cells[waiter.result.u], w'.ledger.cells[waiter.result.u]);
    }
  }

  /** Only what is new in w' needs a look. */
  lemma WorldOkFrom(cfg: Config, w: World, w': World)
    requires WorldOk(cfg, w) && Grows(w, w')
    requires Inv(cfg, w'.ledger) && KeptUnlessDropped(w')
    requires forall c | c in w'.calls :: (c in w.calls && w.calls[c] == w'.calls[c]) || CallOk(w', w'.calls[c])
    requires forall q | q in w'.toRemote :: q in w.toRemote || IssuedFor(w', q.id, IssueOf(q))
    requires forall p | p in w'.toClient :: p in w.toClient || ResponseOk(w', p)
    requires forall r | r in w'.waiters ::
               (r in w.waiters && w.waiters[r] == w'.waiters[r]) || WaiterOk(w', r, w'.waiters[r])
    ensures WorldOk(cfg, w')
  {
    hide Inv, KeptUnlessDropped, Grows, CallOk, ResponseOk, WaiterOk;
    forall c | c in w'.calls ensures CallOk(w', w'.calls[c]) {
      if c in w.calls && w.calls[c] == w'.calls[c] {
        CallOkStays(w, w', w.calls[c]);
      }
    }
    forall p | p in w'.toClient ensures ResponseOk(w', p) {
      if p in w.toClient {
        ResponseOkStays(w, w', p);
      }
    }
    forall r | r in w'.waiters ensures WaiterOk(w', r, w'.waiters[r]) {
      if r in w.waiters && w.waiters[r] == w'.waiters[r] {
        WaiterOkStays(w, w', r, w.waiters[r]);
      }
    }
    forall q | q in w'.toRemote ensures IssuedFor(w', q.id, IssueOf(q)) {
      if q in w.toRemote {
        IssuedStays(w, w', q.id, IssueOf(q));
      }
    }
  }

  lemma IssuedStays(w: World, w': World, r: RequestId, issue: Issue)
    requires Grows(w, w') && IssuedFor(w, r, issue)
    ensures IssuedFor(w', r, issue)
  {
  }

  lemma SameLedgerGrows(w: World, w': World)
    requires w'.ledger == w.ledger
    requires forall r | r in w.issued :: IssuedFor(w', r, w.issued[r])
    ensures Grows(w, w')
  {
  }

  /** The ledger moves and nothing else does. */
  lemma LedgeredOk(cfg: Config, w: World, e: Event)
    requires WorldOk(cfg, w) && Enabled(w.ledger, e)
    ensures WorldOk(cfg, Ledgered(cfg, w, e)) && Grows(w, Ledgered(cfg, w, e))
  {
    var w' := Ledgered(cfg, w, e);
    ApplyKeepsInv(cfg, w.ledger, e);
    ApplyEvolvesCells(cfg, w.ledger, e);
    LedgerKeepsUnlessDropped(cfg, w, e);
    hide Inv, Indexed, Apply, Pruned, KeptUnlessDropped, CellsEvolve, CallOk, ResponseOk, WaiterOk;
    WorldOkFrom(cfg, w, w');
  }

  lemma CallExecuteOk(cfg: Config, w: World, step: Step)
    requires WorldOk(cfg, w) && step.CallExecute? && CanStep(w, step)
    ensures WorldOk(cfg, Next(cfg, w, step))
  {
    var w' := Next(cfg, w, step);
    hide Inv, KeptUnlessDropped, ResponseOk, WaiterOk, CellsEvolve;
    SameLedgerGrows(w, w');
    SameKept(w, w');
    hide Grows;
    WorldOkFrom(cfg, w, w');
  }

  lemma SameKept(w: World, w': World)
    requires KeptUnlessDropped(w) && w'.ledger == w.ledger && w'.dropped == w.dropped
    ensures KeptUnlessDropped(w')
  {
  }

  /** A handle's promise belongs to an execution made for the request's key and parameters. */
  lemma HandleIsForTheKey(cfg: Config, s: State, now: int, id: EntryId, o: OperationId, fingerprint: string)
    requires Inv(cfg, s)
    ensures var (t, started) := Start(cfg, s, now, id, o, fingerprint);
      started.Handle? && started.result.OfOperation? ==>
        && started.result.u < |t.cells|
        && t.cells[started.result.u].entryId == id && t.cells[started.result.u].fingerprint == fingerprint
  {
    HandlesFollowTheStoredExecution(cfg, s, now, id, o, fingerprint);
    StartKeepsInv(cfg, s, now, id, o, fingerprint);
  }

  lemma RemoteExecuteOk(cfg: Config, w: World, step: Step)
    requires WorldOk(cfg, w) && step.RemoteExecute? && CanStep(w, step)
    ensures WorldOk(cfg, Next(cfg, w, step))
  {
    var q := step.request;
    var e := StartCall(step.now, q.key, q.id, q.fingerprint);
    LedgeredOk(cfg, w, e);
    HandleIsForTheKey(cfg, w.ledger, step.now, q.key, q.id, q.fingerprint);
    hide Inv, Indexed, Start, Pruned, KeptUnlessDropped, CellsEvolve, CallOk;
    var v, w' := Ledgered(cfg, w, e), Next(cfg, w, step);
    SameLedgerGrows(v, w');
    SameKept(v, w');
    hide Grows;
    WorldOkFrom(cfg, v, w');
  }

  lemma StatusIsOfTheKey(cfg: Config, s: State, key: EntryId)
    requires Inv(cfg, s)
    ensures var snapshot := StatusOf(s, key);
      snapshot.status.Completed? && snapshot.result.Some? ==> Produced(s, key, snapshot.result.value)
  {
    var snapshot := StatusOf(s, key);
    if snapshot.status.Completed? && snapshot.result.Some? {
      var u := s.entries[key];
      assert CellOk(cfg, s.cells[u]);
      assert ProducedBy(s, u, key, snapshot.result.value);
    }
  }

  lemma RemoteStatusOk(cfg: Config, w: World, step: Step)
    requires WorldOk(cfg, w) && step.RemoteStatus? && CanStep(w, step)
    ensures WorldOk(cfg, Next(cfg, w, step))
  {
    hide Apply, Pruned, CellsEvolve, CallOk, WaiterOk, StatusOf, Produced;
    LedgeredOk(cfg, w, StatusCall(step.now));
    var v, w' := Ledgered(cfg, w, StatusCall(step.now)), Next(cfg, w, step);
    StatusIsOfTheKey(cfg, v.ledger, step.request.key);
    hide Inv, Indexed, KeptUnlessDropped;
    SameLedgerGrows(v, w');
    SameKept(v, w');
    hide Grows;
    WorldOkFrom(cfg, v, w');
  }

  lemma RemoteCompleteOk(cfg: Config, w: World, step: Step)
    requires WorldOk(cfg, w) && step.RemoteComplete? && CanStep(w, step)
    ensures WorldOk(cfg, Next(cfg, w, step))
  {
    var w' := Next(cfg, w, step);
    var waiter := w.waiters[step.r];
    assert WaiterOk(w, step.r, waiter);
    var resolved := LedgerSpec.Resolved(w.ledger, waiter.result).value;
    if resolved.Fulfilled? {
      assert ProducedFrom(w.ledger, waiter.result.u, waiter.key, waiter.fingerprint,
                          Timed(Annotated(resolved.value, waiter.outcome), step.timing));
    }
    hide Inv, Indexed, KeptUnlessDropped, CellsEvolve, CallOk, Essence, Annotated, Timed;
    SameLedgerGrows(w, w');
    SameKept(w, w');
    hide Grows;
    WorldOkFrom(cfg, w, w');
  }

  lemma PhaseOk(w: World, call: Call, response: Response, timing: int)
    requires CallOk(w, call) && ResponseOk(w, response)
    requires (call.phase.Requesting? || call.phase.Polling?) && call.phase.request == response.id
    requires response.ResultReply? ==> call.phase.Requesting?
    ensures CallOk(w, call.(phase := AfterReply(call, response, timing)))
  {
    match AfterReply(call, response, timing)
    case Resolved(v, recovered) =>
      if recovered {
        var u: nat :| ProducedBy(w.ledger, u, call.key, response.snapshot.result.value);
        assert ProducedBy(w.ledger, u, call.key, v);
      } else {
        var u: nat :| ProducedFrom(w.ledger, u, call.key, call.fingerprint, response.value);
        assert ProducedFrom(w.ledger, u, call.key, call.fingerprint, v);
      }
    case _ =>
  }

  lemma ReceivedCallOk(cfg: Config, w: World, step: Step)
    requires WorldOk(cfg, w) && CanStep(w, step) && step.Receive?
    ensures Grows(w, Next(cfg, w, step)) && CallOk(Next(cfg, w, step), Next(cfg, w, step).calls[step.c])
  {
    var call, w' := w.calls[step.c], Next(cfg, w, step);
    SameLedgerGrows(w, w');
    PhaseOk(w, call, step.response, step.timing);
    hide Inv, Indexed, KeptUnlessDropped, CellsEvolve, Grows, ResponseOk, WaiterOk, AfterReply, CallOk;
    CallOkStays(w, w', w'.calls[step.c]);
  }

  lemma OwnStepCallOk(cfg: Config, w: World, step: Step)
    requires Indexed(w.ledger) && CanStep(w, step) && (step.Disconnect? || step.Poll? || step.GiveUp?)
    requires CallOk(w, w.calls[step.c])
    ensures CallOk(Next(cfg, w, step), Next(cfg, w, step).calls[step.c])
  {
    hide Indexed, Ledgered, Start, AfterReply, Produced, ProducedFor;
  }

  /** The phase that a client step leads to is justified in the world it leads to. */
  lemma SteppedCallOk(cfg: Config, w: World, step: Step)
    requires WorldOk(cfg, w) && CanStep(w, step)
    requires step.Receive? || step.Disconnect? || step.Poll? || step.GiveUp?
    ensures Grows(w, Next(cfg, w, step)) && CallOk(Next(cfg, w, step), Next(cfg, w, step).calls[step.c])
  {
    if step.Receive? {
      ReceivedCallOk(cfg, w, step);
    } else {
      SameLedgerGrows(w, Next(cfg, w, step));
      hide CallOk, Grows;
      OwnStepCallOk(cfg, w, step);
    }
  }

  /** Steps that touch one call's phase and the messages. */
  lemma ClientStepOk(cfg: Config, w: World, step: Step)
    requires WorldOk(cfg, w) && CanStep(w, step)
    requires step.Receive? || step.Disconnect? || step.Poll? || step.GiveUp?
    ensures WorldOk(cfg, Next(cfg, w, step))
  {
    var w' := Next(cfg, w, step);
    SteppedCallOk(cfg, w, step);
    SameKept(w, w');
    hide Inv, Indexed, KeptUnlessDropped, CellsEvolve, Grows, CallOk, ResponseOk, WaiterOk, AfterReply;
    WorldOkFrom(cfg, w, w');
  }

  lemma LossOk(cfg: Config, w: World, step: Step)
    requires WorldOk(cfg, w) && CanStep(w, step) && (step.LoseRequest? || step.LoseResponse?)
    ensures WorldOk(cfg, Next(cfg, w, step))
  {
    var w' := Next(cfg, w, step);
    SameLedgerGrows(w, w');
    SameKept(w, w');
    hide Inv, Indexed, KeptUnlessDropped, CellsEvolve, Grows, CallOk, ResponseOk, WaiterOk;
    WorldOkFrom(cfg, w, w');
  }

  lemma StepKeepsWorldOk(cfg: Config, w: World, step: Step)
    requires WorldOk(cfg, w) && CanStep(w, step)
    ensures WorldOk(cfg, Next(cfg, w, step))
  {
    assert Indexed(w.ledger);
    hide WorldOk;
    assert WorldOk(cfg, Next(cfg, w, step)) by {
      match step
      case CallExecute(_, _, _, _, _) => CallExecuteOk(cfg, w, step);
      case RemoteExecute(_, _) => RemoteExecuteOk(cfg, w, step);
      case RemoteStatus(_, _) => RemoteStatusOk(cfg, w, step);
      case RemoteSettle(u, outcome, now) => LedgeredOk(cfg, w, SettleEvent(u, outcome, now));
      case RemoteComplete(_, _) => RemoteCompleteOk(cfg, w, step);
      case RemoteOther(event) => LedgeredOk(cfg, w, event);
      case LoseRequest(_) => LossOk(cfg, w, step);
      case LoseResponse(_) => LossOk(cfg, w, step);
      case Receive(_, _, _) => ClientStepOk(cfg, w, step);
      case Disconnect(_) => ClientStepOk(cfg, w, step);
      case Poll(_, _) => ClientStepOk(cfg, w, step);
      case GiveUp(_) => ClientStepOk(cfg, w, step);
    }
  }

  // ------------------------------------------------------------------ end to end

  /** worlds[i] is the world before steps[i]. */
  ghost predicate IsExecution(cfg: Config, worlds: seq<World>, steps: seq<Step>) {
    && |worlds| == |steps| + 1
    && worlds[0] == START
    && forall i | 0 <= i < |steps| ::
         Indexed(worlds[i].ledger) && CanStep(worlds[i], steps[i]) && worlds[i + 1] == Next(cfg, worlds[i], steps[i])
  }

  lemma {:induction false} ExecutionKeepsWorldOk(cfg: Config, worlds: seq<World>, steps: seq<Step>, i: nat)
    requires IsExecution(cfg, worlds, steps) && i <= |steps|
    ensures WorldOk(cfg, worlds[i])
    decreases i
  {
    if i > 0 {
      ExecutionKeepsWorldOk(cfg, worlds, steps, i - 1);
      StepKeepsWorldOk(cfg, worlds[i - 1], steps[i - 1]);
    }
  }

  lemma ProducedForIsProduced(s: State, key: EntryId, fingerprint: string, v: Value)
    requires ProducedFor(s, key, fingerprint, v)
    ensures Produced(s, key, v)
  {
    var u: nat :| ProducedFrom(s, u, key, fingerprint, v);
    assert ProducedBy(s, u, key, v);
  }

  lemma KeyOfProduct(s: State, u: nat, key: EntryId, v: Value)
    requires ProducedBy(s, u, key, v)
    ensures u < |s.cells| && s.cells[u].entryId == key
  {
  }

  /** End to end: in every run, whatever gets lost, a call that resolves gives what an execution
      of its key really produced; and as long as the ledger has not let the key go there is
      exactly one such execution, so the value is that one's. */
  lemma ResolvedCallsAreTruthful(cfg: Config, worlds: seq<World>, steps: seq<Step>, i: nat, c: CallId)
    requires IsExecution(cfg, worlds, steps) && i <= |steps|
    requires c in worlds[i].calls && worlds[i].calls[c].phase.Resolved?
    ensures
      var w, call := worlds[i], worlds[i].calls[c];
      && Produced(w.ledger, call.key, call.phase.value)
      && (call.key !in w.dropped ==>
            && call.key in w.ledger.entries
            && ProducedBy(w.ledger, w.ledger.entries[call.key], call.key, call.phase.value)
            && forall u | 0 <= u < |w.ledger.cells| && w.ledger.cells[u].entryId == call.key ::
                 u == w.ledger.entries[call.key])
  {
    ExecutionKeepsWorldOk(cfg, worlds, steps, i);
    var w, call := worlds[i], worlds[i].calls[c];
    assert CallOk(w, call);
    if !call.phase.recovered {
      ProducedForIsProduced(w.ledger, call.key, call.fingerprint, call.phase.value);
    }
    var u: nat :| ProducedBy(w.ledger, u, call.key, call.phase.value);
    hide Inv, CallOk, ResponseOk, WaiterOk, ProducedBy;
    if call.key !in w.dropped {
      KeyOfProduct(w.ledger, u, call.key, call.phase.value);
      assert Stored(w.ledger, u);
      forall v | 0 <= v < |w.ledger.cells| && w.ledger.cells[v].entryId == call.key
        ensures v == w.ledger.entries[call.key]
      {
        assert Stored(w.ledger, v);
      }
    }
  }

  // ------------------------------------------------------------------ whose parameters

  ghost predicate CalledBy(w: World, c: CallId, key: EntryId, fingerprint: string) {
    c in w.calls && w.calls[c].key == key && w.calls[c].fingerprint == fingerprint
  }

  ghost predicate CalledFor(w: World, key: EntryId, fingerprint: string) {
    exists c: CallId :: CalledBy(w, c, key, fingerprint)
  }

  /** Every execution, done or on its way, goes back to a call with its key and parameters. */
  ghost predicate Originated(w: World) {
    && (forall q | q in w.toRemote && q.Execute? :: CalledFor(w, q.key, q.fingerprint))
    && (forall u | 0 <= u < |w.ledger.cells| :: CalledFor(w, w.ledger.cells[u].entryId, w.ledger.cells[u].fingerprint))
  }

  predicate CallsStay(w: World, w': World) {
    forall c | c in w.calls ::
      c in w'.calls && w'.calls[c].key == w.calls[c].key && w'.calls[c].fingerprint == w.calls[c].fingerprint
  }

  lemma CalledForStays(w: World, w': World, key: EntryId, fingerprint: string)
    requires CallsStay(w, w') && CalledFor(w, key, fingerprint)
    ensures CalledFor(w', key, fingerprint)
  {
    var c: CallId :| CalledBy(w, c, key, fingerprint);
    assert CalledBy(w', c, key, fingerprint);
  }

  lemma NextKeepsCalls(cfg: Config, w: World, step: Step)
    requires Indexed(w.ledger) && CanStep(w, step)
    ensures CallsStay(w, Next(cfg, w, step))
  {
    hide Apply, Start, Pruned, Indexed;
  }

  /** What a step adds: an execution comes from a delivered request, a request from its call. */
  predicate CellsFrom(s: State, t: State, id: EntryId, fingerprint: string) {
    forall u | |s.cells| <= u < |t.cells| :: t.cells[u].entryId == id && t.cells[u].fingerprint == fingerprint
  }

  lemma StartAdds(cfg: Config, s: State, now: int, id: EntryId, o: OperationId, fingerprint: string)
    requires Inv(cfg, s)
    ensures CellsFrom(s, Start(cfg, s, now, id, o, fingerprint).0, id, fingerprint)
    ensures CellsEvolve(s, Start(cfg, s, now, id, o, fingerprint).0)
  {
    StartEvolvesCells(cfg, s, now, id, o, fingerprint);
    StartCases(cfg, s, now, id, o, fingerprint);
  }

  lemma OthersAddNothing(cfg: Config, s: State, e: Event)
    requires Inv(cfg, s) && Enabled(s, e) && !e.StartCall?
    ensures |Apply(cfg, s, e).cells| == |s.cells| && CellsEvolve(s, Apply(cfg, s, e))
  {
    ApplyEvolvesCells(cfg, s, e);
  }

  lemma NextAdds(cfg: Config, w: World, step: Step)
    requires Inv(cfg, w.ledger) && CanStep(w, step)
    ensures var w' := Next(cfg, w, step);
      && CellsEvolve(w.ledger, w'.ledger)
      && (if step.RemoteExecute? then CellsFrom(w.ledger, w'.ledger, step.request.key, step.request.fingerprint)
          else |w'.ledger.cells| == |w.ledger.cells|)
      && (forall q | q in w'.toRemote && q.Execute? && q !in w.toRemote ::
            step.CallExecute? && q.key == step.key && q.fingerprint == step.fingerprint)
  {
    hide Inv, Indexed, Pruned, CellsEvolve, CellsFrom, Start, Prune, Settle;
    match step
    case RemoteExecute(q, now) => StartAdds(cfg, w.ledger, now, q.key, q.id, q.fingerprint);
    case RemoteStatus(q, now) => OthersAddNothing(cfg, w.ledger, StatusCall(now));
    case RemoteSettle(u, outcome, now) => OthersAddNothing(cfg, w.ledger, SettleEvent(u, outcome, now));
    case RemoteOther(event) => OthersAddNothing(cfg, w.ledger, event);
    case _ => SameCellsEvolve(w.ledger);
  }

  lemma SameCellsEvolve(s: State)
    ensures CellsEvolve(s, s)
  {
  }

  lemma StepKeepsOriginated(cfg: Config, w: World, step: Step)
    requires Inv(cfg, w.ledger) && CanStep(w, step) && Originated(w)
    ensures Originated(Next(cfg, w, step))
  {
    NextKeepsCalls(cfg, w, step);
    NextAdds(cfg, w, step);
    var w' := Next(cfg, w, step);
    if step.CallExecute? {
      assert CalledBy(w', step.c, step.key, step.fingerprint);
    }
    hide Inv, Indexed, Next, CallsStay;
    forall q | q in w'.toRemote && q.Execute?
      ensures CalledFor(w', q.key, q.fingerprint)
    {
      if q in w.toRemote {
        CalledForStays(w, w', q.key, q.fingerprint);
      }
    }
    forall u | 0 <= u < |w'.ledger.cells|
      ensures CalledFor(w', w'.ledger.cells[u].entryId, w'.ledger.cells[u].fingerprint)
    {
      if u < |w.ledger.cells| {
        assert Evolves(w.ledger.cells[u], w'.ledger.cells[u]);
        CalledForStays(w, w', w.ledger.cells[u].entryId, w.ledger.cells[u].fingerprint);
      } else {
        CalledForStays(w, w', step.request.key, step.request.fingerprint);
      }
    }
  }

  lemma {:induction false} ExecutionKeepsOriginated(cfg: Config, worlds: seq<World>, steps: seq<Step>, i: nat)
    requires IsExecution(cfg, worlds, steps) && i <= |steps|
    ensures Originated(worlds[i])
    decreases i
  {
    if i > 0 {
      ExecutionKeepsWorldOk(cfg, worlds, steps, i - 1);
      ExecutionKeepsOriginated(cfg, worlds, steps, i - 1);
      StepKeepsOriginated(cfg, worlds[i - 1], steps[i - 1]);
    }
  }

  /** A call that was answered directly, as every call without a side effect is, got the result of
      its own parameters, whatever other calls do with its key.  A recovered one did if no call
      uses the key for different parameters. */
  lemma ResolvedCallsRanTheirOwnParameters(cfg: Config, worlds: seq<World>, steps: seq<Step>, i: nat, c: CallId)
    requires IsExecution(cfg, worlds, steps) && i <= |steps|
    requires c in worlds[i].calls && worlds[i].calls[c].phase.Resolved?
    ensures
      var w, call := worlds[i], worlds[i].calls[c];
      && (call.phase.recovered ==> call.sideEffect)
      && (!call.phase.recovered ==> ProducedFor(w.ledger, call.key, call.fingerprint, call.phase.value))
      && ((forall d | d in w.calls && w.calls[d].key == call.key :: w.calls[d].fingerprint == call.fingerprint) ==>
            ProducedFor(w.ledger, call.key, call.fingerprint, call.phase.value))
  {
    ExecutionKeepsWorldOk(cfg, worlds, steps, i);
    ExecutionKeepsOriginated(cfg, worlds, steps, i);
    ResolvedCallsAreTruthful(cfg, worlds, steps, i, c);
    var w, call := worlds[i], worlds[i].calls[c];
    assert CallOk(w, call);
    if forall d | d in w.calls && w.calls[d].key == call.key :: w.calls[d].fingerprint == call.fingerprint {
      var u: nat :| ProducedBy(w.ledger, u, call.key, call.phase.value);
      assert CalledFor(w, w.ledger.cells[u].entryId, w.ledger.cells[u].fingerprint);
      var d: CallId :| CalledBy(w, d, call.key, w.ledger.cells[u].fingerprint);
      assert w.calls[d].fingerprint == call.fingerprint;
      assert ProducedFrom(w.ledger, u, call.key, call.fingerprint, call.phase.value);
    }
  }

  // The run below, state by state.

  const SMALL := Config(1, 1000, 1000, s => Some(1))

  /** The ledger while the other call's execution runs, and after it has settled. */
  function Started(key: EntryId, other: string): State {
    State([Cell(key, other, {"r1"}, 0, None, RUNNING, None, false, false)], map[key := 0], map["r1" := 0])
  }

  function Settled(key: EntryId, other: string, answer: Value): State {
    State(
      [Cell(key, other, {}, 1, Some(0), SnapshotOf(Fulfilled(answer)), Some(Fulfilled(answer)), false, false)],
      map[key := 0], map[])
  }

  lemma StartsSmall(key: EntryId, other: string)
    ensures Indexed(EMPTY)
    ensures Start(SMALL, EMPTY, 0, key, "r1", other) == (Started(key, other), Handle(Executed, OfOperation(0)))
  {
    assert Prune(SMALL, EMPTY, 0).entries == map[];
    assert StoredBytes(EMPTY) == 0;
    assert Insert(EMPTY, key, "r1", other).cells == Started(key, other).cells;
  }

  lemma SettlesSmall(key: EntryId, other: string, answer: Value)
    ensures Indexed(Started(key, other))
    ensures Settle(SMALL, Started(key, other), 0, Fulfilled(answer), 0) == Settled(key, other, answer)
  {
    assert BytesUpTo(Started(key, other), 0) == 0;
    assert Started(key, other).operations - {"r1"} == map[];
  }

  lemma AnswersSmall(key: EntryId, other: string, answer: Value)
    ensures Indexed(Settled(key, other, answer))
    ensures Prune(SMALL, Settled(key, other, answer), 0) == Settled(key, other, answer)
    ensures StatusOf(Settled(key, other, answer), key) == SnapshotOf(Fulfilled(answer))
  {
    assert Prune(SMALL, Settled(key, other, answer), 0).entries == Settled(key, other, answer).entries;
  }

  lemma Then(cfg: Config, worlds: seq<World>, steps: seq<Step>, step: Step)
    returns (worlds': seq<World>, steps': seq<Step>, w: World)
    requires IsExecution(cfg, worlds, steps)
    requires Indexed(worlds[|steps|].ledger) && CanStep(worlds[|steps|], step)
    ensures IsExecution(cfg, worlds', steps') && worlds'[|steps'|] == w
    ensures w == Next(cfg, worlds[|steps|], step)
  {
    hide Next, CanStep, Indexed;
    w := Next(cfg, worlds[|steps|], step);
    worlds', steps' := worlds + [w], steps + [step];
  }

  /** Call 0 lost its connection before its request arrived; call 1 is under way. */
  predicate BothCalled(w: World, key: EntryId, mine: string) {
    && w.calls.Keys == {0, 1} && w.calls[0] == Call(key, mine, true, Waiting)
    && w.issued.Keys == {"r0", "r1"}
  }

  lemma BothCall(key: EntryId, mine: string, other: string) returns (worlds: seq<World>, steps: seq<Step>)
    ensures IsExecution(SMALL, worlds, steps) && BothCalled(worlds[|steps|], key, mine)
    ensures worlds[|steps|].ledger == EMPTY && Execute("r1", key, other) in worlds[|steps|].toRemote
  {
    StartsSmall(key, other);
    var w;
    worlds, steps := [START], [];
    assert IsExecution(SMALL, worlds, steps);
    hide IsExecution, Indexed, Start, Ledgered;
    worlds, steps, w := Then(SMALL, worlds, steps, CallExecute(0, "r0", key, mine, true));
    worlds, steps, w := Then(SMALL, worlds, steps, Disconnect(0));
    worlds, steps, w := Then(SMALL, worlds, steps, CallExecute(1, "r1", key, other, true));
  }

  lemma OtherExecutes(key: EntryId, mine: string, other: string, answer: Value)
    returns (worlds: seq<World>, steps: seq<Step>)
    ensures IsExecution(SMALL, worlds, steps) && BothCalled(worlds[|steps|], key, mine)
    ensures worlds[|steps|].ledger == Settled(key, other, answer)
  {
    StartsSmall(key, other);
    SettlesSmall(key, other, answer);
    var w;
    hide IsExecution, Start, Prune, Pruned, Settle, Indexed;
    worlds, steps := BothCall(key, mine, other);
    worlds, steps, w := Then(SMALL, worlds, steps, RemoteExecute(Execute("r1", key, other), 0));
    assert w.ledger == Started(key, other);
    worlds, steps, w := Then(SMALL, worlds, steps, RemoteSettle(0, Fulfilled(answer), 0));
  }

  /** Call 0 is waiting for the reply to its own request r1. */
  predicate Waits(w: World, key: EntryId, mine: string, sideEffect: bool) {
    0 in w.calls && w.calls[0] == Call(key, mine, sideEffect, Requesting("r1")) && w.issued.Keys == {"r1"}
  }

  lemma CallIsMade(key: EntryId, mine: string, sideEffect: bool) returns (worlds: seq<World>, steps: seq<Step>)
    ensures IsExecution(SMALL, worlds, steps) && Waits(worlds[|steps|], key, mine, sideEffect)
    ensures worlds[|steps|].ledger == EMPTY && Execute("r1", key, mine) in worlds[|steps|].toRemote
  {
    StartsSmall(key, mine);
    var w;
    worlds, steps := [START], [];
    assert IsExecution(SMALL, worlds, steps);
    hide IsExecution, Indexed, Start, Ledgered;
    worlds, steps, w := Then(SMALL, worlds, steps, CallExecute(0, "r1", key, mine, sideEffect));
  }

  lemma CallRuns(key: EntryId, mine: string, sideEffect: bool) returns (worlds: seq<World>, steps: seq<Step>)
    ensures IsExecution(SMALL, worlds, steps) && Waits(worlds[|steps|], key, mine, sideEffect)
    ensures worlds[|steps|].ledger == Started(key, mine) && "r1" in worlds[|steps|].waiters
    ensures worlds[|steps|].waiters["r1"] == Waiter(key, mine, Executed, OfOperation(0))
  {
    StartsSmall(key, mine);
    var w;
    hide IsExecution, Start, Prune, Pruned, Settle, Indexed;
    worlds, steps := CallIsMade(key, mine, sideEffect);
    worlds, steps, w := Then(SMALL, worlds, steps, RemoteExecute(Execute("r1", key, mine), 0));
    assert w.ledger == Started(key, mine);
  }

  lemma CallSettles(key: EntryId, mine: string, sideEffect: bool, answer: Value)
    returns (worlds: seq<World>, steps: seq<Step>)
    ensures IsExecution(SMALL, worlds, steps) && Waits(worlds[|steps|], key, mine, sideEffect)
    ensures worlds[|steps|].ledger == Settled(key, mine, answer) && "r1" in worlds[|steps|].waiters
    ensures worlds[|steps|].waiters["r1"] == Waiter(key, mine, Executed, OfOperation(0))
  {
    SettlesSmall(key, mine, answer);
    var w;
    hide IsExecution, Start, Prune, Pruned, Settle, Indexed;
    worlds, steps := CallRuns(key, mine, sideEffect);
    worlds, steps, w := Then(SMALL, worlds, steps, RemoteSettle(0, Fulfilled(answer), 0));
  }

  /** Nothing is lost: a call comes back with its own execution's result, marked executed. */
  lemma UndisturbedCallResolves(key: EntryId, mine: string, sideEffect: bool, answer: Value)
    returns (worlds: seq<World>, steps: seq<Step>)
    requires !answer.Plain?
    ensures IsExecution(SMALL, worlds, steps)
    ensures
      var w := worlds[|steps|];
      && 0 in w.calls && w.calls[0].key == key && w.calls[0].fingerprint == mine
      && w.calls[0].phase
         == Resolved(answer.(idempotencyOutcome := Some(Executed), transportTiming := Some(1)), false)
  {
    AnswersSmall(key, mine, answer);
    var w;
    hide IsExecution, Start, Prune, Pruned, Settle, Indexed;
    worlds, steps := CallSettles(key, mine, sideEffect, answer);
    worlds, steps, w := Then(SMALL, worlds, steps, RemoteComplete("r1", 0));
    worlds, steps, w := Then(SMALL, worlds, steps,
      Receive(0, ResultReply("r1", Timed(Annotated(answer, Executed), 0)), 1));
  }

  /** The reply is lost: a call with a side effect recovers its own execution's result. */
  lemma LostReplyIsRecovered(key: EntryId, mine: string, answer: Value)
    returns (worlds: seq<World>, steps: seq<Step>)
    requires !answer.Plain?
    ensures IsExecution(SMALL, worlds, steps)
    ensures
      var w := worlds[|steps|];
      && 0 in w.calls && w.calls[0].key == key && w.calls[0].fingerprint == mine
      && w.calls[0].phase
         == Resolved(answer.(idempotencyOutcome := Some(Replayed), transportTiming := Some(1)), true)
  {
    AnswersSmall(key, mine, answer);
    var w;
    hide IsExecution, Start, Prune, Pruned, Settle, StatusOf, Indexed;
    worlds, steps := CallSettles(key, mine, true, answer);
    worlds, steps, w := Then(SMALL, worlds, steps, Disconnect(0));
    worlds, steps, w := Then(SMALL, worlds, steps, Poll(0, "p"));
    worlds, steps, w := Then(SMALL, worlds, steps, RemoteStatus(ResultStatus("p", key), 0));
    worlds, steps, w := Then(SMALL, worlds, steps, Receive(0, StatusReply("p", SnapshotOf(Fulfilled(answer))), 1));
  }

  /** Recovery without that condition: resultStatus asks by key alone.  For every key and every two
      different sets of parameters there is a run in which a call with the first is recovered with
      the result of the second, which is all that was ever executed for the key. */
  lemma RecoveryIgnoresParameters(key: EntryId, mine: string, other: string, answer: Value)
    returns (worlds: seq<World>, steps: seq<Step>)
    requires mine != other && !answer.Plain?
    ensures IsExecution(SMALL, worlds, steps)
    ensures
      var w := worlds[|steps|];
      && 0 in w.calls && w.calls[0].key == key && w.calls[0].fingerprint == mine && w.calls[0].sideEffect
      && w.calls[0].phase.Resolved? && w.calls[0].phase.recovered
      && ProducedFor(w.ledger, key, other, w.calls[0].phase.value)
      && !ProducedFor(w.ledger, key, mine, w.calls[0].phase.value)
  {
    var reply := StatusReply("p", SnapshotOf(Fulfilled(answer)));
    var w;
    AnswersSmall(key, other, answer);
    hide IsExecution, Prune, Pruned, StatusOf, Indexed;
    worlds, steps := OtherExecutes(key, mine, other, answer);
    worlds, steps, w := Then(SMALL, worlds, steps, Poll(0, "p"));
    worlds, steps, w := Then(SMALL, worlds, steps, RemoteStatus(ResultStatus("p", key), 0));
    worlds, steps, w := Then(SMALL, worlds, steps, Receive(0, reply, 0));
    assert ProducedFrom(w.ledger, 0, key, other, w.calls[0].phase.value);
  }
}
