/** What the idempotency ledger does, as functions on values.  The class OperationLedger is
    proved against these; the protocol module runs on them. */
module LedgerSpec {
  import opened Wrappers

  type EntryId = string
  type OperationId = string

  datatype ErrorCode =
    | CancelledCode | ResultUnknown | ProtocolMismatch | CommandDenied | TransportDisconnected
    | SshDisconnected | OtherCode(name: string)

  datatype BridgeError = BridgeError(code: ErrorCode, message: string)

  datatype IdempotencyOutcome = Executed | Joined | Replayed

  /** A command result is a record; the two annotations are set by the bridge itself.  Anything
      that is not a record travels wrapped in one. */
  datatype Value =
    | Record(body: string, idempotencyOutcome: Option<IdempotencyOutcome>, transportTiming: Option<int>)
    | Wrapper(value: string, idempotencyOutcome: Option<IdempotencyOutcome>, transportTiming: Option<int>)
    | Plain(text: string)

  /** How an operation's promise settles. */
  datatype Outcome = Fulfilled(value: Value) | Rejected(error: BridgeError)

  datatype Status = Running | Completed | Cancelled | Failed | Unknown

  datatype Snapshot = Snapshot(status: Status, result: Option<Value>, error: Option<BridgeError>)

  const RUNNING := Snapshot(Running, None, None)

  function TerminalState(error: BridgeError): Status {
    match error.code
    case CancelledCode => Cancelled
    case ResultUnknown => Unknown
    case _ => Failed
  }

  function SnapshotOf(outcome: Outcome): Snapshot {
    match outcome
    case Fulfilled(value) => Snapshot(Completed, Some(value), None)
    case Rejected(error) => Snapshot(TerminalState(error), None, Some(error))
  }

  /** What is kept of a result that does not fit. */
  const TOO_LARGE :=
    Rejected(BridgeError(ResultUnknown, "Remote operation result exceeded the bounded idempotency ledger"))

  /** measure is the byte length of a snapshot's JSON text, None when it has none. */
  datatype Config = Config(maxEntries: nat, retentionMs: nat, maxBytes: nat, measure: Snapshot -> Option<nat>)
  {
    function Size(snapshot: Snapshot): nat {
      match measure(snapshot)
      case Some(n) => n
      case None => maxBytes + 1
    }
  }

  /** One ledger entry; its place in State.cells is its identity, and the execution it stands
      for.  replaced says that its result promise was swapped for the TOO_LARGE rejection. */
  datatype Cell = Cell(
    entryId: EntryId,
    fingerprint: string,
    operationIds: set<OperationId>,
    sizeBytes: nat,
    settledAt: Option<int>,
    snapshot: Snapshot,
    outcome: Option<Outcome>,
    replaced: bool,
    aborted: bool
  )

  /** cells holds every entry ever made; entries and operations are the two maps. */
  datatype State = State(cells: seq<Cell>, entries: map<EntryId, nat>, operations: map<OperationId, nat>)

  const EMPTY := State([], map[], map[])

  predicate Stored(s: State, u: nat) {
    u < |s.cells| && s.cells[u].entryId in s.entries && s.entries[s.cells[u].entryId] == u
  }

  function BytesUpTo(s: State, n: nat): nat
    requires n <= |s.cells|
  {
    if n == 0 then 0
    else BytesUpTo(s, n - 1) + if Stored(s, n - 1) then s.cells[n - 1].sizeBytes else 0
  }

  function StoredBytes(s: State): nat {
    BytesUpTo(s, |s.cells|)
  }

  /** How many of the first n cells are stored and were replaced by the TOO_LARGE rejection. */
  function ReplacedUpTo(s: State, n: nat): nat
    requires n <= |s.cells|
  {
    if n == 0 then 0
    else ReplacedUpTo(s, n - 1) + if Stored(s, n - 1) && s.cells[n - 1].replaced then 1 else 0
  }

  function FittedUpTo(s: State, n: nat): nat
    requires n <= |s.cells|
  {
    if n == 0 then 0
    else FittedUpTo(s, n - 1)
         + if Stored(s, n - 1) && !s.cells[n - 1].replaced then s.cells[n - 1].sizeBytes else 0
  }

  // ------------------------------------------------------------------ the invariant

  predicate CellOk(cfg: Config, c: Cell) {
    if c.snapshot.status.Running?
    then c.snapshot == RUNNING && c.outcome.None? && c.settledAt.None? && !c.replaced && c.sizeBytes == 0
    else && c.outcome.Some? && c.settledAt.Some? && c.operationIds == {}
         && c.snapshot == SnapshotOf(if c.replaced then TOO_LARGE else c.outcome.value)
         && c.sizeBytes == cfg.Size(c.snapshot)
  }

  predicate Indexed(s: State) {
    && (forall k | k in s.entries :: s.entries[k] < |s.cells| && s.cells[s.entries[k]].entryId == k)
    && (forall o | o in s.operations :: s.operations[o] < |s.cells| && o in s.cells[s.operations[o]].operationIds)
    && (forall u, o | 0 <= u < |s.cells| && o in s.cells[u].operationIds :: o in s.operations && s.operations[o] == u)
  }

  /** A running entry is stored and reachable through some operation id. */
  predicate RunningAreStored(s: State) {
    forall u | 0 <= u < |s.cells| && s.cells[u].snapshot.status.Running? ::
      Stored(s, u) && s.cells[u].operationIds != {}
  }

  ghost predicate Inv(cfg: Config, s: State) {
    && Indexed(s) && RunningAreStored(s)
    && (forall u | 0 <= u < |s.cells| :: CellOk(cfg, s.cells[u]))
    && |s.entries| <= cfg.maxEntries
    && FittedUpTo(s, |s.cells|) <= cfg.maxBytes
  }

  // ------------------------------------------------------------------ operations

  function ResultOf(s: State, u: nat): Promise
    requires u < |s.cells|
  {
    if s.cells[u].replaced then TooLarge else OfOperation(u)
  }

  /** A result promise: the one of an execution, or the fixed rejection. */
  datatype Promise = OfOperation(u: nat) | TooLarge

  /** What awaiting the promise gives, once there is something to give. */
  function Resolved(s: State, p: Promise): Option<Outcome> {
    match p
    case TooLarge => Some(TOO_LARGE)
    case OfOperation(u) => if u < |s.cells| then s.cells[u].outcome else None
  }

  function Deleted(s: State, id: EntryId): State {
    s.(entries := s.entries - {id})
  }

  predicate Expired(c: Cell, cutoff: int) {
    c.settledAt.Some? && c.settledAt.value <= cutoff
  }

  function Prune(cfg: Config, s: State, now: int): State
    requires Indexed(s)
  {
    s.(entries := map k | k in s.entries && !Expired(s.cells[s.entries[k]], now - cfg.retentionMs) :: s.entries[k])
  }

  datatype Started = Handle(outcome: IdempotencyOutcome, result: Promise) | Denied(code: ErrorCode)

  function Bind(s: State, o: OperationId, u: nat): State
    requires u < |s.cells|
  {
    s.(cells := s.cells[u := s.cells[u].(operationIds := s.cells[u].operationIds + {o})],
       operations := s.operations[o := u])
  }

  function Insert(s: State, id: EntryId, o: OperationId, fingerprint: string): State {
    var u := |s.cells|;
    State(s.cells + [Cell(id, fingerprint, {o}, 0, None, RUNNING, None, false, false)],
          s.entries[id := u], s.operations[o := u])
  }

  function Start(cfg: Config, s: State, now: int, id: EntryId, o: OperationId, fingerprint: string): (State, Started)
    requires Indexed(s)
  {
    var p := Prune(cfg, s, now);
    if id in p.entries then
      var u := p.entries[id];
      if p.cells[u].fingerprint != fingerprint then (p, Denied(ProtocolMismatch))
      else if !p.cells[u].snapshot.status.Running? then (p, Handle(Replayed, ResultOf(p, u)))
      else if o in p.operations && p.operations[o] != u then (p, Denied(ProtocolMismatch))
      else (Bind(p, o, u), Handle(Joined, ResultOf(p, u)))
    else if |p.entries| >= cfg.maxEntries || StoredBytes(p) >= cfg.maxBytes then (p, Denied(CommandDenied))
    else if o in p.operations then (p, Denied(ProtocolMismatch))
    else (Insert(p, id, o, fingerprint), Handle(Executed, OfOperation(|p.cells|)))
  }

  function Settle(cfg: Config, s: State, u: nat, outcome: Outcome, now: int): State
    requires u < |s.cells|
  {
    var size := cfg.Size(SnapshotOf(outcome));
    var replaced := size > cfg.maxBytes - StoredBytes(s);
    var snapshot := SnapshotOf(if replaced then TOO_LARGE else outcome);
    var c := s.cells[u];
    State(s.cells[u := c.(snapshot := snapshot, sizeBytes := cfg.Size(snapshot), replaced := replaced,
                          outcome := Some(outcome), settledAt := Some(now), operationIds := {})],
          s.entries,
          s.operations - c.operationIds)
  }

  function Abort(s: State, us: set<nat>): State {
    s.(cells := seq(|s.cells|, i requires 0 <= i < |s.cells| =>
                      if i in us then s.cells[i].(aborted := true) else s.cells[i]))
  }

  function Cancel(s: State, o: OperationId): (State, bool)
    requires Indexed(s)
  {
    if o in s.operations && s.cells[s.operations[o]].snapshot.status.Running?
    then (Abort(s, {s.operations[o]}), true)
    else (s, false)
  }

  predicate StartsWith(text: string, prefix: string) {
    prefix <= text
  }

  /** The entries clearPrefix will remove, as identities, taken when it is called. */
  function Matching(s: State, prefix: string): set<nat> {
    set k | k in s.entries && StartsWith(k, prefix) :: s.entries[k]
  }

  function ClearBegin(s: State, prefix: string): State {
    var running := set u | u in Matching(s, prefix) && u < |s.cells| && s.cells[u].snapshot.status.Running?;
    Abort(s, running)
  }

  /** After every matched result has settled, possibly much later: each matched entry goes,
      unless its id has meanwhile been given to another one. */
  function ClearFinish(s: State, matches: set<nat>): State {
    s.(entries := map k | k in s.entries && s.entries[k] !in matches :: s.entries[k])
  }

  function StatusOf(s: State, id: EntryId): Snapshot
    requires Indexed(s)
  {
    if id in s.entries then s.cells[s.entries[id]].snapshot else Snapshot(Unknown, None, None)
  }
}
