/** What every history of ledger events keeps: the byte account, the operation index, and
    one execution per stored entry with faithful replay. */
module LedgerProperties {
  import opened Wrappers
  import opened LedgerSpec

  // ------------------------------------------------------------------ the byte account

  predicate Fitted(s: State, i: nat) {
    Stored(s, i) && !s.cells[i].replaced
  }

  lemma {:induction false} FittedShrinks(s: State, t: State, n: nat)
    requires n <= |s.cells| && n <= |t.cells|
    requires forall i | 0 <= i < n && Fitted(t, i) :: Fitted(s, i) && s.cells[i].sizeBytes == t.cells[i].sizeBytes
    ensures FittedUpTo(t, n) <= FittedUpTo(s, n)
  {
    if n > 0 {
      FittedShrinks(s, t, n - 1);
      assert Fitted(t, n - 1) ==> Fitted(s, n - 1);
    }
  }

  /** Settling one cell changes only that cell's contribution. */
  lemma {:induction false} FittedAfterSettling(s: State, t: State, u: nat, n: nat)
    requires |t.cells| == |s.cells| && u < |s.cells| && n <= |s.cells|
    requires t.entries == s.entries && s.cells[u].sizeBytes == 0
    requires t.cells[u].entryId == s.cells[u].entryId
    requires forall i | 0 <= i < |s.cells| && i != u :: t.cells[i] == s.cells[i]
    ensures FittedUpTo(t, n) == FittedUpTo(s, n) + if u < n && Fitted(t, u) then t.cells[u].sizeBytes else 0
  {
    if n > 0 {
      FittedAfterSettling(s, t, u, n - 1);
      assert n - 1 != u ==> (Stored(t, n - 1) <==> Stored(s, n - 1));
    }
  }

  /** Deleting an entry takes exactly its size off the account, which is at least that large. */
  lemma {:induction false} BytesAfterDeleting(s: State, id: EntryId, n: nat)
    requires Indexed(s) && id in s.entries && n <= |s.cells|
    ensures var t := Deleted(s, id);
      BytesUpTo(s, n) == BytesUpTo(t, n) + if s.entries[id] < n then s.cells[s.entries[id]].sizeBytes else 0
  {
    if n > 0 {
      BytesAfterDeleting(s, id, n - 1);
      var t := Deleted(s, id);
      assert n - 1 != s.entries[id] ==> (Stored(t, n - 1) <==> Stored(s, n - 1));
    }
  }

  lemma {:induction false} BytesAgree(s: State, t: State, n: nat)
    requires n <= |s.cells| && n <= |t.cells|
    requires forall i | 0 <= i < n ::
               (Stored(s, i) <==> Stored(t, i)) && s.cells[i].sizeBytes == t.cells[i].sizeBytes
    ensures BytesUpTo(s, n) == BytesUpTo(t, n)
  {
    if n > 0 {
      BytesAgree(s, t, n - 1);
      assert Stored(s, n - 1) <==> Stored(t, n - 1);
    }
  }

  lemma {:induction false} BytesAfterSettling(s: State, t: State, u: nat, n: nat)
    requires |t.cells| == |s.cells| && u < |s.cells| && n <= |s.cells|
    requires t.entries == s.entries && s.cells[u].sizeBytes == 0 && Stored(s, u)
    requires t.cells[u].entryId == s.cells[u].entryId
    requires forall i | 0 <= i < |s.cells| && i != u :: t.cells[i] == s.cells[i]
    ensures BytesUpTo(t, n) == BytesUpTo(s, n) + if u < n then t.cells[u].sizeBytes else 0
  {
    if n > 0 {
      BytesAfterSettling(s, t, u, n - 1);
      assert Stored(t, n - 1) <==> Stored(s, n - 1);
    }
  }

  /** The bytes kept are those of the results that fit plus one fixed tombstone for each that did not. */
  lemma {:induction false} BytesAreFittedPlusTombstones(cfg: Config, s: State, n: nat)
    requires n <= |s.cells| && forall u | 0 <= u < n :: CellOk(cfg, s.cells[u])
    ensures BytesUpTo(s, n) == FittedUpTo(s, n) + ReplacedUpTo(s, n) * cfg.Size(SnapshotOf(TOO_LARGE))
  {
    if n > 0 {
      BytesAreFittedPlusTombstones(cfg, s, n - 1);
      assert CellOk(cfg, s.cells[n - 1]);
    }
  }

  /** The bound: at most maxEntries entries, and at most maxBytes beyond the tombstones. */
  lemma StoredBytesBound(cfg: Config, s: State)
    requires Inv(cfg, s)
    ensures |s.entries| <= cfg.maxEntries
    ensures StoredBytes(s) <= cfg.maxBytes + ReplacedUpTo(s, |s.cells|) * cfg.Size(SnapshotOf(TOO_LARGE))
  {
    BytesAreFittedPlusTombstones(cfg, s, |s.cells|);
  }

  lemma FewerKeys<K, V>(m: map<K, V>, larger: map<K, V>)
    requires m.Keys <= larger.Keys
    ensures |m| <= |larger|
  {
    var rest := larger.Keys - m.Keys;
    assert larger.Keys == m.Keys + rest;
    assert |larger.Keys| == |m.Keys| + |rest|;
  }

  // ------------------------------------------------------------------ preservation

  /** Dropping settled entries, for whatever reason, keeps the invariant. */
  lemma DroppingSettledKeepsInv(cfg: Config, s: State, t: State)
    requires Inv(cfg, s)
    requires t.cells == s.cells && t.operations == s.operations
    requires t.entries.Keys <= s.entries.Keys && forall k | k in t.entries :: t.entries[k] == s.entries[k]
    requires forall k | k in s.entries && k !in t.entries :: !s.cells[s.entries[k]].snapshot.status.Running?
    ensures Inv(cfg, t)
  {
    FewerKeys(t.entries, s.entries);
    FittedShrinks(s, t, |s.cells|);
  }

  lemma DeleteKeepsInv(cfg: Config, s: State, id: EntryId)
    requires Inv(cfg, s) && id in s.entries && !s.cells[s.entries[id]].snapshot.status.Running?
    ensures var t := Deleted(s, id);
      Inv(cfg, t) && StoredBytes(s) == StoredBytes(t) + s.cells[s.entries[id]].sizeBytes
  {
    DroppingSettledKeepsInv(cfg, s, Deleted(s, id));
    BytesAfterDeleting(s, id, |s.cells|);
  }

  lemma PruneKeepsInv(cfg: Config, s: State, now: int)
    requires Inv(cfg, s)
    ensures Inv(cfg, Prune(cfg, s, now))
  {
    forall k | k in s.entries && k !in Prune(cfg, s, now).entries
      ensures !s.cells[s.entries[k]].snapshot.status.Running?
    {
      assert CellOk(cfg, s.cells[s.entries[k]]);
    }
    DroppingSettledKeepsInv(cfg, s, Prune(cfg, s, now));
  }

  lemma SameBytesKeepsFitted(s: State, t: State)
    requires |t.cells| == |s.cells| && t.entries == s.entries
    requires forall i | 0 <= i < |s.cells| ::
               && t.cells[i].entryId == s.cells[i].entryId
               && t.cells[i].replaced == s.cells[i].replaced
               && t.cells[i].sizeBytes == s.cells[i].sizeBytes
    ensures FittedUpTo(t, |t.cells|) == FittedUpTo(s, |s.cells|)
  {
    FittedShrinks(s, t, |s.cells|);
    FittedShrinks(t, s, |s.cells|);
  }

  lemma SameBytesKeepsStored(s: State, t: State)
    requires |t.cells| == |s.cells| && t.entries == s.entries
    requires forall i | 0 <= i < |s.cells| ::
               t.cells[i].entryId == s.cells[i].entryId && t.cells[i].sizeBytes == s.cells[i].sizeBytes
    ensures StoredBytes(t) == StoredBytes(s)
  {
    BytesAgree(s, t, |s.cells|);
  }

  lemma BindKeepsIndexed(s: State, o: OperationId, u: nat)
    requires Indexed(s) && u < |s.cells|
    requires o !in s.operations || s.operations[o] == u
    ensures Indexed(Bind(s, o, u))
  {
    var t := Bind(s, o, u);
    forall v, p | 0 <= v < |t.cells| && p in t.cells[v].operationIds
      ensures p in t.operations && t.operations[p] == v
    {
      assert (v == u && p == o) || p in s.cells[v].operationIds;
    }
  }

  lemma BindKeepsRunning(s: State, o: OperationId, u: nat)
    requires RunningAreStored(s) && u < |s.cells|
    ensures RunningAreStored(Bind(s, o, u))
  {
    var t := Bind(s, o, u);
    forall v | 0 <= v < |t.cells| && t.cells[v].snapshot.status.Running?
      ensures Stored(t, v) && t.cells[v].operationIds != {}
    {
      assert Stored(s, v) && s.cells[v].operationIds != {};
      assert v == u ==> o in t.cells[v].operationIds;
    }
  }

  lemma BindKeepsInv(cfg: Config, s: State, o: OperationId, u: nat)
    requires Inv(cfg, s) && u < |s.cells| && s.cells[u].snapshot.status.Running?
    requires o !in s.operations || s.operations[o] == u
    ensures Inv(cfg, Bind(s, o, u))
  {
    BindKeepsIndexed(s, o, u);
    BindKeepsRunning(s, o, u);
    SameBytesKeepsFitted(s, Bind(s, o, u));
  }

  lemma InsertKeepsIndexed(s: State, id: EntryId, o: OperationId, fingerprint: string)
    requires Indexed(s) && id !in s.entries && o !in s.operations
    ensures Indexed(Insert(s, id, o, fingerprint))
  {
    var t := Insert(s, id, o, fingerprint);
    forall v, p | 0 <= v < |t.cells| && p in t.cells[v].operationIds
      ensures p in t.operations && t.operations[p] == v
    {
      if v < |s.cells| {
        assert p in s.cells[v].operationIds;
      }
    }
  }

  lemma InsertKeepsStored(s: State, id: EntryId, o: OperationId, fingerprint: string, v: nat)
    requires Indexed(s) && id !in s.entries && v < |s.cells|
    ensures Stored(Insert(s, id, o, fingerprint), v) <==> Stored(s, v)
  {
  }

  lemma InsertKeepsFitted(cfg: Config, s: State, id: EntryId, o: OperationId, fingerprint: string)
    requires Indexed(s) && id !in s.entries
    ensures var t := Insert(s, id, o, fingerprint);
      FittedUpTo(t, |t.cells|) <= FittedUpTo(s, |s.cells|)
  {
    var t := Insert(s, id, o, fingerprint);
    forall i | 0 <= i < |s.cells| && Fitted(t, i)
      ensures Fitted(s, i) && s.cells[i].sizeBytes == t.cells[i].sizeBytes
    {
      InsertKeepsStored(s, id, o, fingerprint, i);
    }
    FittedShrinks(s, t, |s.cells|);
  }

  lemma InsertKeepsBytes(s: State, id: EntryId, o: OperationId, fingerprint: string)
    requires Indexed(s) && id !in s.entries
    ensures StoredBytes(Insert(s, id, o, fingerprint)) == StoredBytes(s)
  {
    var t := Insert(s, id, o, fingerprint);
    forall i | 0 <= i < |s.cells|
      ensures Stored(s, i) <==> Stored(t, i)
    {
      InsertKeepsStored(s, id, o, fingerprint, i);
    }
    BytesAgree(s, t, |s.cells|);
  }

  lemma InsertKeepsRunning(s: State, id: EntryId, o: OperationId, fingerprint: string)
    requires Indexed(s) && id !in s.entries && RunningAreStored(s)
    ensures RunningAreStored(Insert(s, id, o, fingerprint))
  {
    var t, u := Insert(s, id, o, fingerprint), |s.cells|;
    forall v | 0 <= v < |t.cells| && t.cells[v].snapshot.status.Running?
      ensures Stored(t, v) && t.cells[v].operationIds != {}
    {
      if v == u {
        assert o in t.cells[v].operationIds;
      } else {
        InsertKeepsStored(s, id, o, fingerprint, v);
      }
    }
  }

  lemma InsertKeepsInv(cfg: Config, s: State, id: EntryId, o: OperationId, fingerprint: string)
    requires Inv(cfg, s) && id !in s.entries && o !in s.operations && |s.entries| < cfg.maxEntries
    ensures Inv(cfg, Insert(s, id, o, fingerprint))
  {
    InsertKeepsIndexed(s, id, o, fingerprint);
    InsertKeepsFitted(cfg, s, id, o, fingerprint);
    InsertKeepsRunning(s, id, o, fingerprint);
  }

  /** start prunes, and then at most binds one id to a running entry or inserts one entry. */
  lemma StartCases(cfg: Config, s: State, now: int, id: EntryId, o: OperationId, fingerprint: string)
    requires Indexed(s)
    ensures var p, t := Prune(cfg, s, now), Start(cfg, s, now, id, o, fingerprint).0;
      || t == p
      || (&& id in p.entries && p.cells[p.entries[id]].snapshot.status.Running?
          && (o !in p.operations || p.operations[o] == p.entries[id])
          && t == Bind(p, o, p.entries[id]))
      || (&& id !in p.entries && o !in p.operations && |p.entries| < cfg.maxEntries
          && t == Insert(p, id, o, fingerprint))
  {
  }

  lemma StartKeepsInv(cfg: Config, s: State, now: int, id: EntryId, o: OperationId, fingerprint: string)
    requires Inv(cfg, s)
    ensures Inv(cfg, Start(cfg, s, now, id, o, fingerprint).0)
  {
    PruneKeepsInv(cfg, s, now);
    StartCases(cfg, s, now, id, o, fingerprint);
    var p, t := Prune(cfg, s, now), Start(cfg, s, now, id, o, fingerprint).0;
    if t == p {
    } else if id in p.entries {
      BindKeepsInv(cfg, p, o, p.entries[id]);
    } else {
      InsertKeepsInv(cfg, p, id, o, fingerprint);
    }
  }

  lemma SettleKeepsFitted(cfg: Config, s: State, u: nat, outcome: Outcome, now: int)
    requires Inv(cfg, s) && u < |s.cells| && s.cells[u].snapshot.status.Running?
    ensures FittedUpTo(Settle(cfg, s, u, outcome, now), |s.cells|) <= cfg.maxBytes
  {
    assert CellOk(cfg, s.cells[u]);
    FittedAfterSettling(s, Settle(cfg, s, u, outcome, now), u, |s.cells|);
    BytesAreFittedPlusTombstones(cfg, s, |s.cells|);
  }

  /** Settling adds exactly the size of what is kept. */
  lemma SettleAddsItsSize(cfg: Config, s: State, u: nat, outcome: Outcome, now: int)
    requires Inv(cfg, s) && u < |s.cells| && s.cells[u].snapshot.status.Running?
    ensures StoredBytes(Settle(cfg, s, u, outcome, now))
            == StoredBytes(s) + Settle(cfg, s, u, outcome, now).cells[u].sizeBytes
  {
    assert CellOk(cfg, s.cells[u]) && Stored(s, u);
    BytesAfterSettling(s, Settle(cfg, s, u, outcome, now), u, |s.cells|);
  }

  lemma SettleKeepsRunning(cfg: Config, s: State, u: nat, outcome: Outcome, now: int)
    requires RunningAreStored(s) && u < |s.cells|
    ensures RunningAreStored(Settle(cfg, s, u, outcome, now))
  {
    var t := Settle(cfg, s, u, outcome, now);
    forall v | 0 <= v < |t.cells| && t.cells[v].snapshot.status.Running?
      ensures Stored(t, v) && t.cells[v].operationIds != {}
    {
      assert v != u && Stored(s, v) && s.cells[v].operationIds != {};
    }
  }

  lemma SettledCellOk(cfg: Config, s: State, u: nat, outcome: Outcome, now: int)
    requires u < |s.cells|
    ensures CellOk(cfg, Settle(cfg, s, u, outcome, now).cells[u])
  {
  }

  /** The execution behind a running cell settles. */
  lemma SettleKeepsInv(cfg: Config, s: State, u: nat, outcome: Outcome, now: int)
    requires Inv(cfg, s) && u < |s.cells| && s.cells[u].snapshot.status.Running?
    ensures Inv(cfg, Settle(cfg, s, u, outcome, now))
  {
    var t := Settle(cfg, s, u, outcome, now);
    SettleKeepsIndexed(cfg, s, u, outcome, now);
    SettleKeepsFitted(cfg, s, u, outcome, now);
    SettleKeepsRunning(cfg, s, u, outcome, now);
    SettledCellOk(cfg, s, u, outcome, now);
    forall v | 0 <= v < |t.cells|
      ensures CellOk(cfg, t.cells[v])
    {
      if v != u {
        assert t.cells[v] == s.cells[v];
      }
    }
  }

  lemma SettleKeepsIndexed(cfg: Config, s: State, u: nat, outcome: Outcome, now: int)
    requires Indexed(s) && u < |s.cells|
    ensures Indexed(Settle(cfg, s, u, outcome, now))
  {
    var t := Settle(cfg, s, u, outcome, now);
    forall v, p | 0 <= v < |t.cells| && p in t.cells[v].operationIds
      ensures p in t.operations && t.operations[p] == v
    {
      assert v != u && p in s.cells[v].operationIds;
      assert s.operations[p] == v;
      assert p !in s.cells[u].operationIds;
    }
  }

  lemma AbortKeepsIndexed(s: State, us: set<nat>)
    requires Indexed(s)
    ensures Indexed(Abort(s, us))
  {
    var t := Abort(s, us);
    forall v, p | 0 <= v < |t.cells| && p in t.cells[v].operationIds
      ensures p in t.operations && t.operations[p] == v
    {
      assert p in s.cells[v].operationIds;
    }
  }

  lemma AbortKeepsInv(cfg: Config, s: State, us: set<nat>)
    requires Inv(cfg, s)
    ensures Inv(cfg, Abort(s, us))
  {
    var t := Abort(s, us);
    AbortKeepsIndexed(s, us);
    SameBytesKeepsFitted(s, t);
    forall v | 0 <= v < |t.cells|
      ensures CellOk(cfg, t.cells[v])
      ensures t.cells[v].snapshot.status.Running? ==> Stored(t, v) && t.cells[v].operationIds != {}
    {
      assert CellOk(cfg, s.cells[v]);
      assert s.cells[v].snapshot.status.Running? ==> Stored(s, v);
    }
  }

  lemma ClearFinishKeepsInv(cfg: Config, s: State, matches: set<nat>)
    requires Inv(cfg, s)
    requires forall u | u in matches :: u < |s.cells| && !s.cells[u].snapshot.status.Running?
    ensures Inv(cfg, ClearFinish(s, matches))
  {
    DroppingSettledKeepsInv(cfg, s, ClearFinish(s, matches));
  }

  // ------------------------------------------------------------------ the operation index

  /** The secondary index is the exact inverse of the id sets, and everything it reaches is a
      stored, running entry. */
  lemma OperationsInvertIds(cfg: Config, s: State, o: OperationId, u: nat)
    requires Inv(cfg, s) && u < |s.cells|
    ensures (o in s.operations && s.operations[o] == u) <==> o in s.cells[u].operationIds
    ensures o in s.cells[u].operationIds ==> Stored(s, u) && s.cells[u].snapshot.status.Running?
  {
    assert CellOk(cfg, s.cells[u]);
  }

  /** cancel aborts the one entry its id is bound to, if any, and nothing else. */
  lemma CancelHitsExactlyItsEntry(cfg: Config, s: State, o: OperationId)
    requires Inv(cfg, s)
    ensures var (t, hit) := Cancel(s, o);
      && (hit <==> exists u :: 0 <= u < |s.cells| && o in s.cells[u].operationIds)
      && t.entries == s.entries && t.operations == s.operations && |t.cells| == |s.cells|
      && forall u | 0 <= u < |s.cells| ::
           t.cells[u] == if o in s.cells[u].operationIds then s.cells[u].(aborted := true) else s.cells[u]
  {
    if o in s.operations {
      OperationsInvertIds(cfg, s, o, s.operations[o]);
    }
  }

  /** Once an entry has settled no operation id leads to it, so cancel answers false. */
  lemma NoCancelAfterSettling(cfg: Config, s: State, u: nat, outcome: Outcome, now: int, o: OperationId)
    requires Inv(cfg, s) && u < |s.cells| && s.cells[u].snapshot.status.Running?
    requires o in s.cells[u].operationIds
    ensures Inv(cfg, Settle(cfg, s, u, outcome, now))
    ensures !Cancel(Settle(cfg, s, u, outcome, now), o).1
  {
    SettleKeepsInv(cfg, s, u, outcome, now);
  }

  // ------------------------------------------------------------------ runs

  /** Calls and settlements, in the order they happen.  Anything may happen between the call
      of clearPrefix and its completion, which waits for the matched results. */
  datatype Event =
    | StartCall(now: int, id: EntryId, o: OperationId, fingerprint: string)
    | StatusCall(now: int)
    | SettleEvent(u: nat, outcome: Outcome, now: int)
    | CancelCall(o: OperationId)
    | ClearCall(prefix: string)
    | ClearDone(matches: set<nat>)

  predicate Enabled(s: State, e: Event) {
    match e
    case SettleEvent(u, _, _) => u < |s.cells| && s.cells[u].snapshot.status.Running?
    case ClearDone(matches) => forall u | u in matches :: u < |s.cells| && !s.cells[u].snapshot.status.Running?
    case _ => true
  }

  function Apply(cfg: Config, s: State, e: Event): State
    requires Indexed(s) && Enabled(s, e)
  {
    match e
    case StartCall(now, id, o, fingerprint) => Start(cfg, s, now, id, o, fingerprint).0
    case StatusCall(now) => Prune(cfg, s, now)
    case SettleEvent(u, outcome, now) => Settle(cfg, s, u, outcome, now)
    case CancelCall(o) => Cancel(s, o).0
    case ClearCall(prefix) => ClearBegin(s, prefix)
    case ClearDone(matches) => ClearFinish(s, matches)
  }

  lemma ApplyKeepsInv(cfg: Config, s: State, e: Event)
    requires Inv(cfg, s) && Enabled(s, e)
    ensures Inv(cfg, Apply(cfg, s, e))
  {
    match e
    case StartCall(now, id, o, fingerprint) => StartKeepsInv(cfg, s, now, id, o, fingerprint);
    case StatusCall(now) => PruneKeepsInv(cfg, s, now);
    case SettleEvent(u, outcome, now) => SettleKeepsInv(cfg, s, u, outcome, now);
    case CancelCall(o) =>
      if o in s.operations {
        AbortKeepsInv(cfg, s, {s.operations[o]});
      }
    case ClearCall(prefix) =>
      AbortKeepsInv(cfg, s,
        set u | u in Matching(s, prefix) && u < |s.cells| && s.cells[u].snapshot.status.Running?);
    case ClearDone(matches) => ClearFinishKeepsInv(cfg, s, matches);
  }

  /** states[i] is the ledger before events[i]; the last one is where the run has got to. */
  ghost predicate IsRun(cfg: Config, states: seq<State>, events: seq<Event>) {
    && |states| == |events| + 1
    && states[0] == EMPTY
    && forall i | 0 <= i < |events| ::
         Indexed(states[i]) && Enabled(states[i], events[i]) && states[i + 1] == Apply(cfg, states[i], events[i])
  }

  /** Every reachable ledger keeps its account and its index. */
  lemma {:induction false} RunKeepsInv(cfg: Config, states: seq<State>, events: seq<Event>, i: nat)
    requires IsRun(cfg, states, events) && i <= |events|
    ensures Inv(cfg, states[i])
    decreases i
  {
    if i > 0 {
      RunKeepsInv(cfg, states, events, i - 1);
      ApplyKeepsInv(cfg, states[i - 1], events[i - 1]);
    }
  }

  /** How a cell may change: its identity never does, and once settled nothing of it does but
      the abort flag. */
  predicate Evolves(a: Cell, b: Cell) {
    && b.entryId == a.entryId && b.fingerprint == a.fingerprint
    && (a.outcome.Some? ==> b.(aborted := a.aborted) == a)
  }

  predicate CellsEvolve(s: State, t: State) {
    |s.cells| <= |t.cells| && forall u | 0 <= u < |s.cells| :: Evolves(s.cells[u], t.cells[u])
  }

  lemma StartEvolvesCells(cfg: Config, s: State, now: int, id: EntryId, o: OperationId, fingerprint: string)
    requires Inv(cfg, s)
    ensures CellsEvolve(s, Start(cfg, s, now, id, o, fingerprint).0)
  {
    var p := Prune(cfg, s, now);
    if id in p.entries {
      assert CellOk(cfg, s.cells[p.entries[id]]);
    }
  }

  lemma ApplyEvolvesCells(cfg: Config, s: State, e: Event)
    requires Inv(cfg, s) && Enabled(s, e)
    ensures CellsEvolve(s, Apply(cfg, s, e))
  {
    match e
    case StartCall(now, id, o, fingerprint) => StartEvolvesCells(cfg, s, now, id, o, fingerprint);
    case SettleEvent(u, outcome, now) => assert CellOk(cfg, s.cells[u]);
    case StatusCall(now) =>
    case CancelCall(o) =>
    case ClearCall(prefix) =>
    case ClearDone(matches) =>
  }

  lemma {:induction false} RunEvolvesCells(cfg: Config, states: seq<State>, events: seq<Event>, i: nat, j: nat)
    requires IsRun(cfg, states, events) && i <= j <= |events|
    ensures CellsEvolve(states[i], states[j])
    decreases j
  {
    if i < j {
      RunEvolvesCells(cfg, states, events, i, j - 1);
      RunKeepsInv(cfg, states, events, j - 1);
      ApplyEvolvesCells(cfg, states[j - 1], events[j - 1]);
      forall u | 0 <= u < |states[i].cells|
        ensures Evolves(states[i].cells[u], states[j].cells[u])
      {
        assert Evolves(states[i].cells[u], states[j - 1].cells[u]);
        assert Evolves(states[j - 1].cells[u], states[j].cells[u]);
      }
    }
  }

  // ------------------------------------------------------------------ at most once, replayed faithfully

  lemma ApplyRunsNothingTwice(cfg: Config, s: State, e: Event, id: EntryId, v: nat)
    requires Inv(cfg, s) && Enabled(s, e)
    requires id in Apply(cfg, s, e).entries && id in s.entries
    requires Apply(cfg, s, e).entries[id] == s.entries[id]
    requires |s.cells| <= v < |Apply(cfg, s, e).cells|
    ensures Apply(cfg, s, e).cells[v].entryId != id
  {
    assert e.StartCall? && e.id !in Prune(cfg, s, e.now).entries;
  }

  /** As long as an entry stays stored, its id is never executed again. */
  lemma {:induction false} StoredRunsOnce(
    cfg: Config, states: seq<State>, events: seq<Event>, i: nat, j: nat, id: EntryId, u: nat, v: nat)
    requires IsRun(cfg, states, events) && i <= j <= |events|
    requires forall k | i <= k <= j :: id in states[k].entries && states[k].entries[id] == u
    requires |states[i].cells| <= v < |states[j].cells|
    ensures states[j].cells[v].entryId != id
    decreases j
  {
    hide Inv, Indexed, Apply;
    if i < j {
      RunKeepsInv(cfg, states, events, j - 1);
      assert id in states[j - 1].entries && id in states[j].entries;
      if v < |states[j - 1].cells| {
        StoredRunsOnce(cfg, states, events, i, j - 1, id, u, v);
        ApplyEvolvesCells(cfg, states[j - 1], events[j - 1]);
      } else {
        ApplyRunsNothingTwice(cfg, states[j - 1], events[j - 1], id, v);
      }
    }
  }

  /** A start call executes exactly when its id is not stored; otherwise its handle is that of
      the stored execution, live if it runs and as kept if it has settled. */
  lemma HandlesFollowTheStoredExecution(
    cfg: Config, s: State, now: int, id: EntryId, o: OperationId, fingerprint: string)
    requires Inv(cfg, s)
    ensures
      var (t, started) := Start(cfg, s, now, id, o, fingerprint);
      var p := Prune(cfg, s, now);
      started.Handle? ==>
        && (started.outcome.Executed? <==> id !in p.entries)
        && id in t.entries && t.cells[t.entries[id]].fingerprint == fingerprint
        && (started.outcome.Executed? ==> t.entries[id] == |s.cells| && |t.cells| == |s.cells| + 1)
        && (!started.outcome.Executed? ==> t.entries[id] == p.entries[id] && |t.cells| == |s.cells|)
        && (started.outcome.Replayed? <==> !t.cells[t.entries[id]].snapshot.status.Running?)
        && started.result == ResultOf(t, t.entries[id])
        && (!started.outcome.Replayed? ==> started.result == OfOperation(t.entries[id]))
  {
    PruneKeepsInv(cfg, s, now);
    var p := Prune(cfg, s, now);
    if id in p.entries {
      assert CellOk(cfg, p.cells[p.entries[id]]);
    }
  }

  /** A rejected start changes nothing beyond the pruning it began with. */
  lemma RejectedStartOnlyPrunes(
    cfg: Config, s: State, now: int, id: EntryId, o: OperationId, fingerprint: string)
    requires Inv(cfg, s) && Start(cfg, s, now, id, o, fingerprint).1.Denied?
    ensures Start(cfg, s, now, id, o, fingerprint).0 == Prune(cfg, s, now)
  {
  }

  /** What an execution's settlement makes of later replays: its own outcome if the snapshot
      fitted in what was left of the byte budget, and the RESULT_UNKNOWN tombstone otherwise. */
  function Kept(cfg: Config, s: State, outcome: Outcome): Outcome {
    if cfg.Size(SnapshotOf(outcome)) > cfg.maxBytes - StoredBytes(s) then TOO_LARGE else outcome
  }

  /** Faithful replay.  Execution u settles with outcome at event i.  For ever after, a caller
      that was given the live promise gets that outcome; a caller that is given the stored
      result gets what was kept; and status reports what a replay would deliver. */
  lemma FaithfulReplay(
    cfg: Config, states: seq<State>, events: seq<Event>, i: nat, k: nat, u: nat, outcome: Outcome, now: int)
    requires IsRun(cfg, states, events) && i < k <= |events|
    requires events[i] == SettleEvent(u, outcome, now)
    ensures u < |states[k].cells|
    ensures Resolved(states[k], OfOperation(u)) == Some(outcome)
    ensures Resolved(states[k], ResultOf(states[k], u)) == Some(Kept(cfg, states[i], outcome))
    ensures Indexed(states[k])
    ensures var id := states[k].cells[u].entryId;
      id in states[k].entries && states[k].entries[id] == u ==>
        StatusOf(states[k], id) == SnapshotOf(Kept(cfg, states[i], outcome))
  {
    RunKeepsInv(cfg, states, events, i);
    RunKeepsInv(cfg, states, events, k);
    RunEvolvesCells(cfg, states, events, i + 1, k);
    assert states[i + 1] == Settle(cfg, states[i], u, outcome, now);
    assert Evolves(states[i + 1].cells[u], states[k].cells[u]);
  }

  /** Exactly one settlement per execution. */
  lemma SettlesOnce(
    cfg: Config, states: seq<State>, events: seq<Event>, i: nat, j: nat, u: nat,
    outcome: Outcome, now: int, outcome': Outcome, now': int)
    requires IsRun(cfg, states, events) && i < j < |events|
    requires events[i] == SettleEvent(u, outcome, now)
    ensures events[j] != SettleEvent(u, outcome', now')
  {
    FaithfulReplay(cfg, states, events, i, j, u, outcome, now);
    RunKeepsInv(cfg, states, events, j);
    assert CellOk(cfg, states[j].cells[u]);
  }

  /** A start call may let an entry go and store a new one under the same key at once. */
  function Pruned(cfg: Config, s: State, e: Event): set<EntryId>
    requires Indexed(s)
  {
    if e.StartCall? then s.entries.Keys - Prune(cfg, s, e.now).entries.Keys else {}
  }

  /** Unless its key is let go, a stored execution stays stored and a new one starts stored. */
  lemma StoredUnlessLetGo(cfg: Config, s: State, e: Event, u: nat)
    requires Inv(cfg, s) && Enabled(s, e)
    requires u < |Apply(cfg, s, e).cells|
    requires u < |s.cells| ==> Stored(s, u)
    requires Apply(cfg, s, e).cells[u].entryId !in s.entries.Keys - Apply(cfg, s, e).entries.Keys
    requires Apply(cfg, s, e).cells[u].entryId !in Pruned(cfg, s, e)
    ensures Stored(Apply(cfg, s, e), u)
  {
    if u < |s.cells| {
      ApplyEvolvesCells(cfg, s, e);
      assert Evolves(s.cells[u], Apply(cfg, s, e).cells[u]);
    }
    hide Inv, Indexed, CellsEvolve;
    match e
    case StartCall(now, id, o, fingerprint) => StartCases(cfg, s, now, id, o, fingerprint);
    case _ =>
  }
}
