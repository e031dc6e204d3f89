/** What each ledger call comes to, by conditions a caller can read off the ledger. */
module LedgerLaws {
  import opened Wrappers
  import opened LedgerSpec
  import opened LedgerProperties

  /** Entry u is the one kept for id. */
  predicate Keeps(s: State, id: EntryId, u: nat) {
    id in s.entries && s.entries[id] == u
  }

  predicate Runs(s: State, u: nat) {
    u < |s.cells| && s.cells[u].snapshot.status.Running?
  }

  /** o is bound to some entry other than u. */
  ghost predicate BoundElsewhere(s: State, o: OperationId, u: nat) {
    exists v | 0 <= v < |s.cells| :: v != u && o in s.cells[v].operationIds
  }

  ghost predicate Unbound(s: State, o: OperationId) {
    forall v | 0 <= v < |s.cells| :: o !in s.cells[v].operationIds
  }

  predicate HasRoom(cfg: Config, s: State) {
    |s.entries| + 1 <= cfg.maxEntries && StoredBytes(s) + 1 <= cfg.maxBytes
  }

  // ------------------------------------------------------------------ pruning

  /** An entry stays while it runs, and after settling for less than the retention time. */
  lemma PruneExactly(cfg: Config, s: State, now: int, id: EntryId)
    requires Inv(cfg, s)
    ensures var p := Prune(cfg, s, now);
      && p.cells == s.cells && p.operations == s.operations
      && (id in p.entries <==>
            && id in s.entries
            && (Runs(s, s.entries[id]) || now - s.cells[s.entries[id]].settledAt.value < cfg.retentionMs))
      && (id in p.entries ==> p.entries[id] == s.entries[id])
  {
    if id in s.entries {
      assert CellOk(cfg, s.cells[s.entries[id]]);
    }
  }

  // ------------------------------------------------------------------ starting

  /** Which way a start goes, on the pruned ledger p. */
  lemma StartExactly(cfg: Config, s: State, now: int, id: EntryId, o: OperationId, fingerprint: string)
    requires Inv(cfg, s)
    ensures
      var p, started := Prune(cfg, s, now), Start(cfg, s, now, id, o, fingerprint).1;
      if id in p.entries then
        var u := p.entries[id];
        var same := p.cells[u].fingerprint == fingerprint;
        && (started == Handle(Joined, OfOperation(u)) <==> same && Runs(p, u) && !BoundElsewhere(p, o, u))
        && (started.Handle? && started.outcome.Replayed? <==> same && !Runs(p, u))
        && (started == Denied(ProtocolMismatch) <==> !same || (Runs(p, u) && BoundElsewhere(p, o, u)))
        && !(started.Denied? && started.code != ProtocolMismatch)
      else
        && (started == Handle(Executed, OfOperation(|p.cells|)) <==> HasRoom(cfg, p) && Unbound(p, o))
        && (started == Denied(CommandDenied) <==> !HasRoom(cfg, p))
        && (started == Denied(ProtocolMismatch) <==> HasRoom(cfg, p) && !Unbound(p, o))
  {
    var p := Prune(cfg, s, now);
    PruneKeepsInv(cfg, s, now);
    BoundExactly(cfg, p, o);
    if id in p.entries {
      assert CellOk(cfg, p.cells[p.entries[id]]);
    }
  }

  lemma BoundExactly(cfg: Config, s: State, o: OperationId)
    requires Inv(cfg, s)
    ensures o !in s.operations <==> Unbound(s, o)
    ensures forall u: nat :: BoundElsewhere(s, o, u) <==> o in s.operations && s.operations[o] != u
  {
    if o in s.operations {
      assert o in s.cells[s.operations[o]].operationIds;
    }
  }

  /** What a start leaves behind: a joining id is added to its entry and nothing else changes; an
      execution adds one running entry under that id. */
  lemma StartLeaves(cfg: Config, s: State, now: int, id: EntryId, o: OperationId, fingerprint: string)
    requires Inv(cfg, s)
    ensures
      var p := Prune(cfg, s, now);
      var (t, started) := Start(cfg, s, now, id, o, fingerprint);
      && (started.Denied? || (started.Handle? && started.outcome.Replayed?) ==> t == p)
      && (started.Handle? && started.outcome.Joined? ==>
            && t.entries == p.entries && t.operations == p.operations[o := p.entries[id]]
            && |t.cells| == |p.cells|
            && forall v | 0 <= v < |p.cells| ::
                 if Keeps(p, id, v)
                 then t.cells[v] == p.cells[v].(operationIds := p.cells[v].operationIds + {o})
                 else t.cells[v] == p.cells[v])
      && (started.Handle? && started.outcome.Executed? ==>
            && t.entries == p.entries[id := |p.cells|] && t.operations == p.operations[o := |p.cells|]
            && |t.cells| == |p.cells| + 1 && t.cells[..|p.cells|] == p.cells
            && Runs(t, |p.cells|) && t.cells[|p.cells|].operationIds == {o}
            && t.cells[|p.cells|].fingerprint == fingerprint && t.cells[|p.cells|].sizeBytes == 0)
  {
  }

  // ------------------------------------------------------------------ settling

  /** What is kept of an outcome: all of it exactly if the bytes of its snapshot fit beside those
      already kept; a snapshot that cannot be measured never fits. */
  lemma SettleKeepsExactly(cfg: Config, s: State, u: nat, outcome: Outcome, now: int)
    requires Inv(cfg, s) && Runs(s, u)
    ensures
      var t := Settle(cfg, s, u, outcome, now);
      var measured := cfg.measure(SnapshotOf(outcome));
      var fits := measured.Some? && StoredBytes(s) + measured.value <= cfg.maxBytes;
      && (t.cells[u].replaced <==> !fits)
      && t.cells[u].outcome == Some(outcome) && t.cells[u].settledAt == Some(now)
      && t.cells[u].operationIds == {} && t.entries == s.entries
      && (fits ==> t.cells[u].sizeBytes == measured.value)
      && forall o :: o in t.operations <==> o in s.operations && o !in s.cells[u].operationIds
  {
    assert CellOk(cfg, s.cells[u]) && Stored(s, u);
  }

  /** The status of an outcome that was kept: a result completes, and an error cancels, is in doubt
      or fails by its code. */
  lemma KeptStatusExactly(cfg: Config, s: State, u: nat, outcome: Outcome, now: int)
    requires Inv(cfg, s) && Runs(s, u)
    ensures
      var kept := Settle(cfg, s, u, outcome, now).cells[u];
      && (kept.snapshot.status.Completed? <==> !kept.replaced && outcome.Fulfilled?)
      && (kept.snapshot.status.Completed? ==> kept.snapshot.result == Some(outcome.value) && kept.snapshot.error.None?)
      && (kept.snapshot.status.Cancelled? <==> !kept.replaced && outcome.Rejected? && outcome.error.code.CancelledCode?)
      && (kept.snapshot.status.Unknown? <==>
            kept.replaced || (outcome.Rejected? && outcome.error.code.ResultUnknown?))
      && !kept.snapshot.status.Running?
      && (kept.snapshot.error.Some? ==>
            if kept.replaced then kept.snapshot.error.value.code == ResultUnknown
            else outcome == Rejected(kept.snapshot.error.value))
      && (!kept.snapshot.status.Completed? ==> kept.snapshot.error.Some? && kept.snapshot.result.None?)
  {
  }

  // ------------------------------------------------------------------ asking and clearing

  /** status: what its entry says, running or settled, and unknown without one. */
  lemma StatusExactly(cfg: Config, s: State, id: EntryId)
    requires Inv(cfg, s)
    ensures id !in s.entries ==> StatusOf(s, id) == Snapshot(Unknown, None, None)
    ensures id in s.entries && Runs(s, s.entries[id]) ==> StatusOf(s, id) == Snapshot(Running, None, None)
    ensures id in s.entries ==> StatusOf(s, id) == s.cells[s.entries[id]].snapshot
  {
    if id in s.entries {
      assert CellOk(cfg, s.cells[s.entries[id]]);
    }
  }

  /** text begins with prefix, letter by letter. */
  predicate Begins(text: string, prefix: string) {
    |prefix| <= |text| && forall i | 0 <= i < |prefix| :: text[i] == prefix[i]
  }

  /** clearPrefix, when called on s, aborts exactly the running entries whose id begins with the
      prefix.  When it completes, on whatever ledger t it is by then, exactly those of the entries
      it matched that are still kept are gone, and no other. */
  lemma ClearExactly(cfg: Config, s: State, t: State, prefix: string)
    requires Inv(cfg, s) && Inv(cfg, t) && CellsEvolve(s, t)
    ensures
      var b := ClearBegin(s, prefix);
      && b.entries == s.entries && b.operations == s.operations && |b.cells| == |s.cells|
      && forall u | 0 <= u < |s.cells| ::
           b.cells[u]
           == s.cells[u].(aborted := s.cells[u].aborted || (Runs(s, u) && Begins(s.cells[u].entryId, prefix)))
    ensures
      var c := ClearFinish(t, Matching(s, prefix));
      && c.cells == t.cells && c.operations == t.operations
      && forall id ::
           && (id in c.entries <==> id in t.entries && !(Begins(id, prefix) && Keeps(s, id, t.entries[id])))
           && (id in c.entries ==> c.entries[id] == t.entries[id])
  {
    forall u | 0 <= u < |s.cells|
      ensures u in Matching(s, prefix) <==> Stored(s, u) && Begins(s.cells[u].entryId, prefix)
      ensures Runs(s, u) ==> Stored(s, u)
    {
      if Stored(s, u) && Begins(s.cells[u].entryId, prefix) {
        assert prefix == s.cells[u].entryId[..|prefix|];
        assert s.cells[u].entryId in s.entries && StartsWith(s.cells[u].entryId, prefix);
      }
    }
    forall id | id in t.entries
      ensures t.entries[id] in Matching(s, prefix) <==> Begins(id, prefix) && Keeps(s, id, t.entries[id])
    {
      MatchedIs(cfg, s, t, prefix, id);
    }
  }

  lemma MatchedIs(cfg: Config, s: State, t: State, prefix: string, id: EntryId)
    requires Inv(cfg, s) && Inv(cfg, t) && CellsEvolve(s, t) && id in t.entries
    ensures t.entries[id] in Matching(s, prefix) <==> Begins(id, prefix) && Keeps(s, id, t.entries[id])
  {
    var u := t.entries[id];
    if u in Matching(s, prefix) {
      var k :| k in s.entries && StartsWith(k, prefix) && s.entries[k] == u;
      assert Evolves(s.cells[u], t.cells[u]);
      assert k == id;
    }
    if Begins(id, prefix) && Keeps(s, id, u) {
      assert prefix == id[..|prefix|];
      assert StartsWith(id, prefix);
    }
  }
}
