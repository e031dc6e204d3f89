/** The idempotency ledger as the object it is: entries are updated in place and shared
    between the two maps, and the byte account is a running counter. */
module OperationLedger {
  import opened Wrappers
  import opened LedgerSpec
  import opened LedgerProperties

  class OperationEntry {
    const number: nat  // the execution its first result promise belongs to
    const entryId: EntryId
    const fingerprint: string
    var operationIds: set<OperationId>
    var result: Promise
    var sizeBytes: nat
    var settledAt: Option<int>
    var snapshot: Snapshot
    var aborted: bool
    ghost var outcome: Option<Outcome>

    constructor (number: nat, entryId: EntryId, fingerprint: string)
      ensures this.number == number && result == OfOperation(number)
      ensures Value() == Cell(entryId, fingerprint, {}, 0, None, RUNNING, None, false, false)
    {
      this.number, this.entryId, this.fingerprint := number, entryId, fingerprint;
      operationIds, result, sizeBytes, settledAt := {}, OfOperation(number), 0, None;
      snapshot, aborted, outcome := RUNNING, false, None;
    }

    ghost function Value(): Cell
      reads this
    {
      Cell(entryId, fingerprint, operationIds, sizeBytes, settledAt, snapshot, outcome, result.TooLarge?, aborted)
    }

    /** A place in the layout, among the other entries. */
    ghost predicate In(cells: seq<OperationEntry>, values: seq<Cell>)
      reads this, cells
    {
      LaidOut(cells, values) && number < |cells| && cells[number] == this
    }

    method AddId(o: OperationId, ghost cells: seq<OperationEntry>, ghost values: seq<Cell>)
      requires In(cells, values)
      modifies `operationIds
      ensures |cells| == |values| && operationIds == old(operationIds) + {o}
      ensures LaidOut(cells, values[number := values[number].(operationIds := values[number].operationIds + {o})])
    {
      Apart(cells, values);
      operationIds := operationIds + {o};
    }

    method Abort(ghost cells: seq<OperationEntry>, ghost values: seq<Cell>)
      requires In(cells, values)
      modifies `aborted
      ensures |cells| == |values|
      ensures LaidOut(cells, values[number := values[number].(aborted := true)])
    {
      Apart(cells, values);
      aborted := true;
    }

    /** What settle records: the snapshot that is kept, and the promise that replays will get. */
    method Keep(snapshot: Snapshot, sizeBytes: nat, tooLarge: bool, ghost outcome: Outcome, now: int,
                ghost cells: seq<OperationEntry>, ghost values: seq<Cell>)
      requires In(cells, values) && result.OfOperation?
      modifies this
      ensures |cells| == |values| && this.sizeBytes == sizeBytes
      ensures LaidOut(cells, values[number := values[number].(
                                      snapshot := snapshot, sizeBytes := sizeBytes, settledAt := Some(now),
                                      outcome := Some(outcome), operationIds := {}, replaced := tooLarge)])
    {
      Apart(cells, values);
      this.snapshot, this.sizeBytes, settledAt := snapshot, sizeBytes, Some(now);
      this.outcome, operationIds := Some(outcome), {};
      if tooLarge {
        result := TooLarge;
      }
    }

    lemma Apart(cells: seq<OperationEntry>, values: seq<Cell>)
      requires In(cells, values)
      ensures forall i | 0 <= i < |cells| :: cells[i] == this <==> i == number
      ensures Shows(number, values[number])
    {
      assert forall i | 0 <= i < |cells| :: cells[i].Shows(i, values[i]);
    }

    ghost predicate Shows(i: nat, c: Cell)
      reads this
    {
      number == i && Value() == c && (result == OfOperation(i) || result.TooLarge?)
    }
  }

  /** The entries hold what the model's cells say, each in its place. */
  ghost predicate LaidOut(entries: seq<OperationEntry>, values: seq<Cell>)
    reads entries
  {
    |entries| == |values| && forall i | 0 <= i < |entries| :: entries[i].Shows(i, values[i])
  }

  lemma LaidOutGrows(entries: seq<OperationEntry>, entry: OperationEntry, values: seq<Cell>)
    requires LaidOut(entries, values) && entry.number == |entries|
    requires entry.result == OfOperation(|entries|)
    ensures LaidOut(entries + [entry], values + [entry.Value()])
  {
  }

  /** A map of references says what a map of places in cells says. */
  ghost predicate PointsTo<K(!new)>(refs: map<K, OperationEntry>, places: map<K, nat>, cells: seq<OperationEntry>) {
    && refs.Keys == places.Keys
    && forall k | k in refs :: places[k] < |cells| && refs[k] == cells[places[k]]
  }

  lemma PointsToAfterRemoving<K(!new)>(
    refs: map<K, OperationEntry>, places: map<K, nat>, cells: seq<OperationEntry>, gone: set<K>)
    requires PointsTo(refs, places, cells)
    ensures PointsTo(refs - gone, places - gone, cells)
  {
  }

  lemma PointsToInLonger<K(!new)>(
    refs: map<K, OperationEntry>, places: map<K, nat>, cells: seq<OperationEntry>, k: K, entry: OperationEntry)
    requires PointsTo(refs, places, cells)
    ensures PointsTo(refs[k := entry], places[k := |cells|], cells + [entry])
  {
  }

  lemma PointsToAfterSetting<K(!new)>(
    refs: map<K, OperationEntry>, places: map<K, nat>, cells: seq<OperationEntry>, k: K, u: nat)
    requires PointsTo(refs, places, cells) && u < |cells|
    ensures PointsTo(refs[k := cells[u]], places[k := u], cells)
  {
  }

  /** The ledger half-way through pruning, when the ids in left have yet to be looked at. */
  ghost function Surviving(s: State, left: set<EntryId>, cutoff: int): State
    requires Indexed(s)
  {
    s.(entries := map k | k in s.entries && (k in left || !Expired(s.cells[s.entries[k]], cutoff)) :: s.entries[k])
  }

  lemma SurvivingSteps(s: State, left: set<EntryId>, cutoff: int, id: EntryId)
    requires Indexed(s) && id in left && left <= s.entries.Keys
    ensures Surviving(s, left - {id}, cutoff) ==
            if Expired(s.cells[s.entries[id]], cutoff)
            then Deleted(Surviving(s, left, cutoff), id)
            else Surviving(s, left, cutoff)
    ensures Surviving(s, left, cutoff).cells == s.cells
    ensures id in Surviving(s, left, cutoff).entries && Surviving(s, left, cutoff).entries[id] == s.entries[id]
  {
    var t := Surviving(s, left, cutoff);
    if Expired(s.cells[s.entries[id]], cutoff) {
      assert Surviving(s, left - {id}, cutoff).entries == t.entries - {id};
    } else {
      assert Surviving(s, left - {id}, cutoff).entries == t.entries;
    }
  }

  lemma SurvivingEnds(cfg: Config, s: State, now: int)
    requires Indexed(s)
    ensures Surviving(s, s.entries.Keys, now - cfg.retentionMs) == s
    ensures Surviving(s, {}, now - cfg.retentionMs) == Prune(cfg, s, now)
  {
    assert Surviving(s, s.entries.Keys, now - cfg.retentionMs).entries == s.entries;
    assert Surviving(s, {}, now - cfg.retentionMs).entries == Prune(cfg, s, now).entries;
  }

  /** The running executions behind some of the ids. */
  ghost function RunningAmong(s: State, ids: set<EntryId>): set<nat>
    requires Indexed(s)
  {
    set k | k in ids && k in s.entries && s.cells[s.entries[k]].snapshot.status.Running? :: s.entries[k]
  }

  lemma AbortSteps(s: State, ids: set<EntryId>, id: EntryId)
    requires Indexed(s) && id in s.entries
    ensures var t, u := Abort(s, RunningAmong(s, ids)), s.entries[id];
      t.entries == s.entries && |t.cells| == |s.cells| && t.cells[u].snapshot == s.cells[u].snapshot
    ensures var t := Abort(s, RunningAmong(s, ids));
      Abort(s, RunningAmong(s, ids + {id}))
      == if s.cells[s.entries[id]].snapshot.status.Running? then Abort(t, {s.entries[id]}) else t
  {
    var t, u := Abort(s, RunningAmong(s, ids)), s.entries[id];
    if s.cells[u].snapshot.status.Running? {
      assert RunningAmong(s, ids + {id}) == RunningAmong(s, ids) + {u};
      assert Abort(s, RunningAmong(s, ids) + {u}).cells == Abort(t, {u}).cells;
    } else {
      assert RunningAmong(s, ids + {id}) == RunningAmong(s, ids);
    }
  }

  lemma AbortEnds(s: State, prefix: string, ids: set<EntryId>)
    requires Indexed(s) && ids == set k | k in s.entries && StartsWith(k, prefix)
    ensures Abort(s, RunningAmong(s, {})) == s
    ensures Abort(s, RunningAmong(s, ids)) == ClearBegin(s, prefix)
  {
    assert Abort(s, {}).cells == s.cells;
    assert RunningAmong(s, ids)
        == set u | u in Matching(s, prefix) && u < |s.cells| && s.cells[u].snapshot.status.Running?;
  }

  ghost function NumbersOf(entries: map<EntryId, OperationEntry>, ids: set<EntryId>): set<nat> {
    set k | k in ids && k in entries :: entries[k].number
  }

  lemma NoNumber(entries: map<EntryId, OperationEntry>)
    ensures NumbersOf(entries, entries.Keys - entries.Keys) == {}
    ensures NumbersOf(entries, entries.Keys - {}) == set k | k in entries :: entries[k].number
  {
  }

  lemma OneMoreNumber(entries: map<EntryId, OperationEntry>, left: set<EntryId>, id: EntryId)
    requires left <= entries.Keys && id in left
    ensures NumbersOf(entries, entries.Keys - (left - {id}))
            == NumbersOf(entries, entries.Keys - left) + {entries[id].number}
  {
    assert entries.Keys - (left - {id}) == entries.Keys - left + {id};
  }

  lemma NothingCleared(s: State)
    ensures ClearFinish(s, {}) == s
  {
    assert ClearFinish(s, {}).entries == s.entries;
  }

  lemma ClearFinishSteps(s: State, done: set<nat>, id: EntryId, u: nat)
    requires Indexed(s) && u < |s.cells| && s.cells[u].entryId == id
    ensures ClearFinish(s, done + {u}).cells == s.cells
    ensures var t := ClearFinish(s, done);
      ClearFinish(s, done + {u}) == if id in t.entries && t.entries[id] == u then Deleted(t, id) else t
  {
    var t := ClearFinish(s, done);
    if id in t.entries && t.entries[id] == u {
      assert ClearFinish(s, done + {u}).entries == t.entries - {id};
    } else {
      assert ClearFinish(s, done + {u}).entries == t.entries;
    }
  }

  lemma SettleParts(cfg: Config, s: State, u: nat, outcome: Outcome, now: int)
    requires u < |s.cells|
    ensures
      var tooLarge := cfg.Size(SnapshotOf(outcome)) > cfg.maxBytes - StoredBytes(s);
      var kept := SnapshotOf(if tooLarge then TOO_LARGE else outcome);
      Settle(cfg, s, u, outcome, now) ==
      State(s.cells[u := s.cells[u].(
                      snapshot := kept, sizeBytes := cfg.Size(kept), settledAt := Some(now),
                      outcome := Some(outcome), operationIds := {}, replaced := tooLarge)],
            s.entries, s.operations - s.cells[u].operationIds)
  {
  }

  lemma AbortOneParts(s: State, u: nat)
    requires u < |s.cells|
    ensures Abort(s, {u}) == s.(cells := s.cells[u := s.cells[u].(aborted := true)])
  {
    assert Abort(s, {u}).cells == s.cells[u := s.cells[u].(aborted := true)];
  }

  lemma OneMore<T>(all: set<T>, left: set<T>, x: T)
    requires left <= all && x in left
    ensures all - (left - {x}) == all - left + {x}
  {
  }

  class OperationLedger {
    const cfg: Config
    var entries: map<EntryId, OperationEntry>
    var operations: map<OperationId, OperationEntry>
    var storedBytes: int
    var made: nat  // numbers the result promises
    ghost var cells: seq<OperationEntry>  // every entry ever made
    ghost var model: State

    ghost predicate Valid()
      reads this, cells
    {
      && LaidOut(cells, model.cells)
      && PointsTo(entries, model.entries, cells)
      && PointsTo(operations, model.operations, cells)
      && Inv(cfg, model)
      && storedBytes == StoredBytes(model)
      && made == |cells|
    }

    constructor (maxEntries: nat, retentionMs: nat, maxBytes: nat, measure: Snapshot -> Option<nat>)
      requires maxEntries >= 1 && retentionMs >= 1 && maxBytes >= 1
      ensures Valid() && model == EMPTY && cells == []
      ensures cfg == Config(maxEntries, retentionMs, maxBytes, measure)
    {
      cfg := Config(maxEntries, retentionMs, maxBytes, measure);
      entries, operations, storedBytes, made, cells, model := map[], map[], 0, 0, [], EMPTY;
    }

    /** What the layout says of one stored entry. */
    lemma EntryAt(id: EntryId)
      requires Valid() && id in entries
      ensures id in model.entries && model.entries[id] < |cells| && |cells| == |model.cells|
      ensures entries[id] == cells[model.entries[id]] && entries[id] in cells
      ensures entries[id].Shows(model.entries[id], model.cells[model.entries[id]])
      ensures CellOk(cfg, model.cells[model.entries[id]])
    {
    }

    lemma Shape()
      requires Valid()
      ensures Indexed(model) && |cells| == |model.cells|
      ensures PointsTo(entries, model.entries, cells) && PointsTo(operations, model.operations, cells)
      ensures entries.Keys == model.entries.Keys && operations.Keys == model.operations.Keys
      ensures |entries| == |model.entries|
    {
      assert |entries.Keys| == |model.entries.Keys|;
    }

    lemma IdsOf(entry: OperationEntry)
      requires Valid() && entry.number < |cells| && cells[entry.number] == entry
      ensures |cells| == |model.cells| && entry.Shows(entry.number, model.cells[entry.number])
      ensures CellOk(cfg, model.cells[entry.number])
      ensures forall o | o in entry.operationIds :: o in operations && operations[o] == entry
    {
    }

    /** What the layout says of the entry an operation id is bound to. */
    lemma BoundAt(o: OperationId)
      requires Valid() && o in operations
      ensures o in model.operations && model.operations[o] < |cells| && |cells| == |model.cells|
      ensures operations[o] == cells[model.operations[o]] && operations[o] in cells
      ensures operations[o].Shows(model.operations[o], model.cells[model.operations[o]])
    {
    }

    lemma BoundElsewhere(o: OperationId, entry: OperationEntry)
      requires Valid() && entry.number < |cells| && cells[entry.number] == entry
      ensures (o in operations && operations[o] != entry)
              <==> (o in model.operations && model.operations[o] != entry.number)
    {
    }

    /** deleteEntry: nothing happens if the id now belongs to another entry. */
    method DeleteEntry(id: EntryId, entry: OperationEntry)
      requires Valid() && !entry.snapshot.status.Running?
      modifies this`entries, this`storedBytes, this`model
      ensures Valid()
      ensures model == if id in old(entries) && old(entries[id]) == entry
                       then Deleted(old(model), id) else old(model)
      ensures id in old(entries) && old(entries[id]) == entry ==>
                storedBytes == old(storedBytes) - entry.sizeBytes  // the clamp at zero never bites
    {
      hide Inv, Indexed, LaidOut, PointsTo, StoredBytes;
      if id !in entries || entries[id] != entry {
        return;
      }
      EntryAt(id);
      DeleteKeepsInv(cfg, model, id);
      PointsToAfterRemoving(entries, model.entries, cells, {id});
      entries := entries - {id};
      storedBytes := if storedBytes - entry.sizeBytes > 0 then storedBytes - entry.sizeBytes else 0;
      model := Deleted(model, id);
    }

    method Prune(now: int)
      requires Valid()
      modifies this`entries, this`storedBytes, this`model
      ensures Valid() && model == LedgerSpec.Prune(cfg, old(model), now)
    {
      hide Inv, Indexed, LaidOut, PointsTo, Surviving, LedgerSpec.Prune, Deleted;
      Shape();
      SurvivingEnds(cfg, model, now);
      var cutoff := now - cfg.retentionMs;
      var left := entries.Keys;
      while left != {}
        invariant Valid() && left <= old(model).entries.Keys
        invariant model == Surviving(old(model), left, cutoff)
      {
        Shape();
        var id :| id in left;
        SurvivingSteps(old(model), left, cutoff, id);
        EntryAt(id);
        var entry := entries[id];
        left := left - {id};
        if entry.settledAt.Some? && entry.settledAt.value <= cutoff {
          DeleteEntry(id, entry);
        }
      }
    }

    /** bindOperation: false when the id is bound to another entry. */
    method BindOperation(o: OperationId, entry: OperationEntry) returns (bound: bool)
      requires Valid() && entry.number < |cells| && cells[entry.number] == entry
      requires entry.snapshot.status.Running?
      modifies this`operations, this`model, entry`operationIds
      ensures Valid()
      ensures bound <==> o !in old(model).operations || old(model).operations[o] == entry.number
      ensures model == if bound then Bind(old(model), o, entry.number) else old(model)
    {
      hide Inv, Indexed, LaidOut, PointsTo, StoredBytes;
      bound := o !in operations || operations[o] == entry;
      BoundElsewhere(o, entry);
      if bound {
        BindFree(o, entry);
      }
    }

    method BindFree(o: OperationId, entry: OperationEntry)
      requires Valid() && entry.number < |cells| && cells[entry.number] == entry
      requires entry.snapshot.status.Running?
      requires o !in model.operations || model.operations[o] == entry.number
      modifies this`operations, this`model, entry`operationIds
      ensures Valid() && model == Bind(old(model), o, entry.number)
    {
      hide Inv, Indexed, LaidOut, PointsTo, StoredBytes;
      Shape();
      IdsOf(entry);
      var n := entry.number;
      BindKeepsInv(cfg, model, o, n);
      SameBytesKeepsStored(model, Bind(model, o, n));
      PointsToAfterSetting(operations, model.operations, cells, o, n);
      entry.AddId(o, cells, model.cells);
      operations := operations[o := entry];
      model := Bind(model, o, n);
    }

    method Start(now: int, id: EntryId, o: OperationId, fingerprint: string) returns (started: Started)
      requires Valid()
      modifies this, cells
      ensures Valid()
      ensures (model, started) == LedgerSpec.Start(cfg, old(model), now, id, o, fingerprint)
      ensures old(cells) <= cells && forall i | |old(cells)| <= i < |cells| :: fresh(cells[i])
    {
      hide Inv, Indexed, LaidOut, PointsTo, StoredBytes, LedgerSpec.Prune, Insert, Bind;
      Shape();
      Prune(now);
      Shape();
      if id in entries {
        EntryAt(id);
        var existing := entries[id];
        if existing.fingerprint != fingerprint {
          return Denied(ProtocolMismatch);
        }
        if !existing.snapshot.status.Running? {
          return Handle(Replayed, existing.result);
        }
        var result := existing.result;
        var bound := BindOperation(o, existing);
        return if bound then Handle(Joined, result) else Denied(ProtocolMismatch);
      }
      if |entries| >= cfg.maxEntries || storedBytes >= cfg.maxBytes {
        return Denied(CommandDenied);
      }
      if o in operations {
        return Denied(ProtocolMismatch);
      }
      started := Handle(Executed, OfOperation(made));
      InsertEntry(id, o, fingerprint);
    }

    /** The tail of start: a new entry, stored and bound. */
    method InsertEntry(id: EntryId, o: OperationId, fingerprint: string)
      requires Valid() && id !in entries && o !in operations && |entries| < cfg.maxEntries
      modifies this
      ensures Valid() && model == Insert(old(model), id, o, fingerprint)
      ensures |cells| == |old(cells)| + 1 && cells[..|old(cells)|] == old(cells) && fresh(cells[|old(cells)|])
    {
      hide Inv, Indexed, LaidOut, PointsTo, StoredBytes;
      Shape();
      InsertKeepsInv(cfg, model, id, o, fingerprint);
      InsertKeepsBytes(model, id, o, fingerprint);
      var entry := new OperationEntry(made, id, fingerprint);
      PointsToInLonger(entries, model.entries, cells, id, entry);
      PointsToInLonger(operations, model.operations, cells, o, entry);
      entry.operationIds := {o};
      entries := entries[id := entry];
      operations := operations[o := entry];
      made := made + 1;
      cells := cells + [entry];
      LaidOutGrows(old(cells), entry, model.cells);
      assert entry.Value() == Cell(id, fingerprint, {o}, 0, None, RUNNING, None, false, false);
      model := Insert(model, id, o, fingerprint);
    }

    /** The tail of settle: every id bound to the entry is let go. */
    method ReleaseIds(entry: OperationEntry)
      requires forall o | o in entry.operationIds :: o in operations && operations[o] == entry
      modifies this`operations
      ensures operations == old(operations) - entry.operationIds
    {
      var left := entry.operationIds;
      while left != {}
        invariant left <= entry.operationIds && operations == old(operations) - (entry.operationIds - left)
      {
        var o :| o in left;
        left := left - {o};
        if o in operations && operations[o] == entry {
          operations := operations - {o};
        }
      }
    }

    /** The operation behind a running entry settles. */
    method Settle(entry: OperationEntry, outcome: Outcome, now: int)
      requires Valid() && entry.number < |cells| && cells[entry.number] == entry
      requires entry.snapshot.status.Running?
      modifies this`operations, this`storedBytes, this`model, entry
      ensures Valid() && model == LedgerSpec.Settle(cfg, old(model), entry.number, outcome, now)
    {
      hide Inv, Indexed, LaidOut, PointsTo, StoredBytes, LedgerSpec.Settle, SnapshotOf;
      Shape();
      IdsOf(entry);
      var u := entry.number;
      SettleParts(cfg, model, u, outcome, now);
      SettleKeepsInv(cfg, model, u, outcome, now);
      SettleAddsItsSize(cfg, model, u, outcome, now);
      PointsToAfterRemoving(operations, model.operations, cells, entry.operationIds);
      var tooLarge := cfg.Size(SnapshotOf(outcome)) > cfg.maxBytes - storedBytes;
      var snapshot := SnapshotOf(if tooLarge then TOO_LARGE else outcome);
      ReleaseIds(entry);
      entry.Keep(snapshot, cfg.Size(snapshot), tooLarge, outcome, now, cells, model.cells);
      storedBytes := storedBytes + entry.sizeBytes;
      model := LedgerSpec.Settle(cfg, model, u, outcome, now);
    }

    method Status(now: int, id: EntryId) returns (snapshot: Snapshot)
      requires Valid()
      modifies this`entries, this`storedBytes, this`model
      ensures Valid() && model == LedgerSpec.Prune(cfg, old(model), now)
      ensures snapshot == StatusOf(model, id)
    {
      hide Inv, LaidOut, PointsTo, StoredBytes, LedgerSpec.Prune;
      Prune(now);
      Shape();
      if id !in entries {
        return Snapshot(Unknown, None, None);
      }
      EntryAt(id);
      return entries[id].snapshot;
    }

    method Cancel(o: OperationId) returns (hit: bool)
      requires Valid()
      modifies this`model, cells
      ensures Valid() && (model, hit) == LedgerSpec.Cancel(old(model), o)
    {
      hide Inv, LaidOut, PointsTo, StoredBytes;
      Shape();
      if o !in operations {
        return false;
      }
      BoundAt(o);
      var entry := operations[o];
      if !entry.snapshot.status.Running? {
        return false;
      }
      AbortOne(entry);
      return true;
    }

    method AbortOne(entry: OperationEntry)
      requires Valid() && entry.number < |cells| && cells[entry.number] == entry
      modifies this`model, entry`aborted
      ensures Valid() && model == LedgerSpec.Abort(old(model), {entry.number})
    {
      hide Inv, Indexed, LaidOut, PointsTo, StoredBytes, LedgerSpec.Abort;
      Shape();
      IdsOf(entry);
      AbortOneParts(model, entry.number);
      AbortKeepsInv(cfg, model, {entry.number});
      SameBytesKeepsStored(model, LedgerSpec.Abort(model, {entry.number}));
      entry.Abort(cells, model.cells);
      model := LedgerSpec.Abort(model, {entry.number});
    }

    /** The synchronous part of clearPrefix: what matches now, and an abort for what runs. */
    method ClearBegin(prefix: string) returns (matches: map<EntryId, OperationEntry>)
      requires Valid()
      modifies this`model, cells
      ensures Valid() && model == LedgerSpec.ClearBegin(old(model), prefix)
      ensures matches == map k | k in entries && StartsWith(k, prefix) :: entries[k]
    {
      hide Inv, Indexed, LaidOut, PointsTo, StoredBytes, RunningAmong, LedgerSpec.ClearBegin, LedgerSpec.Abort;
      Shape();
      matches := map k | k in entries && StartsWith(k, prefix) :: entries[k];
      var left := matches.Keys;
      AbortEnds(model, prefix, matches.Keys);
      assert matches.Keys - left == {};
      while left != {}
        invariant Valid() && left <= matches.Keys
        invariant model == LedgerSpec.Abort(old(model), RunningAmong(old(model), matches.Keys - left))
      {
        var id :| id in left;
        AbortSteps(old(model), matches.Keys - left, id);
        OneMore(matches.Keys, left, id);
        EntryAt(id);
        left := left - {id};
        var entry := entries[id];
        if entry.snapshot.status.Running? {
          AbortOne(entry);
        }
      }
      assert matches.Keys - left == matches.Keys;
    }

    /** What clearPrefix does once every matched result has settled. */
    method ClearFinish(matches: map<EntryId, OperationEntry>) returns (count: nat)
      requires Valid()
      requires forall k | k in matches ::
                 && matches[k].number < |cells| && cells[matches[k].number] == matches[k]
                 && matches[k].entryId == k && !matches[k].snapshot.status.Running?
      modifies this`entries, this`storedBytes, this`model
      ensures Valid() && count == |matches|
      ensures model == LedgerSpec.ClearFinish(old(model), set k | k in matches :: matches[k].number)
    {
      hide Inv, Indexed, LaidOut, PointsTo, StoredBytes, NumbersOf, LedgerSpec.ClearFinish, Deleted;
      Shape();
      var left := matches.Keys;
      NothingCleared(model);
      NoNumber(matches);
      while left != {}
        invariant Valid() && left <= matches.Keys
        invariant model == LedgerSpec.ClearFinish(old(model), NumbersOf(matches, matches.Keys - left))
        invariant model.cells == old(model.cells)
      {
        var id :| id in left;
        var entry := matches[id];
        IdsOf(entry);
        ClearFinishSteps(old(model), NumbersOf(matches, matches.Keys - left), id, entry.number);
        OneMoreNumber(matches, left, id);
        SameEntry(id, entry);
        left := left - {id};
        DeleteEntry(id, entry);
      }
      count := |matches|;
    }

    lemma SameEntry(id: EntryId, entry: OperationEntry)
      requires Valid() && entry.number < |cells| && cells[entry.number] == entry
      ensures id in entries <==> id in model.entries
      ensures id in entries ==> (entries[id] == entry <==> model.entries[id] == entry.number)
    {
    }
  }
}
