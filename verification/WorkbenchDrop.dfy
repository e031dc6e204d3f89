/** The two-asset patch transaction of the Workbench drop integration.

    Enabling rewrites two files of a VS Code installation, the Workbench bundle
    (the target) and product.json (which records the bundle's checksum).  Backups,
    staged replacements and a metadata journal are kept beside them.  A process can
    die, or an I/O call can fail, at every atomic step. */
module WorkbenchDrop {
  import opened Wrappers

  type Bytes = string

  /** SHA-256, taken to be injective. */
  datatype Digest = Sha256(content: Bytes)

  datatype Identity = Identity(version: string, commit: string)

  datatype Inspection = Compatible | Patchable(patchedSource: Bytes) | Unsupported

  /** What one released version of the extension computes from file contents: the
      inspection of a Workbench source, the rewritten product metadata (None when the
      checksum entry does not allow it) and the product identity. */
  datatype Extension = Extension(
    inspect: Bytes -> Inspection,
    patchProduct: (Bytes, Bytes, Bytes) -> Option<Bytes>,
    identity: Bytes -> Option<Identity>
  )

  // ---------------------------------------------------------------- the disk

  datatype ManagedFile = Backup | Patched | ProductBackup | ProductPatched

  datatype Asset = Target | Product

  datatype Metadata = Metadata(
    appRoot: string,
    original: Digest,
    patched: Digest,
    productOriginal: Digest,
    productPatched: Digest
  )

  datatype Journal = Missing | Malformed | Stored(m: Metadata)

  datatype Image = Image(
    target: Option<Bytes>,
    product: Option<Bytes>,
    journal: Journal,
    managed: map<ManagedFile, Bytes>
  )
  {
    function Read(asset: Asset): Option<Bytes> {
      if asset.Target? then target else product
    }

    function Put(asset: Asset, content: Bytes): Image {
      if asset.Target? then this.(target := Some(content)) else this.(product := Some(content))
    }

    /** readManagedFile succeeds: the file is there and has the expected digest. */
    predicate Holds(f: ManagedFile, d: Digest) {
      f in managed && Sha256(managed[f]) == d
    }

    predicate AssetIs(asset: Asset, d: Digest) {
      Read(asset).Some? && Sha256(Read(asset).value) == d
    }

    /** Both backups are present and hash-valid for the journal entry m. */
    predicate Backed(m: Metadata) {
      Holds(Backup, m.original) && Holds(ProductBackup, m.productOriginal)
    }

    predicate Staged(m: Metadata) {
      Holds(Patched, m.patched) && Holds(ProductPatched, m.productPatched)
    }

    predicate Original(m: Metadata) {
      AssetIs(Target, m.original) && AssetIs(Product, m.productOriginal)
    }

    predicate PatchApplied(m: Metadata) {
      AssetIs(Target, m.patched) && AssetIs(Product, m.productPatched)
    }

    /** The bundle is the patched one, and that is not the original one. */
    predicate BundlePatched(m: Metadata) {
      AssetIs(Target, m.patched) && !AssetIs(Target, m.original)
    }

    /** The bundle is patched under a product.json that is not. */
    predicate BundleAlone(m: Metadata) {
      BundlePatched(m) && AssetIs(Product, m.productOriginal) && !AssetIs(Product, m.productPatched)
    }

    /** Each asset is one the journal knows. */
    predicate Recorded(m: Metadata) {
      && (AssetIs(Target, m.original) || AssetIs(Target, m.patched))
      && (AssetIs(Product, m.productOriginal) || AssetIs(Product, m.productPatched))
    }

    /** Neither asset is one the journal knows. */
    predicate Superseded(m: Metadata) {
      && target.Some? && product.Some?
      && Sha256(target.value) !in {m.original, m.patched}
      && Sha256(product.value) !in {m.productOriginal, m.productPatched}
    }

    predicate SameAssets(that: Image) {
      target == that.target && product == that.product
    }

    predicate Unmanaged() {
      journal.Missing? && managed == map[]
    }
  }

  // ------------------------------------------------- the discipline of one step

  /** A backup or staged file is written while no journal exists. */
  ghost predicate StagesFile(a: Image, b: Image) {
    && a.journal.Missing?
    && exists f: ManagedFile :: f in b.managed && b == a.(managed := a.managed[f := b.managed[f]])
  }

  /** The journal appears once everything it names is on disk. */
  ghost predicate WritesJournal(root: string, a: Image, b: Image) {
    && a.journal.Missing? && b.journal.Stored?
    && b == a.(journal := b.journal)
    && b.journal.m.appRoot == root
    && b.Backed(b.journal.m) && b.Staged(b.journal.m) && b.Original(b.journal.m)
  }

  /** State is dropped only if nothing depends on it any more. */
  ghost predicate DropsState(a: Image, b: Image) {
    && a.SameAssets(b)
    && (b.journal == a.journal || b.journal.Missing?)
    && b.managed.Keys <= a.managed.Keys
    && (forall f | f in b.managed :: b.managed[f] == a.managed[f])
    && (a.journal.Missing?
        || (a.journal.Stored? && (a.Original(a.journal.m) || a.Superseded(a.journal.m))))
  }

  /** An asset is replaced: under a journal with both backups in place, from one recorded
      content to the other.  The bundle is patched after product.json and restored before it. */
  ghost predicate ReplacesAsset(root: string, a: Image, b: Image) {
    && a.journal.Stored? && a.journal.m.appRoot == root
    && var m := a.journal.m;
    && a.Backed(m)
    && ( || (a.AssetIs(Product, m.productOriginal) && b.AssetIs(Product, m.productPatched)
             && b == a.(product := b.product)
             && (a.AssetIs(Target, m.original) || a.AssetIs(Target, m.patched)))
         || (a.AssetIs(Target, m.original) && b.AssetIs(Target, m.patched)
             && b == a.(target := b.target)
             && a.AssetIs(Product, m.productPatched))
         || (a.AssetIs(Target, m.patched) && b.AssetIs(Target, m.original)
             && b == a.(target := b.target))
         || (a.AssetIs(Product, m.productPatched) && b.AssetIs(Product, m.productOriginal)
             && b == a.(product := b.product)
             && a.AssetIs(Target, m.original)))
  }

  /** Every atomic step the code takes on the disk is one of these, with one exception. */
  ghost predicate Disciplined(root: string, a: Image, b: Image) {
    StagesFile(a, b) || WritesJournal(root, a, b) || DropsState(a, b) || ReplacesAsset(root, a, b)
  }

  /** The exception: a rollback that could not read the bundle puts product.json back under it. */
  ghost predicate PutsBackBlindly(root: string, a: Image, b: Image) {
    && a.journal.Stored? && a.journal.m.appRoot == root
    && var m := a.journal.m;
    && a.Backed(m) && a.BundlePatched(m) && a.AssetIs(Product, m.productPatched)
    && b == a.(product := b.product)
    && b.AssetIs(Product, m.productOriginal) && !b.AssetIs(Product, m.productPatched)
  }

  // ---------------------------------------------------------------- crash safety

  /** The journal, if there is one, is that of the assets (t0, p0). */
  ghost predicate JournalOf(root: string, t0: Bytes, p0: Bytes, a: Image) {
    && !a.journal.Malformed?
    && (a.journal.Stored? ==>
          && a.journal.m.appRoot == root
          && a.journal.m.original == Sha256(t0)
          && a.journal.m.productOriginal == Sha256(p0))
  }

  /** The assets are the originals (t0, p0), or product.json alone is patched, or both are;
      in the last two cases the journal and both backups are there to undo it. */
  ghost predicate Recoverable(root: string, t0: Bytes, p0: Bytes, a: Image) {
    && JournalOf(root, t0, p0, a)
    && ( || (a.target == Some(t0) && a.product == Some(p0))
         || (&& a.journal.Stored? && a.Backed(a.journal.m)
             && a.AssetIs(Product, a.journal.m.productPatched)
             && (a.target == Some(t0) || a.AssetIs(Target, a.journal.m.patched))))
  }

  /** Recoverable, or the bundle alone is patched, again with journal and both backups. */
  ghost predicate Undoable(root: string, t0: Bytes, p0: Bytes, a: Image) {
    || Recoverable(root, t0, p0, a)
    || (&& JournalOf(root, t0, p0, a)
        && a.journal.Stored? && a.Backed(a.journal.m) && a.BundleAlone(a.journal.m))
  }

  /** The history of a disk: steps of the code itself, among them the blind ones, and writes by
      anything else. */
  datatype Run =
    | Start(disk: Image)
    | Own(earlier: Run, disk: Image)
    | Blind(earlier: Run, disk: Image)
    | Outside(earlier: Run, disk: Image)

  ghost predicate DisciplinedRun(root: string, run: Run) {
    match run
    case Start(_) => true
    case Own(earlier, disk) => DisciplinedRun(root, earlier) && Disciplined(root, earlier.disk, disk)
    case Blind(earlier, disk) => DisciplinedRun(root, earlier) && PutsBackBlindly(root, earlier.disk, disk)
    case Outside(earlier, _) => DisciplinedRun(root, earlier)
  }

  /** run continues base with nothing but steps of the code. */
  ghost predicate OwnSteps(base: Run, run: Run) {
    run == base || ((run.Own? || run.Blind?) && OwnSteps(base, run.earlier))
  }

  /** run continues base without a blind step. */
  ghost predicate Sighted(base: Run, run: Run) {
    run == base || (run.Own? && Sighted(base, run.earlier))
  }

  function Length(run: Run): nat {
    if run.Start? then 0 else 1 + Length(run.earlier)
  }

  lemma {:induction false} BaseIsNoLonger(base: Run, run: Run)
    requires OwnSteps(base, run)
    ensures Length(base) <= Length(run)
  {
    if run != base {
      BaseIsNoLonger(base, run.earlier);
    }
  }

  /** point is a moment of run. */
  ghost predicate Passed(point: Run, run: Run) {
    point == run || (!run.Start? && Passed(point, run.earlier))
  }

  /** A step from a recoverable disk leaves it recoverable exactly if it is not the blind one. */
  lemma StepKeepsRecoverable(root: string, t0: Bytes, p0: Bytes, a: Image, b: Image)
    requires Recoverable(root, t0, p0, a) && (Disciplined(root, a, b) || PutsBackBlindly(root, a, b))
    ensures Recoverable(root, t0, p0, b) <==> !PutsBackBlindly(root, a, b)
  {
  }

  lemma StepKeepsUndoable(root: string, t0: Bytes, p0: Bytes, a: Image, b: Image)
    requires Undoable(root, t0, p0, a) && (Disciplined(root, a, b) || PutsBackBlindly(root, a, b))
    ensures Undoable(root, t0, p0, b)
  {
  }

  lemma {:induction false} RunEndsUndoable(root: string, t0: Bytes, p0: Bytes, base: Run, run: Run)
    requires DisciplinedRun(root, run) && OwnSteps(base, run)
    requires Undoable(root, t0, p0, base.disk)
    ensures Undoable(root, t0, p0, run.disk)
  {
    if run != base {
      RunEndsUndoable(root, t0, p0, base, run.earlier);
      StepKeepsUndoable(root, t0, p0, run.earlier.disk, run.disk);
    }
  }

  lemma {:induction false} SightedRunEndsRecoverable(root: string, t0: Bytes, p0: Bytes, base: Run, run: Run)
    requires DisciplinedRun(root, run) && Sighted(base, run)
    requires Recoverable(root, t0, p0, base.disk)
    ensures Recoverable(root, t0, p0, run.disk)
  {
    if run != base {
      SightedRunEndsRecoverable(root, t0, p0, base, run.earlier);
      StepKeepsRecoverable(root, t0, p0, run.earlier.disk, run.disk);
    }
  }

  lemma {:induction false} PartOfDisciplinedRun(root: string, point: Run, run: Run)
    requires DisciplinedRun(root, run) && Passed(point, run)
    ensures DisciplinedRun(root, point)
  {
    if point != run {
      PartOfDisciplinedRun(root, point, run.earlier);
    }
  }

  /** Crash safety: with no writes from outside since base, every state on the way, each one
      a place where the process may have died, can be undone; it is recoverable exactly if the
      bundle is not alone, and always if no blind step has been taken. */
  lemma {:induction false} EveryStateOfARunIsRecoverable(
    root: string, t0: Bytes, p0: Bytes, base: Run, run: Run, point: Run)
    requires DisciplinedRun(root, run) && Passed(point, run) && OwnSteps(base, point)
    requires Recoverable(root, t0, p0, base.disk)
    ensures Undoable(root, t0, p0, point.disk)
    ensures Recoverable(root, t0, p0, point.disk)
            <==> !(point.disk.journal.Stored? && point.disk.BundleAlone(point.disk.journal.m))
    ensures Sighted(base, point) ==> Recoverable(root, t0, p0, point.disk)
  {
    PartOfDisciplinedRun(root, point, run);
    RunEndsUndoable(root, t0, p0, base, point);
    if Sighted(base, point) {
      SightedRunEndsRecoverable(root, t0, p0, base, point);
    }
  }

  /** The bundle is alone right after every blind step, and a blind step is what it takes. */
  lemma {:induction false} BlindStepLeavesBundleAlone(
    root: string, t0: Bytes, p0: Bytes, base: Run, run: Run)
    requires DisciplinedRun(root, run) && OwnSteps(base, run) && run != base
    requires Recoverable(root, t0, p0, run.earlier.disk)
    ensures run.Blind? <==> !Recoverable(root, t0, p0, run.disk)
  {
    StepKeepsRecoverable(root, t0, p0, run.earlier.disk, run.disk);
  }

  /** No clobbering, outside writes included: whenever a step of the code changes an asset, the
      bytes it overwrites are the recorded patched ones or are held by a hash-matching backup. */
  lemma {:induction false} OverwrittenBytesAreSaved(root: string, run: Run, point: Run, asset: Asset)
    requires DisciplinedRun(root, run) && Passed(point, run) && (point.Own? || point.Blind?)
    requires point.earlier.disk.Read(asset) != point.disk.Read(asset)
    ensures
      var a := point.earlier.disk;
      && a.journal.Stored? && a.Read(asset).Some?
      && var m, lost := a.journal.m, a.Read(asset).value;
      if asset.Target?
      then Sha256(lost) == m.patched || (Sha256(lost) == m.original && Backup in a.managed && a.managed[Backup] == lost)
      else Sha256(lost) == m.productPatched
           || (Sha256(lost) == m.productOriginal && ProductBackup in a.managed && a.managed[ProductBackup] == lost)
  {
    PartOfDisciplinedRun(root, point, run);
  }

  // ---------------------------------------------------------------- the transaction

  datatype Status =
    | AlreadyPatched | PatchedNow | RestoredNow | AlreadyRestored | NothingToRestore
    | Unavailable | UnsupportedSource | Conflict

  /** How one atomic step ends: it went through, the call threw, or the process died. */
  datatype Fate = Alive | Failed | Died

  datatype Outcome = Returned(status: Status) | Threw | Crashed

  function Ended(fate: Fate): Outcome
    requires !fate.Alive?
  {
    if fate.Failed? then Threw else Crashed
  }

  predicate Refused(outcome: Outcome) {
    outcome.Returned? && outcome.status in {Conflict, UnsupportedSource, Unavailable, NothingToRestore}
  }

  predicate SafeUpgrade(ext: Extension, m: Metadata, originalProduct: Bytes, current: Bytes, currentProduct: Bytes) {
    && Sha256(current) !in {m.original, m.patched}
    && Sha256(currentProduct) !in {m.productOriginal, m.productPatched}
    && ext.identity(originalProduct).Some?
    && ext.identity(currentProduct).Some?
    && ext.identity(originalProduct) != ext.identity(currentProduct)
    && var inspected := ext.inspect(current);
    && inspected.Patchable?
    && ext.patchProduct(currentProduct, current, inspected.patchedSource).Some?
  }

  function InspectUnmanaged(ext: Extension, source: Bytes, productSource: Bytes): Result<(Bytes, Bytes), Status> {
    match ext.inspect(source)
    case Compatible => Err(Conflict)
    case Unsupported => Err(UnsupportedSource)
    case Patchable(patched) =>
      match ext.patchProduct(productSource, source, patched)
      case None => Err(UnsupportedSource)
      case Some(patchedProduct) => Ok((patched, patchedProduct))
  }

  // What a caller may rely on, apart from how the two functions above find it out.

  /** ext makes of the originals (t0, p0) the patched pair (t1, p1). */
  ghost predicate Makes(ext: Extension, t0: Bytes, p0: Bytes, t1: Bytes, p1: Bytes) {
    ext.inspect(t0) == Patchable(t1) && ext.patchProduct(p0, t0, t1) == Some(p1)
  }

  ghost predicate CanPatch(ext: Extension, t0: Bytes, p0: Bytes) {
    exists t1, p1 :: Makes(ext, t0, p0, t1, p1)
  }

  /** An unmanaged installation that ext can patch. */
  ghost predicate FreshPatchable(ext: Extension, a: Image) {
    a.target.Some? && a.product.Some? && CanPatch(ext, a.target.value, a.product.value)
  }

  /** The journal belongs to assets that a newer installation has since replaced: both are unknown
      to it, product.json names another product than its backup, and ext can patch what is there. */
  ghost predicate Upgraded(ext: Extension, a: Image) {
    && a.journal.Stored? && a.Superseded(a.journal.m) && FreshPatchable(ext, a)
    && ProductBackup in a.managed
    && var before, now := ext.identity(a.managed[ProductBackup]), ext.identity(a.product.value);
    before.Some? && now.Some? && before != now
  }

  lemma UpgradeExactly(ext: Extension, a: Image)
    requires a.journal.Stored? && a.target.Some? && a.product.Some? && ProductBackup in a.managed
    ensures SafeUpgrade(ext, a.journal.m, a.managed[ProductBackup], a.target.value, a.product.value)
            <==> Upgraded(ext, a)
  {
    var t1 := ext.inspect(a.target.value);
    if SafeUpgrade(ext, a.journal.m, a.managed[ProductBackup], a.target.value, a.product.value) {
      var p1 := ext.patchProduct(a.product.value, a.target.value, t1.patchedSource);
      assert Makes(ext, a.target.value, a.product.value, t1.patchedSource, p1.value);
    }
  }

  lemma InspectExactly(ext: Extension, t0: Bytes, p0: Bytes)
    ensures InspectUnmanaged(ext, t0, p0).Ok? <==> CanPatch(ext, t0, p0)
    ensures forall t1, p1 :: InspectUnmanaged(ext, t0, p0) == Ok((t1, p1)) <==> Makes(ext, t0, p0, t1, p1)
    ensures InspectUnmanaged(ext, t0, p0).Err? ==>
              InspectUnmanaged(ext, t0, p0).error == if ext.inspect(t0).Compatible? then Conflict else UnsupportedSource
  {
    var made := InspectUnmanaged(ext, t0, p0);
    if made.Ok? {
      assert Makes(ext, t0, p0, made.value.0, made.value.1);
    }
  }

  /** A state enable brings to the patched one. */
  ghost predicate Enableable(ext: Extension, root: string, a: Image) {
    match a.journal
    case Malformed => false
    case Missing => FreshPatchable(ext, a)
    case Stored(m) =>
      && m.appRoot == root && a.Backed(m) && a.Staged(m)
      && (Upgraded(ext, a)
          || (a.Recorded(m) && CanPatch(ext, a.managed[Backup], a.managed[ProductBackup])))
  }

  /** A state restore takes back to the originals. */
  ghost predicate Restorable(ext: Extension, root: string, a: Image) {
    && a.journal.Stored?
    && var m := a.journal.m;
    m.appRoot == root && a.Backed(m) && (a.Recorded(m) || Upgraded(ext, a))
  }

  /** The installation carries exactly the patch that ext makes of the backed-up originals. */
  ghost predicate Carries(ext: Extension, root: string, a: Image) {
    && a.journal.Stored? && a.journal.m.appRoot == root
    && var m := a.journal.m;
    && a.Backed(m) && a.Staged(m) && a.PatchApplied(m)
    && Makes(ext, a.managed[Backup], a.managed[ProductBackup], a.target.value, a.product.value)
  }

  /** Which of the reads of a rollback work: both assets before it, and both again after it. */
  datatype Sight = Sight(target: bool, product: bool, targetAgain: bool, productAgain: bool)
  {
    predicate All() {
      target && product && targetAgain && productAgain
    }
  }

  /** How a rollback goes, should there be one: what it can read, and whether its steps all work. */
  datatype Rollback = Rollback(sight: Sight, calm: bool)

  /** The rollback does not see that the bundle is patched, but does see that product.json is. */
  predicate BlindlyPutBack(sight: Sight, a: Image, m: Metadata) {
    && !sight.target && sight.product
    && a.BundlePatched(m) && a.AssetIs(Product, m.productPatched)
  }

  /** b is what an undisturbed rollback makes of a: an asset is the original one afterwards if it
      was before or could be read, and is untouched if it could not; journal and backups go exactly
      if both originals can be seen to be back. */
  ghost predicate RolledBack(sight: Sight, a: Image, b: Image, m: Metadata) {
    && (b.AssetIs(Target, m.original) <==> sight.target || a.AssetIs(Target, m.original))
    && (b.AssetIs(Product, m.productOriginal) <==> sight.product || a.AssetIs(Product, m.productOriginal))
    && (!sight.target ==> b.target == a.target)
    && (!sight.product ==> b.product == a.product)
    && (if b.Original(m) && sight.targetAgain && sight.productAgain then b.Unmanaged()
        else b.journal == a.journal && b.managed == a.managed)
  }

  /** So with every read working the backed-up assets are back and nothing managed is left. */
  lemma SightedRollbackRestores(sight: Sight, a: Image, b: Image, m: Metadata)
    requires a.Backed(m) && RolledBack(sight, a, b, m) && sight.All()
    ensures b == Image(Some(a.managed[Backup]), Some(a.managed[ProductBackup]), Missing, map[])
  {
  }

  lemma AllManagedFiles(files: set<ManagedFile>)
    requires files == {Backup, Patched, ProductBackup, ProductPatched}
    ensures forall f: ManagedFile :: f in files
  {
    forall f: ManagedFile
      ensures f in files
    {
      assert f.Backup? || f.Patched? || f.ProductBackup? || f.ProductPatched?;
    }
  }

  /** What a first enable that returns says. */
  ghost function UnmanagedStatus(ext: Extension, a: Image): Status {
    if a.target.None? || a.product.None? then Unavailable
    else if CanPatch(ext, a.target.value, a.product.value) then PatchedNow
    else if ext.inspect(a.target.value).Compatible? then Conflict
    else UnsupportedSource
  }

  class Installation {
    const root: string
    var disk: Image
    ghost var run: Run
    ghost var base: Run  // where the outside world last left off

    ghost predicate Valid()
      reads this
    {
      DisciplinedRun(root, run) && OwnSteps(base, run) && run.disk == disk
    }

    constructor (root: string, disk: Image)
      ensures Valid() && this.root == root && this.disk == disk && base == Start(disk)
    {
      this.root, this.disk := root, disk;
      this.run, this.base := Start(disk), Start(disk);
    }

    /** Anything else may rewrite the disk between calls. */
    method OutsideWrite(next: Image)
      requires Valid()
      modifies this
      ensures Valid() && disk == next && run == Outside(old(run), next) && base == run
    {
      run := Outside(run, next);
      base, disk := run, next;
    }

    /** One atomic write, rename or removal.  Unless calm, the process may die or the call
        may throw, with or without the step having taken effect. */
    method Commit(next: Image, calm: bool) returns (fate: Fate)
      requires Valid() && (Disciplined(root, disk, next) || PutsBackBlindly(root, disk, next))
      modifies this
      ensures Valid() && base == old(base)
      ensures Sighted(base, old(run)) ==> (Sighted(base, run) <==> !PutsBackBlindly(root, old(disk), disk))
      ensures disk == next || disk == old(disk)
      ensures fate.Alive? ==> disk == next
      ensures calm ==> fate.Alive?
    {
      var applies: bool := *;
      fate := *;
      if calm || fate.Alive? {
        fate, applies := Alive, true;
      }
      BaseIsNoLonger(base, run);
      if applies {
        run := if PutsBackBlindly(root, disk, next) then Blind(run, next) else Own(run, next);
        disk := next;
      }
    }

    /** The source file has the replacement's digest and the asset the expected one. */
    predicate ReplacementAllowed(asset: Asset, expected: Digest, replacement: Digest, source: ManagedFile)
      reads this
    {
      disk.Holds(source, replacement) && disk.AssetIs(asset, expected)
    }

    method ReplaceAndVerify(asset: Asset, expected: Digest, replacement: Digest, source: ManagedFile, calm: bool)
      returns (fate: Fate)
      requires Valid()
      requires ReplacementAllowed(asset, expected, replacement, source) ==>
                 || Disciplined(root, disk, disk.Put(asset, disk.managed[source]))
                 || PutsBackBlindly(root, disk, disk.Put(asset, disk.managed[source]))
      modifies this
      ensures Valid() && base == old(base)
      ensures Sighted(base, old(run)) ==> (Sighted(base, run) <==> !PutsBackBlindly(root, old(disk), disk))
      ensures disk == old(disk)
              || (old(ReplacementAllowed(asset, expected, replacement, source))
                  && disk == old(disk.Put(asset, disk.managed[source])))
      ensures fate.Alive? ==> old(ReplacementAllowed(asset, expected, replacement, source))
                              && disk == old(disk.Put(asset, disk.managed[source]))
      ensures calm && old(ReplacementAllowed(asset, expected, replacement, source)) ==> fate.Alive?
    {
      var readFails: bool := *;
      if !calm && readFails {
        return Failed;
      }
      if !disk.Holds(source, replacement) || !disk.AssetIs(asset, expected) {
        return Failed;
      }
      fate := Commit(disk.Put(asset, disk.managed[source]), calm);
      if fate.Alive? && !disk.AssetIs(asset, replacement) {
        fate := Failed;
      }
    }

    /** The journal and the four files beside it are removed in no particular order; when one
        removal fails the others go on. */
    method ClearManagedState(calm: bool) returns (fate: Fate)
      requires Valid()
      requires disk.journal.Missing?
               || (disk.journal.Stored? && (disk.Original(disk.journal.m) || disk.Superseded(disk.journal.m)))
      modifies this
      ensures Valid() && base == old(base)
      ensures Sighted(base, old(run)) ==> Sighted(base, run)
      ensures disk.SameAssets(old(disk))
      ensures fate.Alive? ==> disk.Unmanaged()
      ensures calm ==> fate.Alive?
    {
      fate := Alive;
      var journalLeft := true;
      var left := {Backup, Patched, ProductBackup, ProductPatched};
      AllManagedFiles(left);
      while journalLeft || left != {}
        invariant Valid() && base == old(base)
        invariant Sighted(base, old(run)) ==> Sighted(base, run)
        invariant disk.SameAssets(old(disk))
        invariant disk.journal == old(disk.journal) || disk.journal.Missing?
        invariant fate.Alive? && !journalLeft ==> disk.journal.Missing?
        invariant fate.Alive? ==> disk.managed.Keys <= left
        invariant !fate.Died? && (calm ==> fate.Alive?)
        decreases (if journalLeft then 1 else 0) + |left|
      {
        var journalNext: bool := *;
        var one: Fate;
        if journalLeft && (journalNext || left == {}) {
          one := Commit(disk.(journal := Missing), calm);
          journalLeft := false;
        } else {
          var f :| f in left;
          one := Commit(disk.(managed := disk.managed - {f}), calm);
          left := left - {f};
        }
        if one.Died? {
          return Died;
        }
        if one.Failed? {
          fate := Failed;
        }
      }
    }

    /** The four backup and staged files are written in no particular order; when one write
        fails the others go on. */
    method WriteManagedFiles(files: map<ManagedFile, Bytes>, calm: bool) returns (fate: Fate)
      requires Valid() && disk.journal.Missing?
      modifies this
      ensures Valid() && base == old(base)
      ensures Sighted(base, old(run)) ==> Sighted(base, run)
      ensures disk.SameAssets(old(disk)) && disk.journal.Missing?
      ensures fate.Alive? ==> forall f | f in files :: f in disk.managed && disk.managed[f] == files[f]
      ensures calm ==> fate.Alive?
    {
      fate := Alive;
      var left := files.Keys;
      while left != {}
        invariant Valid() && base == old(base)
        invariant Sighted(base, old(run)) ==> Sighted(base, run)
        invariant disk.SameAssets(old(disk)) && disk.journal.Missing?
        invariant left <= files.Keys
        invariant fate.Alive? ==>
                    forall f | f in files && f !in left :: f in disk.managed && disk.managed[f] == files[f]
        invariant !fate.Died? && (calm ==> fate.Alive?)
        decreases |left|
      {
        var f :| f in left;
        var next := disk.(managed := disk.managed[f := files[f]]);
        assert f in next.managed && next == disk.(managed := disk.managed[f := next.managed[f]]);
        var one := Commit(next, calm);
        if one.Died? {
          return Died;
        }
        if one.Failed? {
          fate := Failed;
        }
        left := left - {f};
      }
    }

    // The four asset replacements.  Each needs the journal and both backups in place.

    ghost predicate Managing()
      reads this
    {
      disk.journal.Stored? && disk.journal.m.appRoot == root && disk.Backed(disk.journal.m)
    }

    method PatchProduct(calm: bool) returns (fate: Fate)
      requires Valid() && Managing() && disk.Staged(disk.journal.m)
      requires disk.AssetIs(Target, disk.journal.m.original) || disk.AssetIs(Target, disk.journal.m.patched)
      requires disk.AssetIs(Product, disk.journal.m.productOriginal)
      modifies this
      ensures Valid() && base == old(base)
      ensures Sighted(base, old(run)) ==> Sighted(base, run)
      ensures disk == old(disk).(product := disk.product)
      ensures disk.product == old(disk.product) || disk.AssetIs(Product, disk.journal.m.productPatched)
      ensures fate.Alive? ==> disk.AssetIs(Product, disk.journal.m.productPatched)
      ensures calm ==> fate.Alive?
    {
      var m := disk.journal.m;
      fate := ReplaceAndVerify(Product, m.productOriginal, m.productPatched, ProductPatched, calm);
    }

    method PatchTarget(calm: bool) returns (fate: Fate)
      requires Valid() && Managing() && disk.Staged(disk.journal.m)
      requires disk.AssetIs(Target, disk.journal.m.original)
      requires disk.AssetIs(Product, disk.journal.m.productPatched)
      modifies this
      ensures Valid() && base == old(base)
      ensures Sighted(base, old(run)) ==> Sighted(base, run)
      ensures disk == old(disk).(target := disk.target)
      ensures disk.target == old(disk.target) || disk.AssetIs(Target, disk.journal.m.patched)
      ensures fate.Alive? ==> disk.AssetIs(Target, disk.journal.m.patched)
      ensures calm ==> fate.Alive?
    {
      var m := disk.journal.m;
      fate := ReplaceAndVerify(Target, m.original, m.patched, Patched, calm);
    }

    method RestoreTarget(calm: bool) returns (fate: Fate)
      requires Valid() && Managing()
      requires disk.AssetIs(Target, disk.journal.m.patched)
      modifies this
      ensures Valid() && base == old(base)
      ensures Sighted(base, old(run)) ==> Sighted(base, run)
      ensures disk == old(disk).(target := disk.target)
      ensures disk.target == old(disk.target) || disk.AssetIs(Target, disk.journal.m.original)
      ensures fate.Alive? ==> disk.AssetIs(Target, disk.journal.m.original)
      ensures calm ==> fate.Alive?
    {
      var m := disk.journal.m;
      fate := ReplaceAndVerify(Target, m.patched, m.original, Backup, calm);
    }

    /** Under a bundle that is still patched this is the blind step. */
    method RestoreProduct(calm: bool) returns (fate: Fate)
      requires Valid() && Managing()
      requires disk.AssetIs(Target, disk.journal.m.original) || disk.AssetIs(Target, disk.journal.m.patched)
      requires disk.AssetIs(Product, disk.journal.m.productPatched)
      modifies this
      ensures Valid() && base == old(base)
      ensures Sighted(base, old(run)) ==> (Sighted(base, run) <==> !PutsBackBlindly(root, old(disk), disk))
      ensures disk == old(disk).(product := disk.product)
      ensures disk.product == old(disk.product) || disk.AssetIs(Product, disk.journal.m.productOriginal)
      ensures fate.Alive? ==> disk.AssetIs(Product, disk.journal.m.productOriginal)
      ensures calm ==> fate.Alive?
    {
      var m := disk.journal.m;
      fate := ReplaceAndVerify(Product, m.productPatched, m.productOriginal, ProductBackup, calm);
    }

    method RestoreLocked(ext: Extension, calm: bool) returns (outcome: Outcome)
      requires Valid()
      modifies this
      ensures Valid() && base == old(base)
      ensures Sighted(base, old(run)) ==> Sighted(base, run)
      ensures Refused(outcome) ==> disk == old(disk)
      ensures outcome.Returned? ==> outcome.status in {Conflict, NothingToRestore, RestoredNow, AlreadyRestored}
      ensures outcome.Returned? ==>
                && (outcome.status.NothingToRestore? <==> old(disk.journal.Missing?))
                && (!Refused(outcome) <==> Restorable(ext, root, old(disk)))
      ensures outcome.Returned? && !Refused(outcome) ==>
                && disk.Unmanaged() && old(disk.journal.Stored?)
                && ((disk.Original(old(disk.journal.m)) && !old(disk.Superseded(disk.journal.m)))
                    || (outcome.status.AlreadyRestored? && disk.SameAssets(old(disk)) && Upgraded(ext, old(disk))))
      ensures outcome == Returned(AlreadyRestored) ==> disk.SameAssets(old(disk))
      ensures outcome.Returned? && !Refused(outcome) ==>
                (outcome.status.AlreadyRestored?
                 <==> old(disk).Original(old(disk.journal.m)) || Upgraded(ext, old(disk)))
      ensures old(disk.journal.Stored? && !disk.Backed(disk.journal.m)) ==> disk == old(disk)
      ensures forall t0, p0 | Undoable(root, t0, p0, old(disk)) && outcome.Returned? ::
                && disk.target == Some(t0) && disk.product == Some(p0)
                && (outcome.status.Conflict? ==> disk.SameAssets(old(disk)))
      ensures calm && old(disk.target.Some? && disk.product.Some?) ==> outcome.Returned?
    {
      var readFails: bool := *;
      if !calm && readFails {
        return Threw;
      }
      if disk.journal.Malformed? {
        return Returned(Conflict);
      }
      if disk.journal.Missing? {
        return Returned(NothingToRestore);
      }
      var m := disk.journal.m;
      if m.appRoot != root {
        return Returned(Conflict);
      }
      if !disk.Backed(m) {
        return Returned(Conflict);
      }
      if disk.target.None? || disk.product.None? {
        return Threw;
      }
      var current, currentProduct := disk.target.value, disk.product.value;
      var originalProduct := disk.managed[ProductBackup];
      UpgradeExactly(ext, disk);
      hide SafeUpgrade, FreshPatchable;
      if disk.Original(m) {
        var fate := ClearManagedState(calm);
        return if fate.Alive? then Returned(AlreadyRestored) else Ended(fate);
      }
      if SafeUpgrade(ext, m, originalProduct, current, currentProduct) {
        var fate := ClearManagedState(calm);
        return if fate.Alive? then Returned(AlreadyRestored) else Ended(fate);
      }
      if Sha256(current) !in {m.original, m.patched}
         || Sha256(currentProduct) !in {m.productOriginal, m.productPatched} {
        return Returned(Conflict);
      }
      var fate := Alive;
      if Sha256(current) == m.patched {
        fate := RestoreTarget(calm);
        if !fate.Alive? {
          return Ended(fate);
        }
      }
      if Sha256(currentProduct) == m.productPatched {
        fate := RestoreProduct(calm);
        if !fate.Alive? {
          return Ended(fate);
        }
      }
      fate := ClearManagedState(calm);
      return if fate.Alive? then Returned(RestoredNow) else Ended(fate);
    }

    /** enable with a journal whose four files are intact and whose patch is the current one. */
    method Reapply(calm: bool) returns (outcome: Outcome)
      requires Valid() && Managing() && disk.Staged(disk.journal.m)
      requires disk.target.Some? && disk.product.Some?
      modifies this
      ensures Valid() && base == old(base)
      ensures Sighted(base, old(run)) ==> Sighted(base, run)
      ensures disk.journal == old(disk.journal) && disk.managed == old(disk.managed)
      ensures outcome.Returned? ==> outcome.status in {Conflict, AlreadyPatched, PatchedNow}
      ensures outcome.Returned? && !outcome.status.PatchedNow? ==> disk == old(disk)
      ensures outcome.Returned? ==>
                && (outcome.status.Conflict? <==> !old(disk).Recorded(disk.journal.m))
                && (outcome.status.AlreadyPatched? <==> old(disk).PatchApplied(disk.journal.m))
      ensures outcome.Returned? && !Refused(outcome) ==> disk.PatchApplied(disk.journal.m)
      ensures calm ==> outcome.Returned?
    {
      var m := disk.journal.m;
      var current, currentProduct := Sha256(disk.target.value), Sha256(disk.product.value);
      if current == m.patched && currentProduct == m.productPatched {
        return Returned(AlreadyPatched);
      }
      if current !in {m.original, m.patched} || currentProduct !in {m.productOriginal, m.productPatched} {
        return Returned(Conflict);
      }
      var fate := Alive;
      if currentProduct == m.productOriginal {
        fate := PatchProduct(calm);
        if !fate.Alive? {
          return Ended(fate);
        }
      }
      if current == m.original {
        fate := PatchTarget(calm);
        if !fate.Alive? {
          return Ended(fate);
        }
      }
      return Returned(PatchedNow);
    }

    /** The patch of a fresh installation failed half-way: undo what can be seen to be patched,
        and drop the journal only once both assets are seen to be the originals again.  The bundle
        is left alone exactly if it is patched, cannot be read, and product.json is put back. */
    method RollBack(sight: Sight, calm: bool) returns (outcome: Outcome)
      requires Valid() && Managing()
      requires disk.Recorded(disk.journal.m) && !disk.BundleAlone(disk.journal.m)
      modifies this
      ensures Valid() && base == old(base)
      ensures !outcome.Returned? && (calm ==> outcome == Threw)
      ensures disk.Recorded(old(disk.journal.m)) && old(disk.journal.Stored?)
      ensures disk.journal == old(disk.journal) || disk.Original(old(disk.journal.m))
      ensures disk.BundleAlone(old(disk.journal.m)) <==>
                && BlindlyPutBack(sight, old(disk), old(disk.journal.m))
                && disk.AssetIs(Product, old(disk.journal.m.productOriginal))
                && !disk.AssetIs(Product, old(disk.journal.m.productPatched))
      ensures disk.BundleAlone(old(disk.journal.m)) ==> Managing() && disk.journal == old(disk.journal)
      ensures Sighted(base, old(run)) ==> (Sighted(base, run) <==> !disk.BundleAlone(old(disk.journal.m)))
      ensures calm ==> RolledBack(sight, old(disk), disk, old(disk.journal.m))
    {
      var m := disk.journal.m;
      var targetWasPatched := sight.target && disk.AssetIs(Target, m.patched);
      var productWasPatched := sight.product && disk.AssetIs(Product, m.productPatched);
      var fate := Alive;
      if targetWasPatched {
        fate := RestoreTarget(calm);
        if !fate.Alive? {
          return Ended(fate);
        }
      }
      if productWasPatched {
        fate := RestoreProduct(calm);
        if !fate.Alive? {
          return Ended(fate);
        }
      }
      if sight.targetAgain && sight.productAgain && disk.Original(m) {
        fate := ClearManagedState(calm);
        if !fate.Alive? {
          return Ended(fate);
        }
      }
      return Threw;
    }

    /** The part of a first enable that comes before any asset is touched. */
    method Prepare(patched: Bytes, patchedProduct: Bytes, calm: bool) returns (fate: Fate)
      requires Valid() && disk.journal.Missing? && disk.target.Some? && disk.product.Some?
      modifies this
      ensures Valid() && base == old(base)
      ensures Sighted(base, old(run)) ==> Sighted(base, run)
      ensures disk.SameAssets(old(disk))
      ensures fate.Alive? ==>
                && Managing() && disk.Staged(disk.journal.m)
                && disk.journal.m == Metadata(root, Sha256(disk.target.value), Sha256(patched),
                                              Sha256(disk.product.value), Sha256(patchedProduct))
                && disk.Original(disk.journal.m)
      ensures calm ==> fate.Alive?
    {
      var source, productSource := disk.target.value, disk.product.value;
      var m := Metadata(root, Sha256(source), Sha256(patched), Sha256(productSource), Sha256(patchedProduct));
      fate := WriteManagedFiles(
        map[Backup := source, Patched := patched, ProductBackup := productSource, ProductPatched := patchedProduct],
        calm);
      if fate.Alive? {
        fate := Commit(disk.(journal := Stored(m)), calm);
      }
    }

    /** product.json first, then the bundle. */
    method PatchBoth(calm: bool) returns (fate: Fate)
      requires Valid() && Managing() && disk.Staged(disk.journal.m) && disk.Original(disk.journal.m)
      modifies this
      ensures Valid() && base == old(base)
      ensures Sighted(base, old(run)) ==> Sighted(base, run)
      ensures disk.journal == old(disk.journal) && disk.managed == old(disk.managed)
      ensures disk.Recorded(disk.journal.m) && !disk.BundleAlone(disk.journal.m)
      ensures fate.Alive? ==> disk.PatchApplied(disk.journal.m)
      ensures calm ==> fate.Alive?
    {
      fate := PatchProduct(calm);
      if fate.Alive? {
        fate := PatchTarget(calm);
      }
    }

    /** enable without a journal.  rolledBack: the replacement of the assets failed and was undone
        as far as rollback lets it. */
    method EnableUnmanaged(ext: Extension, calm: bool, rollback: Rollback)
      returns (outcome: Outcome, rolledBack: bool)
      requires Valid() && disk.journal.Missing?
      modifies this
      ensures Valid() && base == old(base)
      ensures outcome.Returned? && Sighted(base, old(run)) ==> Sighted(base, run)
      ensures outcome.Returned? ==> outcome.status == UnmanagedStatus(ext, old(disk))
      ensures Refused(outcome) ==> disk == old(disk)
      ensures outcome == Returned(PatchedNow) ==>
                && Carries(ext, root, disk)
                && disk.journal.m.original == Sha256(old(disk.target.value))
                && disk.journal.m.productOriginal == Sha256(old(disk.product.value))
      ensures rolledBack ==> !outcome.Returned?
      ensures rolledBack && rollback.calm && rollback.sight.All() ==>
                outcome.Threw? && disk.Unmanaged() && disk.SameAssets(old(disk))
      ensures outcome.Threw? && !rolledBack ==> disk.SameAssets(old(disk))
      ensures calm ==> outcome.Returned?
    {
      rolledBack := false;
      if disk.target.None? || disk.product.None? {
        return Returned(Unavailable), false;
      }
      var inspected := InspectUnmanaged(ext, disk.target.value, disk.product.value);
      InspectExactly(ext, disk.target.value, disk.product.value);
      hide InspectUnmanaged;
      if inspected.Err? {
        return Returned(inspected.error), false;
      }
      var (patched, patchedProduct) := inspected.value;
      var fate := Prepare(patched, patchedProduct, calm);
      if !fate.Alive? {
        return Ended(fate), false;
      }
      ghost var managing := disk;
      fate := PatchBoth(calm);
      match fate
      case Alive => return Returned(PatchedNow), false;
      case Died => return Crashed, false;
      case Failed =>
        ghost var failed := disk;
        outcome := RollBack(rollback.sight, rollback.calm);
        if rollback.calm && rollback.sight.All() {
          SightedRollbackRestores(rollback.sight, failed, disk, managing.journal.m);
        }
        rolledBack := true;
    }

    method EnableLocked(ext: Extension, calm: bool, rollback: Rollback)
      returns (outcome: Outcome, rolledBack: bool)
      requires Valid()
      modifies this
      ensures Valid() && base == old(base)
      ensures outcome.Returned? && Sighted(base, old(run)) ==> Sighted(base, run)
      ensures old(disk.journal.Stored? && !disk.Backed(disk.journal.m)) ==> disk == old(disk)
      ensures Refused(outcome) ==> disk.SameAssets(old(disk))
      ensures outcome.Returned? ==> (!Refused(outcome) <==> Enableable(ext, root, old(disk)))
      ensures outcome.Returned? ==> (outcome.status.AlreadyPatched? <==> Carries(ext, root, old(disk)))
      ensures outcome == Returned(AlreadyPatched) ==> disk == old(disk)
      ensures outcome.Returned? && Refused(outcome) ==>
                outcome.status == if old(disk.journal.Missing?) then UnmanagedStatus(ext, old(disk)) else Conflict
      ensures outcome.Returned? && !Refused(outcome) ==>
                && outcome.status in {AlreadyPatched, PatchedNow}
                && Carries(ext, root, disk)
                && (if old(disk.journal.Stored? && !disk.Superseded(disk.journal.m))
                    then disk.journal.m.original == old(disk.journal.m.original)
                         && disk.journal.m.productOriginal == old(disk.journal.m.productOriginal)
                    else old(disk.target.Some? && disk.product.Some?)
                         && disk.journal.m.original == Sha256(old(disk.target.value))
                         && disk.journal.m.productOriginal == Sha256(old(disk.product.value)))
      ensures rolledBack && rollback.calm && rollback.sight.All() ==>
                && outcome.Threw? && disk.Unmanaged()
                && (old(disk.journal.Missing?) ==> disk.SameAssets(old(disk)))
                && forall t0, p0 | Undoable(root, t0, p0, old(disk)) ::
                     disk.target == Some(t0) && disk.product == Some(p0)
      ensures calm && old(disk.target.Some? && disk.product.Some?) ==> outcome.Returned?
      decreases if disk.journal.Stored? then 1 else 0
    {
      rolledBack := false;
      var readFails: bool := *;
      if !calm && readFails {
        return Threw, false;
      }
      if disk.journal.Malformed? {
        return Returned(Conflict), false;
      }
      if disk.journal.Missing? {
        outcome, rolledBack := EnableUnmanaged(ext, calm, rollback);
        return;
      }
      var m := disk.journal.m;
      if m.appRoot != root {
        return Returned(Conflict), false;
      }
      if disk.target.None? || disk.product.None? {
        return Threw, false;
      }
      if !disk.Backed(m) || !disk.Staged(m) {
        return Returned(Conflict), false;
      }
      var original, originalProduct := disk.managed[Backup], disk.managed[ProductBackup];
      UpgradeExactly(ext, disk);
      if SafeUpgrade(ext, m, originalProduct, disk.target.value, disk.product.value) {
        var fate := ClearManagedState(calm);
        if !fate.Alive? {
          return Ended(fate), false;
        }
        outcome, rolledBack := EnableLocked(ext, calm, rollback);
        return;
      }
      hide SafeUpgrade;
      var desired := ext.inspect(original);
      if !desired.Patchable? {
        return Returned(Conflict), false;
      }
      var desiredProduct := ext.patchProduct(originalProduct, original, desired.patchedSource);
      if desiredProduct.None? {
        return Returned(Conflict), false;
      }
      assert Makes(ext, original, originalProduct, desired.patchedSource, desiredProduct.value);
      if Sha256(desired.patchedSource) != m.patched || Sha256(desiredProduct.value) != m.productPatched {
        var restored := RestoreLocked(ext, calm);
        if restored.Returned? && restored.status in {RestoredNow, AlreadyRestored} {
          outcome, rolledBack := EnableLocked(ext, calm, rollback);
        } else {
          outcome := restored;
        }
        return;
      }
      outcome := Reapply(calm);
    }
  }

  datatype Call = Enable(ext: Extension) | Restore(ext: Extension)

  /** Any sequence of calls, each possibly cut off or failing at any step or read, on an
      installation that starts unmanaged (or anywhere a previous such sequence left it): every
      state on the way can be undone, and is recoverable but for a bundle left alone. */
  method AnyCalls(installation: Installation, calls: seq<Call>, ghost t0: Bytes, ghost p0: Bytes)
    requires installation.Valid()
    requires Recoverable(installation.root, t0, p0, installation.base.disk)
    modifies installation
    ensures installation.Valid() && installation.base == old(installation.base)
    ensures forall point | Passed(point, installation.run) && OwnSteps(installation.base, point) ::
              && Undoable(installation.root, t0, p0, point.disk)
              && (Recoverable(installation.root, t0, p0, point.disk)
                  <==> !(point.disk.journal.Stored? && point.disk.BundleAlone(point.disk.journal.m)))
              && (Sighted(installation.base, point) ==> Recoverable(installation.root, t0, p0, point.disk))
    ensures Undoable(installation.root, t0, p0, installation.disk)
  {
    for c := 0 to |calls|
      invariant installation.Valid() && installation.base == old(installation.base)
    {
      var outcome: Outcome;
      match calls[c] {
        case Enable(ext) =>
          var rollback: Rollback, rolledBack: bool := *, *;
          outcome, rolledBack := installation.EnableLocked(ext, false, rollback);
        case Restore(ext) => outcome := installation.RestoreLocked(ext, false);
      }
    }
    forall point | Passed(point, installation.run) && OwnSteps(installation.base, point)
      ensures Undoable(installation.root, t0, p0, point.disk)
      ensures Recoverable(installation.root, t0, p0, point.disk)
              <==> !(point.disk.journal.Stored? && point.disk.BundleAlone(point.disk.journal.m))
      ensures Sighted(installation.base, point) ==> Recoverable(installation.root, t0, p0, point.disk)
    {
      EveryStateOfARunIsRecoverable(
        installation.root, t0, p0, installation.base, installation.run, point);
    }
  }

  // ---------------------------------------------------------------- the bundle left alone

  /** The run that takes recoverability away.  Both replacements of a first enable go through, but
      the call fails all the same (say, in its last verification read); the rollback cannot read
      the bundle and can read product.json.  The disk is left with the patched bundle over the
      original product.json, and a later restore, by any version, still returns the originals. */
  method BlindRollbackThenRestore(
    installation: Installation, ext: Extension, later: Extension, patched: Bytes, patchedProduct: Bytes)
    returns (left: Image)
    requires installation.Valid() && installation.disk.journal.Missing?
    requires installation.disk.target.Some? && installation.disk.product.Some?
    requires Makes(ext, installation.disk.target.value, installation.disk.product.value, patched, patchedProduct)
    requires patched != installation.disk.target.value && patchedProduct != installation.disk.product.value
    modifies installation
    ensures installation.Valid() && installation.base == old(installation.base)
    ensures left.target == Some(patched) && left.product == old(installation.disk.product)
    ensures
      var t0, p0 := old(installation.disk.target.value), old(installation.disk.product.value);
      && !Recoverable(installation.root, t0, p0, left) && Undoable(installation.root, t0, p0, left)
      && Restorable(later, installation.root, left)
      && installation.disk.target == Some(t0) && installation.disk.product == Some(p0)
    ensures installation.disk.Unmanaged()
  {
    var fate := installation.Prepare(patched, patchedProduct, true);
    fate := installation.PatchBoth(true);
    var outcome := installation.RollBack(Sight(false, true, true, true), true);
    left := installation.disk;
    outcome := installation.RestoreLocked(later, true);
  }

  // ---------------------------------------------------------------- clearing cut short

  /** Clearing is cut short at b, with the journal still there.  If both backups are there too, the
      version that was clearing can go on; if one is gone, no version can restore or enable. */
  lemma ClearingCutShort(ext: Extension, later: Extension, root: string, a: Image, b: Image)
    requires a.journal.Stored? && a.journal.m.appRoot == root && a.Backed(a.journal.m)
    requires a.Original(a.journal.m) || Upgraded(ext, a)
    requires DropsState(a, b) && b.journal == a.journal
    ensures Backup in b.managed && ProductBackup in b.managed ==> Restorable(ext, root, b)
    ensures Backup !in b.managed || ProductBackup !in b.managed ==>
              !Restorable(later, root, b) && !Enableable(later, root, b)
  {
  }

  /** Such a point is one step away: removing the backup before the journal is allowed. */
  lemma ClearingMayStartWithABackup(root: string, a: Image)
    requires a.journal.Stored? && a.Original(a.journal.m) && Backup in a.managed
    ensures Disciplined(root, a, a.(managed := a.managed - {Backup}))
  {
  }

  /** From there on every call is refused or throws, and nothing on the disk changes any more. */
  method RefusedForEver(installation: Installation, calls: seq<Call>) returns (outcomes: seq<Outcome>)
    requires installation.Valid() && installation.disk.journal.Stored?
    requires !installation.disk.Backed(installation.disk.journal.m)
    modifies installation
    ensures installation.Valid() && installation.disk == old(installation.disk)
    ensures |outcomes| == |calls| && forall o | o in outcomes :: o.Returned? ==> Refused(o)
  {
    outcomes := [];
    for c := 0 to |calls|
      invariant installation.Valid() && installation.disk == old(installation.disk)
      invariant |outcomes| == c && forall o | o in outcomes :: o.Returned? ==> Refused(o)
    {
      var outcome: Outcome;
      match calls[c] {
        case Enable(ext) =>
          var rollback: Rollback, rolledBack: bool := *, *;
          outcome, rolledBack := installation.EnableLocked(ext, false, rollback);
        case Restore(ext) => outcome := installation.RestoreLocked(ext, false);
      }
      outcomes := outcomes + [outcome];
    }
  }
}
