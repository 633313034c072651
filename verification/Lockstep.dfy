/**
 `canonical.bin` follows the canonical rows slot by slot (src/canonical/mmap.rs, src/store.rs): through whole runs a
 writable mapping reads, at and above the floor, as the rows do, zero hashes aside. Only the truncations of rollback and
 reorg can break this, and exactly when rows above the tip lose their slots.
 */
module Lockstep {
  import opened ChainTypes
  import opened DenseFile
  import opened CanonicalBin
  import opened StoreModel
  import opened Coherence
  import opened Runs

  /** What a slot should read for a row. */
  function Slot(row: Option<Hash>): (r: Option<Hash>) { if row.Some? then Nonzero(row.value) else None }

  ghost predicate ReadsAs(bin: Bin, rows: Rows, floor: Height) {
    bin.Rw? ==> forall h: Height | floor <= h :: ReadBin(bin, h) == Slot(Row(rows, h))
  }

  /** A writable mapping and the rows agree, in both directions. */
  ghost predicate InStep(s: Store) { ReadsAs(s.bin, s.db.canonical, s.floor) }

  /** A row that a slot can show: its hash is not all zeros. */
  predicate Shows(rows: Rows, h: Height) { h in rows && rows[h] != ZERO }

  lemma OpenInStep(db: Db, onDisk: Option<seq<Byte>>, writable: bool, capacity: nat)
    ensures InStep(Open(db, onDisk, writable, capacity))
  {
    forall h: Height | Open(db, onDisk, writable, capacity).bin.Rw?
      ensures ReadBin(OpenSynced(db.canonical, onDisk, writable), h) == Slot(Row(db.canonical, h))
    {
      RecoversFromAnyFile(db.canonical, onDisk, writable, h);
    }
  }

  lemma OneWriteInStep(bin: Bin, rows: Rows, floor: Height, h: Height, x: Hash)
    requires Mappable(bin) && ReadsAs(bin, rows, floor)
    ensures ReadsAs(ExtendWrite(bin, h, x), rows[h := x], floor)
  {
    ExtendWriteReads(bin, h, x);
  }

  lemma WritesInStep(bin: Bin, rows: Rows, floor: Height, written: seq<(Height, Hash)>)
    requires Mappable(bin) && ReadsAs(bin, rows, floor)
    ensures ReadsAs(WriteAll(bin, written), rows + RowMap(written), floor)
  {
    hide WriteAll, RowMap;
    WriteAllReads(bin, written);
  }

  lemma SingleInStep(s: Store, a: Action)
    requires Mappable(s.bin) && InStep(s)
    requires a.DoPut? || a.DoGenesis? || a.DoSetTip? || a.DoAttest? || a.DoSetCanonical? || a.DoExtend? || a.DoDisableBin?
    ensures InStep(Perform(s, a))
  {
    hide Remember, ReadsAs, ExtendWrite;
    assert ReadsAs(Disabled, s.db.canonical, s.floor) by { NoMapping(s.db.canonical, s.floor); }
    match a
    case DoPut(b, _) => OneWriteInStep(s.bin, s.db.canonical, s.floor, b.Height(), b.hash);
    case DoExtend(b, _) => OneWriteInStep(s.bin, s.db.canonical, s.floor, b.Height(), b.hash);
    case DoGenesis(b) => OneWriteInStep(s.bin, s.db.canonical, s.floor, 0, b.hash);
    case DoSetCanonical(x) =>
      if x in s.db.headers { OneWriteInStep(s.bin, s.db.canonical, s.floor, s.db.headers[x].height, x); }
    case _ =>
  }

  lemma NoMapping(rows: Rows, floor: Height)
    ensures ReadsAs(Disabled, rows, floor)
  {
  }

  lemma BatchInStep(s: Store, hashes: seq<Hash>)
    requires Mappable(s.bin) && InStep(s)
    ensures InStep(SetCanonicalBatch(s, hashes).store)
  {
    hide WriteAll, ReadsAs, RowMap, FirstMissing;
    if FirstMissing(s.db, hashes).None? { WritesInStep(s.bin, s.db.canonical, s.floor, RowsFor(s.db, hashes)); }
  }

  lemma FlushInStep(s: Store, jobs: seq<Job>)
    requires Mappable(s.bin) && InStep(s)
    ensures InStep(Flush(s, jobs).0)
  {
    hide WriteAll, ReadsAs, RowMap, Staged, StoreJobs, JobRows;
    var staged := Staged(s.db, jobs);
    StoreJobsKeepsIndex(s.db, staged);
    WritesInStep(s.bin, s.db.canonical, s.floor, JobRows(staged));
  }

  lemma PruneInStep(s: Store, height: Height)
    requires Coherent(s) && InStep(s)
    ensures InStep(Prune(s, height).store)
  {
    hide CacheAgrees, BinAgrees, CollectUp, ForksBelow, ReadBin;
    if !s.readOnly && height > s.floor {
      CollectUpCoherent(s, s.floor, height);
      var rows := CollectUp(s, s.floor, height).1;
      forall h: Height | height <= h ensures Row(s.db.canonical - rows.Keys, h) == Row(s.db.canonical, h) {
        assert Row(rows, h) == None;
      }
    }
  }

  /** Cutting the file above a height keeps it in step exactly when no row that shows is left above. */
  lemma CutInStep(bin: Bin, rows: Rows, after: Rows, floor: Height, target: Height)
    requires Mappable(bin) && ReadsAs(bin, rows, floor) && floor <= target
    requires forall h: Height | h <= target :: Row(after, h) == Row(rows, h)
    ensures ReadsAs(TruncateTo(bin, target), after, floor) <==> (bin.Rw? ==> forall h: Height | target < h :: !Shows(after, h))
  {
    hide ReadBin, TruncateTo;
    TruncateReads(bin, target);
    if bin.Rw? {
      forall h: Height | floor <= h
        ensures ReadBin(TruncateTo(bin, target), h) == Slot(Row(after, h)) <==> h <= target || !Shows(after, h)
      {
        assert ReadBin(TruncateTo(bin, target), h) == if h <= target then ReadBin(bin, h) else None;
        if h <= target { assert Row(after, h) == Row(rows, h); }
      }
      assert TruncateTo(bin, target).Rw? by { CutStaysWritable(bin, target); }
    } else {
      assert !TruncateTo(bin, target).Rw?;
    }
  }

  lemma CutStaysWritable(bin: Bin, target: Height)
    requires bin.Rw?
    ensures TruncateTo(bin, target).Rw?
  {
  }

  /** A rollback keeps the file in step exactly when no row that shows lies above the tip. */
  lemma RollbackInStepExactly(s: Store, target: Height)
    requires Coherent(s) && InStep(s) && RollbackError(s, target).None? && target < s.tip.value.height
    ensures InStep(Rollback(s, target).store) <==>
            (s.bin.Rw? ==> forall h: Height | s.tip.value.height < h :: !Shows(s.db.canonical, h))
  {
    hide CacheAgrees, BinAgrees, CollectDown, ReadsAs, Resolve, ReadBin, TruncateTo, Range;
    var top := s.tip.value.height;
    var after := Rollback(s, target).store;
    var rows := s.db.canonical - Range(target + 1, top);
    CollectDownCoherent(s, target + 1, top);
    assert after.bin == TruncateTo(s.bin, target) && after.db.canonical == rows && after.floor == s.floor;
    CutInStep(s.bin, s.db.canonical, rows, s.floor, target);
    assert forall h: Height | target < h :: Shows(rows, h) <==> top < h && Shows(s.db.canonical, h);
  }

  /** A reorg does so exactly when no row that shows and that the fork does not rewrite lies above ancestor, tip and floor. */
  lemma ReorgInStepExactly(s: Store, ancestor: Height, hashes: seq<Hash>)
    requires Coherent(s) && InStep(s) && ReorgError(s, hashes).None?
    ensures InStep(Reorg(s, ancestor, hashes).store) <==>
            (s.bin.Rw? ==> forall h: Height | s.floor <= h && ancestor < h && s.tip.value.height < h ::
               Shows(s.db.canonical, h) ==> h in RowMap(RowsFor(s.db, hashes)))
  {
    hide CacheAgrees, BinAgrees, CollectDown, ReadsAs, ReadBin, TruncateTo, Range, WriteAll, RowMap, FirstMissing;
    var top := s.tip.value.height;
    var after, written := Reorg(s, ancestor, hashes).store, RowsFor(s.db, hashes);
    var kept, cut := s.db.canonical - Range(ancestor + 1, top), TruncateTo(s.bin, ancestor);
    assert after.bin == WriteAll(cut, written) && after.db.canonical == kept + RowMap(written) && after.floor == s.floor;
    TruncateReads(s.bin, ancestor);
    WrittenOverInStep(cut, kept, s.floor, written);
    CutReads(s, kept, ancestor);
    assert forall h: Height | ancestor < h :: Shows(kept, h) <==> top < h && Shows(s.db.canonical, h);
  }

  /** The slots a cut file shows are those up to the cut. */
  lemma CutReads(s: Store, kept: Rows, ancestor: Height)
    requires Mappable(s.bin) && InStep(s) && forall h: Height | h <= ancestor :: Row(kept, h) == Row(s.db.canonical, h)
    ensures TruncateTo(s.bin, ancestor).Rw? <==> s.bin.Rw?
    ensures s.bin.Rw? ==> forall h: Height | s.floor <= h ::
              (ReadBin(TruncateTo(s.bin, ancestor), h) == Slot(Row(kept, h)) <==> h <= ancestor || !Shows(kept, h))
  {
    hide ReadBin;
    TruncateReads(s.bin, ancestor);
    if s.bin.Rw? {
      forall h: Height | s.floor <= h
        ensures ReadBin(TruncateTo(s.bin, ancestor), h) == Slot(Row(kept, h)) <==> h <= ancestor || !Shows(kept, h)
      {
        assert ReadBin(TruncateTo(s.bin, ancestor), h) == if h <= ancestor then ReadBin(s.bin, h) else None;
        if h <= ancestor { assert Row(kept, h) == Row(s.db.canonical, h); }
      }
    }
  }

  /** Rows written into a file mend exactly their own slots. */
  lemma WrittenOverInStep(bin: Bin, rows: Rows, floor: Height, written: seq<(Height, Hash)>)
    requires Mappable(bin)
    ensures ReadsAs(WriteAll(bin, written), rows + RowMap(written), floor) <==>
            (bin.Rw? ==> forall h: Height | floor <= h && h !in RowMap(written) :: ReadBin(bin, h) == Slot(Row(rows, h)))
  {
    hide WriteAll, RowMap, ReadBin;
    WriteAllReads(bin, written);
    if bin.Rw? {
      var after := rows + RowMap(written);
      forall h: Height | floor <= h
        ensures ReadBin(WriteAll(bin, written), h) == Slot(Row(after, h)) <==>
                h in RowMap(written) || ReadBin(bin, h) == Slot(Row(rows, h))
      {
      }
    }
  }

  // ---------------------------------------------------------------- whole runs

  /** A rollback or reorg that would cut off rows above the tip does not happen. */
  ghost predicate CutsNothingOff(s: Store, op: Op) {
    match op
    case Do(DoRollback(target)) =>
      RollbackError(s, target).None? && target < s.tip.value.height ==>
        forall h: Height | s.tip.value.height < h :: !Shows(s.db.canonical, h)
    case Do(DoReorg(ancestor, hashes)) =>
      ReorgError(s, hashes).None? ==>
        forall h: Height | s.floor <= h && ancestor < h && s.tip.value.height < h ::
          Shows(s.db.canonical, h) ==> h in RowMap(RowsFor(s.db, hashes))
    case _ => true
  }

  ghost predicate NothingCutOff(s: Store, ops: seq<Op>) {
    ops == [] || (NothingCutOff(s, ops[..|ops| - 1]) && CutsNothingOff(Run(s, ops[..|ops| - 1]), ops[|ops| - 1]))
  }

  lemma ReadInStep(s: Store, a: Action)
    requires Coherent(s) && InStep(s) && (a.DoLookup? || a.DoPreview? || a.DoFindAncestor?)
    ensures InStep(Perform(s, a))
  {
    hide CacheAgrees, BinAgrees, ReadsAs, Resolve, CollectDown;
    match a
    case DoLookup(h) => LookedCoherent(s, h);
    case _ =>
  }

  lemma PerformInStep(s: Store, a: Action)
    requires Coherent(s) && InStep(s) && CutsNothingOff(s, Do(a))
    ensures InStep(Perform(s, a))
  {
    hide CacheAgrees, BinAgrees, InStep, SetCanonicalBatch, Rollback, Reorg, Prune, Flush, Put, Genesis, Extend, SetCanonical,
      Looked, BlocksToRevert, FindAncestor, RowMap;
    match a
    case DoSetCanonicalBatch(hashes) => BatchInStep(s, hashes);
    case DoFlush(jobs) => FlushInStep(s, jobs);
    case DoPrune(height) => PruneInStep(s, height);
    case DoRollback(target) => RollbackStaysInStep(s, target);
    case DoReorg(ancestor, hashes) => ReorgStaysInStep(s, ancestor, hashes);
    case DoLookup(_) => ReadInStep(s, a);
    case DoPreview(_) => ReadInStep(s, a);
    case DoFindAncestor(_, _) => ReadInStep(s, a);
    case _ => SingleInStep(s, a);
  }

  lemma RollbackStaysInStep(s: Store, target: Height)
    requires Coherent(s) && InStep(s) && CutsNothingOff(s, Do(DoRollback(target)))
    ensures InStep(Rollback(s, target).store)
  {
    hide CacheAgrees, BinAgrees, CollectDown, InStep, TipMoved, RowsCut;
    if RollbackError(s, target).None? && target < s.tip.value.height { RollbackInStepExactly(s, target); }
  }

  lemma ReorgStaysInStep(s: Store, ancestor: Height, hashes: seq<Hash>)
    requires Coherent(s) && InStep(s) && CutsNothingOff(s, Do(DoReorg(ancestor, hashes)))
    ensures InStep(Reorg(s, ancestor, hashes).store)
  {
    hide CacheAgrees, BinAgrees, CollectDown, InStep, RowMap, WriteAll, TruncateTo, Range;
    if ReorgError(s, hashes).None? { ReorgInStepExactly(s, ancestor, hashes); }
  }

  /**
   Over every admissible run from any database and any file, with crashes, reopens, pruning and flushes, in which no
   rollback or reorg cuts off rows above the tip: a writable `canonical.bin` reads at every height from the floor up as
   the canonical row there, zero hashes as gaps, and has no slot that reads without a row.
   */
  lemma {:induction false} SidecarStaysInStep(
    db: Db, onDisk: Option<seq<Byte>>, writable: bool, capacity: nat, ops: seq<Op>)
    requires capacity > 0 && AdmissibleRun(Open(db, onDisk, writable, capacity), ops)
    requires NothingCutOff(Open(db, onDisk, writable, capacity), ops)
    ensures InStep(Run(Open(db, onDisk, writable, capacity), ops))
  {
    hide Coherent, InStep, Perform, Admissible, CutsNothingOff, DurablePoints, OpenSynced;
    var s0 := Open(db, onDisk, writable, capacity);
    OpenCoherent(db, onDisk, writable, capacity);
    if ops == [] {
      OpenInStep(db, onDisk, writable, capacity);
    } else {
      var front := ops[..|ops| - 1];
      SidecarStaysInStep(db, onDisk, writable, capacity, front);
      RunCoherent(s0, front);
      var before := Run(s0, front);
      match ops[|ops| - 1]
      case Do(a) => PerformInStep(before, a);
      case Crash(a, point, file, w, c) =>
        OpenInStep(DurablePoints(before, a)[point % |DurablePoints(before, a)|], file, w, c);
      case Reopen(file, w, c) => OpenInStep(before.db, file, w, c);
    }
  }
}
