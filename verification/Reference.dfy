/**
 The index without its layers: one table of canonical rows, no height cache, no `canonical.bin`, no tip in memory. Every
 operation is told once more from the rows alone, refusals included, and the store is proved to behave like it: over
 whole runs, with crashes and reopens, it answers the same and leaves the same database (src/store.rs,
 src/canonical/index.rs, src/pipeline.rs).
 */
module Reference {
  import opened ChainTypes
  import opened CanonicalBin
  import opened StoreModel
  import opened Coherence
  import opened Runs
  import Ancestor
  import Pipeline

  datatype Reply =
    | Done
    | Refused(error: Error)
    | Inserted(novel: bool)
    | Reverted(hashes: seq<Hash>)
    | Reorged(reverted: seq<Hash>, applied: seq<Hash>, newTip: ChainTip)
    | Pruned(count: nat)
    | Acknowledged(answers: seq<Result<bool>>)
    | Located(hash: Option<Hash>)
    | Common(ancestor: Option<(Hash, Height)>)

  // ---------------------------------------------------------------- the plain table

  /** A database and whether it may be written. */
  datatype Table = Table(db: Db, readOnly: bool)

  function TableOf(s: Store): (r: Table) { Table(s.db, s.readOnly) }

  /** Body, header and, on request, the row of a block. */
  function Insert(db: Db, b: Block, canonical: bool): (r: Db) {
    db.(blocks := db.blocks[b.hash := b],
        headers := db.headers[b.hash := b.header],
        canonical := if canonical then db.canonical[b.header.height := b.hash] else db.canonical)
  }

  /** The first hash of the list that has no header. */
  ghost predicate FirstUnknown(db: Db, hashes: seq<Hash>, i: nat) {
    i < |hashes| && hashes[i] !in db.headers && forall j | 0 <= j < i :: hashes[j] in db.headers
  }

  ghost predicate AllKnown(db: Db, hashes: seq<Hash>) { forall i | 0 <= i < |hashes| :: hashes[i] in db.headers }

  ghost function Unknown(db: Db, hashes: seq<Hash>): (r: Hash)
    requires !AllKnown(db, hashes)
    ensures exists i: nat :: FirstUnknown(db, hashes, i) && r == hashes[i]
  {
    if hashes[0] !in db.headers then assert FirstUnknown(db, hashes, 0); hashes[0]
    else
      assert forall i | 0 <= i < |hashes| - 1 :: hashes[1..][i] == hashes[i + 1];
      var r := Unknown(db, hashes[1..]);
      var i: nat :| FirstUnknown(db, hashes[1..], i) && r == hashes[1..][i];
      assert FirstUnknown(db, hashes, i + 1);
      r
  }

  /** One row after another; the last one at a height stays. */
  ghost function Promoted(db: Db, rows: Rows, hashes: seq<Hash>): (r: Rows)
    requires AllKnown(db, hashes)
  {
    if hashes == [] then rows
    else
      var last := hashes[|hashes| - 1];
      Promoted(db, rows, hashes[..|hashes| - 1])[db.headers[last].height := last]
  }

  /** The rows that stay when the heights strictly above one and up to another go. */
  function Kept(rows: Rows, above: Height, upTo: Height): (r: Rows) {
    map h | h in rows && !(above < h <= upTo) :: rows[h]
  }

  /** The rows from the floor up at hi, hi-1, ..., lo. */
  function Listed(db: Db, lo: nat, hi: int): (r: seq<Hash>)
    requires hi < SLOT_LIMIT
    decreases hi - lo
  {
    if hi < lo then []
    else if FloorOf(db) <= hi && hi in db.canonical then [db.canonical[hi]] + Listed(db, lo, hi - 1)
    else Listed(db, lo, hi - 1)
  }

  /** The heights of the rows between the floor and a bound, and the blocks they name. */
  function Buried(db: Db, bound: Height): (r: set<Height>) {
    set h | h in db.canonical && FloorOf(db) <= h && h < bound
  }

  function BuriedBlocks(db: Db, bound: Height): (r: set<Hash>) {
    set h | h in Buried(db, bound) :: db.canonical[h]
  }

  /** The other blocks below the bound. */
  function BuriedForks(db: Db, bound: Height): (r: set<Hash>) {
    set x | x in db.headers && db.headers[x].height < bound && x !in BuriedBlocks(db, bound)
  }

  function Without<V>(m: map<Hash, V>, gone: set<Hash>): (r: map<Hash, V>) { map x | x in m && x !in gone :: m[x] }

  /** `put_block` on the table. */
  function PutOn(t: Table, b: Block, canonical: bool): (r: (Table, Result<bool>)) {
    if t.readOnly then (t, Err(ReadOnly))
    else if b.hash in t.db.blocks then (t, Ok(false))
    else (t.(db := Insert(t.db, b, canonical)), Ok(true))
  }

  function PutEach(t: Table, jobs: seq<Job>): (r: (Table, seq<Result<bool>>)) {
    if jobs == [] then (t, [])
    else
      var before := PutEach(t, jobs[..|jobs| - 1]);
      var last := PutOn(before.0, jobs[|jobs| - 1].block, jobs[|jobs| - 1].canonical);
      (last.0, before.1 + [last.1])
  }

  /** The nearest ancestor of a block that is the row at its height. */
  ghost function NearestRow(db: Db, hash: Hash, depth: nat): (r: Option<(Hash, Height)>)
    decreases depth
  {
    if depth == 0 || hash !in db.headers then None
    else if Ancestor.IsCanonical(db, hash) then Some((hash, db.headers[hash].height))
    else NearestRow(db, db.headers[hash].parent, depth - 1)
  }

  function Novelty(r: Result<bool>): (reply: Reply) { if r.Ok? then Inserted(r.value) else Refused(r.error) }

  /** The writes that may be refused or done. */
  ghost function Wrote(t: Table, a: Action): (r: (Db, Reply)) {
    var db := t.db;
    match a
    case DoPut(b, canonical) => (PutOn(t, b, canonical).0.db, Novelty(PutOn(t, b, canonical).1))
    case DoGenesis(b) =>
      if t.readOnly then (db, Refused(ReadOnly))
      else if db.tip.Some? || db.genesis.Some? then (db, Refused(AlreadyInitialized))
      else if b.header.height != 0 then (db, Refused(GenesisHeight(b.header.height)))
      else (Insert(db, b, true).(tip := Some(ChainTip(b.hash, 0)), genesis := Some(b.hash)), Done)
    case DoSetTip(tip) => if t.readOnly then (db, Refused(ReadOnly)) else (db.(tip := Some(tip)), Done)
    case DoAttest(x, bytes) =>
      if t.readOnly then (db, Refused(ReadOnly)) else (db.(attested := db.attested[x := bytes]), Done)
    case DoSetCanonical(x) =>
      if t.readOnly then (db, Refused(ReadOnly))
      else if x !in db.headers then (db, Refused(BlockNotInStore(x)))
      else (db.(canonical := db.canonical[db.headers[x].height := x]), Done)
    case DoSetCanonicalBatch(hashes) =>
      if t.readOnly then (db, Refused(ReadOnly))
      else if !AllKnown(db, hashes) then (db, Refused(BlockNotInStore(Unknown(db, hashes))))
      else (db.(canonical := Promoted(db, db.canonical, hashes)), Done)
    case DoExtend(b, trains) =>
      if b.hash in db.headers || b.hash in db.blocks then (db, Inserted(false))
      else if t.readOnly then (db, Refused(ReadOnly))
      else if !trains then (Insert(db, b, true), Refused(TrainingFailed))
      else (Insert(db, b, true).(tip := Some(ChainTip(b.hash, b.header.height))), Inserted(true))
    case DoRollback(target) => RolledBack(t, target)
    case DoReorg(ancestor, hashes) => Reorganised(t, ancestor, hashes)
    case DoPrune(bound) => PrunedBelow(t, bound)
    case DoFlush(jobs) => (PutEach(t, jobs).0.db, Acknowledged(PutEach(t, jobs).1))
    case _ => (db, Done)
  }

  function RolledBack(t: Table, target: Height): (r: (Db, Reply)) {
    var db := t.db;
    if t.readOnly then (db, Refused(ReadOnly))
    else if db.tip.None? then (db, Refused(NoTip))
    else if target > db.tip.value.height then (db, Refused(RollbackAboveTip(target, db.tip.value.height)))
    else if target < FloorOf(db) then (db, Refused(RollbackBelowMin(target, FloorOf(db))))
    else
      var top := db.tip.value.height;
      (db.(canonical := Kept(db.canonical, target, top),
           tip := if target < top && target in db.canonical then Some(ChainTip(db.canonical[target], target)) else db.tip),
       Reverted(Listed(db, target + 1, top)))
  }

  ghost function Reorganised(t: Table, ancestor: Height, hashes: seq<Hash>): (r: (Db, Reply)) {
    var db := t.db;
    if t.readOnly then (db, Refused(ReadOnly))
    else if db.tip.None? then (db, Refused(NoTip))
    else if hashes == [] then (db, Refused(EmptyReorgChain))
    else if !AllKnown(db, hashes) then (db, Refused(BlockNotInStore(Unknown(db, hashes))))
    else
      var top, last := db.tip.value.height, hashes[|hashes| - 1];
      var newTip := ChainTip(last, db.headers[last].height);
      (db.(canonical := Promoted(db, Kept(db.canonical, ancestor, top), hashes), tip := Some(newTip)),
       Reorged(Listed(db, ancestor + 1, top), hashes, newTip))
  }

  /** Blocks gone from the three families keyed by hash, and rows gone. */
  function Dropped(db: Db, gone: set<Hash>, heights: set<Height>): (r: Db) {
    db.(blocks := Without(db.blocks, gone), headers := Without(db.headers, gone), attested := Without(db.attested, gone),
        canonical := map h | h in db.canonical && h !in heights :: db.canonical[h])
  }

  function PrunedBelow(t: Table, bound: Height): (r: (Db, Reply)) {
    var db := t.db;
    if t.readOnly then (db, Refused(ReadOnly))
    else if bound <= FloorOf(db) then (db, Pruned(0))
    else
      (Dropped(db, BuriedBlocks(db, bound) + BuriedForks(db, bound), Buried(db, bound)).(minHeight := Some(bound)),
       Pruned(|Buried(db, bound)| + |BuriedForks(db, bound)|))
  }

  /** The reads, which leave the table as it is. */
  ghost function Read(db: Db, a: Action): (r: Reply) {
    match a
    case DoLookup(h) => Located(if FloorOf(db) <= h && h in db.canonical then Some(db.canonical[h]) else None)
    case DoPreview(target) =>
      Reverted(if db.tip.Some? && target < db.tip.value.height then Listed(db, target + 1, db.tip.value.height) else [])
    case DoFindAncestor(x, depth) => Common(NearestRow(db, x, depth))
    case _ => Done
  }

  predicate IsRead(a: Action) { a.DoLookup? || a.DoPreview? || a.DoFindAncestor? || a.DoDisableBin? }

  ghost function On(t: Table, a: Action): (r: (Db, Reply)) { if IsRead(a) then (t.db, Read(t.db, a)) else Wrote(t, a) }

  // ---------------------------------------------------------------- what the store says

  function Unit(r: Result<()>): (reply: Reply) { if r.Ok? then Done else Refused(r.error) }

  function ListReply(r: Result<seq<Hash>>): (reply: Reply) { if r.Ok? then Reverted(r.value) else Refused(r.error) }

  /** The answer of an operation of the store. */
  ghost function ReplyOf(s: Store, a: Action): (r: Reply) {
    match a
    case DoPut(b, canonical) => Novelty(Put(s, b, canonical).result)
    case DoGenesis(b) => Unit(Genesis(s, b).result)
    case DoSetTip(tip) => Unit(SetTip(s, tip).result)
    case DoAttest(x, bytes) => Unit(PutAttestation(s, x, bytes).result)
    case DoSetCanonical(x) => Unit(SetCanonical(s, x).result)
    case DoSetCanonicalBatch(hashes) => Unit(SetCanonicalBatch(s, hashes).result)
    case DoExtend(b, trains) => Novelty(Extend(s, b, trains).result)
    case DoRollback(target) => ListReply(Rollback(s, target).result)
    case DoReorg(ancestor, hashes) =>
      var r := Reorg(s, ancestor, hashes).result;
      if r.Ok? then Reorged(r.value.reverted, r.value.applied, r.value.newTip) else Refused(r.error)
    case DoPrune(height) =>
      var r := Prune(s, height).result;
      if r.Ok? then Pruned(r.value) else Refused(r.error)
    case DoFlush(jobs) => Acknowledged(Flush(s, jobs).1)
    case DoLookup(h) => Located(Resolve(s, h))
    case DoPreview(target) => ListReply(BlocksToRevert(s, target).result)
    case DoFindAncestor(x, depth) => Common(FindAncestor(s, x, depth).1)
    case DoDisableBin => Done
  }

  /** The store does to its database, and says, what the table does and says. */
  ghost predicate Behaves(s: Store, a: Action) {
    TableOf(Perform(s, a)) == Table(On(TableOf(s), a).0, s.readOnly) && ReplyOf(s, a) == On(TableOf(s), a).1
  }

  // ---------------------------------------------------------------- operation by operation

  lemma {:induction false} MissingIsUnknown(db: Db, hashes: seq<Hash>)
    ensures FirstMissing(db, hashes).None? <==> AllKnown(db, hashes)
    ensures !AllKnown(db, hashes) ==> FirstMissing(db, hashes) == Some(Unknown(db, hashes))
  {
    if !AllKnown(db, hashes) {
      var x := Unknown(db, hashes);
      var i: nat :| FirstUnknown(db, hashes, i) && x == hashes[i];
      FirstMissingIs(db, hashes, i);
    }
  }

  lemma {:induction false} FirstMissingIs(db: Db, hashes: seq<Hash>, i: nat)
    requires FirstUnknown(db, hashes, i)
    ensures FirstMissing(db, hashes) == Some(hashes[i])
  {
    if i < |hashes| - 1 {
      FirstMissingIs(db, hashes[..|hashes| - 1], i);
    } else {
      assert FirstMissing(db, hashes[..i]).None?;
    }
  }

  lemma {:induction false} PromotedRows(db: Db, rows: Rows, hashes: seq<Hash>)
    requires AllKnown(db, hashes)
    ensures rows + RowMap(RowsFor(db, hashes)) == Promoted(db, rows, hashes)
  {
    if hashes == [] {
      assert rows + map[] == rows;
    } else {
      var front := hashes[..|hashes| - 1];
      PromotedRows(db, rows, front);
      var all := RowsFor(db, hashes);
      assert all[..|all| - 1] == RowsFor(db, front);
    }
  }

  lemma KeptIsCut(rows: Rows, above: Height, upTo: Height)
    ensures rows - Range(above + 1, upTo) == Kept(rows, above, upTo)
  {
  }

  lemma {:induction false} ListedIsDescending(db: Db, lo: nat, hi: int)
    requires hi < SLOT_LIMIT
    ensures Descending(db, lo, hi) == Listed(db, lo, hi)
    decreases hi - lo
  {
    if hi >= lo { ListedIsDescending(db, lo, hi - 1); }
  }

  lemma RollbackBehaves(s: Store, target: Height)
    requires Coherent(s)
    ensures Behaves(s, DoRollback(target))
  {
    hide CacheAgrees, BinAgrees, CollectDown, Resolve, Range;
    if RollbackError(s, target).None? {
      var top := s.tip.value.height;
      KeptIsCut(s.db.canonical, target, top);
      ListedIsDescending(s.db, target + 1, top);
      if target < top {
        CollectDownCoherent(s, target + 1, top);
        CutTargetResolves(CollectDown(s, target + 1, top).0, target, top);
      } else {
        assert Kept(s.db.canonical, target, target) == s.db.canonical;
      }
    }
  }

  lemma ReorgBehaves(s: Store, ancestor: Height, hashes: seq<Hash>)
    requires Coherent(s)
    ensures Behaves(s, DoReorg(ancestor, hashes))
  {
    hide CacheAgrees, BinAgrees, CollectDown, Range, RowMap, FirstMissing, Unknown, AllKnown, WriteAll;
    MissingIsUnknown(s.db, hashes);
    if ReorgError(s, hashes).None? {
      var top := s.tip.value.height;
      KeptIsCut(s.db.canonical, ancestor, top);
      PromotedRows(s.db, Kept(s.db.canonical, ancestor, top), hashes);
      ListedIsDescending(s.db, ancestor + 1, top);
      CollectDownCoherent(s, ancestor + 1, top);
      assert AllKnown(s.db, hashes);
    }
  }

  lemma BatchBehaves(s: Store, hashes: seq<Hash>)
    ensures Behaves(s, DoSetCanonicalBatch(hashes))
  {
    hide RowMap, FirstMissing, Unknown, AllKnown, WriteAll;
    MissingIsUnknown(s.db, hashes);
    if FirstMissing(s.db, hashes).None? {
      PromotedRows(s.db, s.db.canonical, hashes);
    }
  }

  lemma PruneBehaves(s: Store, bound: Height)
    requires Coherent(s)
    ensures Behaves(s, DoPrune(bound))
  {
    hide CacheAgrees, BinAgrees, CollectUp, ForksBelow, PruneDb, BuriedForks, BuriedBlocks, Buried, Dropped;
    if !s.readOnly && bound > s.floor {
      CollectUpCoherent(s, s.floor, bound);
      var rows := CollectUp(s, s.floor, bound).1;
      CollectedIsBuried(s.db, bound, rows);
      PrunedDb(s.db, bound, rows);
    }
  }

  lemma CollectedIsBuried(db: Db, bound: Height, rows: Rows)
    requires forall h: Height :: Row(rows, h) == if FloorOf(db) <= h < bound then Visible(db, h) else None
    ensures rows.Keys == Buried(db, bound) && rows.Values == BuriedBlocks(db, bound) && |rows| == |Buried(db, bound)|
    ensures ForksBelow(db, bound, rows.Values) == BuriedForks(db, bound)
  {
    forall h: Height
      ensures h in rows <==> h in Buried(db, bound)
      ensures h in rows ==> rows[h] == db.canonical[h]
    {
      assert h in rows <==> Row(rows, h).Some?;
    }
    assert rows.Keys == Buried(db, bound);
    assert |rows| == |rows.Keys|;
  }

  lemma WithoutIsMinus<V>(m: map<Hash, V>, gone: set<Hash>)
    ensures m - gone == Without(m, gone)
  {
  }

  lemma OthersStay(rows: Rows, gone: set<Height>)
    ensures rows - gone == map h | h in rows && h !in gone :: rows[h]
  {
  }

  lemma PrunedDb(db: Db, bound: Height, rows: Rows)
    requires rows.Keys == Buried(db, bound) && rows.Values == BuriedBlocks(db, bound)
    requires ForksBelow(db, bound, rows.Values) == BuriedForks(db, bound) && FloorOf(db) < bound
    ensures PruneDb(db, bound, rows) == PrunedBelow(Table(db, false), bound).0
  {
    hide ForksBelow, BuriedForks, BuriedBlocks, Buried, Dropped;
    DroppedIsMinus(db, rows.Values + ForksBelow(db, bound, rows.Values), rows.Keys);
  }

  lemma DroppedIsMinus(db: Db, gone: set<Hash>, heights: set<Height>)
    ensures Dropped(db, gone, heights) ==
            db.(blocks := db.blocks - gone, headers := db.headers - gone, attested := db.attested - gone,
                canonical := db.canonical - heights)
  {
    hide Without;
    WithoutIsMinus(db.blocks, gone);
    WithoutIsMinus(db.headers, gone);
    WithoutIsMinus(db.attested, gone);
    OthersStay(db.canonical, heights);
  }

  lemma {:induction false} SequentialBehaves(s: Store, jobs: seq<Job>)
    ensures (TableOf(Pipeline.Sequential(s, jobs).0), Pipeline.Sequential(s, jobs).1) == PutEach(TableOf(s), jobs)
  {
    hide Remember, ExtendWrite;
    if jobs != [] { SequentialBehaves(s, jobs[..|jobs| - 1]); }
  }

  lemma FlushBehaves(s: Store, jobs: seq<Job>)
    ensures Behaves(s, DoFlush(jobs))
  {
    hide Flush, PutEach;
    Pipeline.FlushRefinesSequentialPuts(s, jobs);
    SequentialBehaves(s, jobs);
    TableKeepsMode(TableOf(s), jobs);
  }

  lemma {:induction false} TableKeepsMode(t: Table, jobs: seq<Job>)
    ensures PutEach(t, jobs).0.readOnly == t.readOnly
  {
    if jobs != [] { TableKeepsMode(t, jobs[..|jobs| - 1]); }
  }

  lemma {:induction false} NearestIsFound(s: Store, x: Hash, depth: nat)
    requires Coherent(s)
    ensures FindAncestor(s, x, depth).1 == NearestRow(s.db, x, depth)
    decreases depth
  {
    hide Coherent, Resolve, Looked;
    if depth > 0 && x in s.db.headers {
      var h := s.db.headers[x].height;
      LookupIsVisible(s, h);
      LookedCoherent(s, h);
      NearestIsFound(Looked(s, h), s.db.headers[x].parent, depth - 1);
    }
  }

  lemma ReadBehaves(s: Store, a: Action)
    requires Coherent(s) && IsRead(a)
    ensures Behaves(s, a)
  {
    hide CacheAgrees, BinAgrees, Resolve, CollectDown, NearestRow, FindAncestor;
    match a
    case DoLookup(h) => LookupIsVisible(s, h); LookedCoherent(s, h);
    case DoPreview(target) =>
      if s.tip.Some? && target < s.tip.value.height {
        CollectDownCoherent(s, target + 1, s.tip.value.height);
        ListedIsDescending(s.db, target + 1, s.tip.value.height);
      }
    case DoFindAncestor(x, depth) => NearestIsFound(s, x, depth);
    case DoDisableBin =>
  }

  lemma SingleBehaves(s: Store, a: Action)
    requires a.DoPut? || a.DoGenesis? || a.DoSetTip? || a.DoAttest? || a.DoSetCanonical? || a.DoExtend?
    ensures Behaves(s, a)
  {
    hide Remember, ExtendWrite;
  }

  /**
   In every state whose layers agree, each operation answers and stores what the plain table would: all refusals with
   their values in the order they are checked, all lists, counts and tips, and the whole database afterwards.
   */
  lemma EveryOperationBehavesLikeTheTable(s: Store, a: Action)
    requires Coherent(s)
    ensures Behaves(s, a)
  {
    hide Coherent, Behaves;
    match a
    case DoSetCanonicalBatch(hashes) => BatchBehaves(s, hashes);
    case DoRollback(target) => RollbackBehaves(s, target);
    case DoReorg(ancestor, hashes) => ReorgBehaves(s, ancestor, hashes);
    case DoPrune(bound) => PruneBehaves(s, bound);
    case DoFlush(jobs) => FlushBehaves(s, jobs);
    case DoLookup(_) => ReadBehaves(s, a);
    case DoPreview(_) => ReadBehaves(s, a);
    case DoFindAncestor(_, _) => ReadBehaves(s, a);
    case DoDisableBin => ReadBehaves(s, a);
    case _ => SingleBehaves(s, a);
  }

  /** The stored bodies of the rows at lo, ..., hi-1 that are not pruned, ascending. */
  function BodiesOfRows(db: Db, lo: nat, hi: nat): (r: seq<Block>)
    requires hi <= SLOT_LIMIT
    decreases hi - lo
  {
    if hi <= lo then []
    else if FloorOf(db) <= hi - 1 && hi - 1 in db.canonical && db.canonical[hi - 1] in db.blocks
    then BodiesOfRows(db, lo, hi - 1) + [db.blocks[db.canonical[hi - 1]]]
    else BodiesOfRows(db, lo, hi - 1)
  }

  /** `get_blocks_in_range` reads the bodies of the rows, omitting gaps, whatever the shape of the chain. */
  lemma {:induction false} RangeReadsTheRows(s: Store, lo: nat, hi: nat)
    requires Coherent(s) && hi <= SLOT_LIMIT
    ensures Coherent(RangeBlocks(s, lo, hi).0) && RangeBlocks(s, lo, hi).1 == BodiesOfRows(s.db, lo, hi)
    decreases hi - lo
  {
    hide Coherent, Resolve, Looked;
    if lo < hi {
      RangeReadsTheRows(s, lo, hi - 1);
      var before := RangeBlocks(s, lo, hi - 1).0;
      LookupIsVisible(before, hi - 1);
      LookedCoherent(before, hi - 1);
    }
  }

  // ---------------------------------------------------------------- whole runs

  /** What a crash during an operation can leave on disk. */
  ghost function TablePoints(t: Table, a: Action): (r: seq<Db>)
    ensures |r| >= 2
  {
    var after := On(t, a).0;
    match a
    case DoExtend(b, _) => if On(t, a).1 == Inserted(true) then [t.db, Insert(t.db, b, true), after] else [t.db, after]
    case DoRollback(target) =>
      if On(t, a).1.Reverted? && target < t.db.tip.value.height
      then [t.db, t.db.(canonical := after.canonical), after]
      else [t.db, after]
    case _ => [t.db, after]
  }

  ghost function TableStep(t: Table, op: Op): (r: Table) {
    match op
    case Do(a) => t.(db := On(t, a).0)
    case Crash(a, point, _, writable, _) => Table(TablePoints(t, a)[point % |TablePoints(t, a)|], !writable)
    case Reopen(_, writable, _) => t.(readOnly := !writable)
  }

  ghost function TableRun(t: Table, ops: seq<Op>): (r: Table) {
    if ops == [] then t else TableStep(TableRun(t, ops[..|ops| - 1]), ops[|ops| - 1])
  }

  lemma SamePoints(s: Store, a: Action)
    requires Coherent(s)
    ensures DurablePoints(s, a) == TablePoints(TableOf(s), a)
  {
    hide Coherent, Extend, Rollback, Put, Perform, ReplyOf, On;
    EveryOperationBehavesLikeTheTable(s, a);
    if a.DoExtend? {
      ExtendPoint(s, a.block, a.trains);
    } else if a.DoRollback? {
      RollbackPoint(s, a.target);
    }
  }

  lemma ExtendPoint(s: Store, b: Block, trains: bool)
    ensures Extend(s, b, trains).result == Ok(true) <==> ReplyOf(s, DoExtend(b, trains)) == Inserted(true)
    ensures Extend(s, b, trains).result == Ok(true) ==> Put(s, b, true).store.db == Insert(s.db, b, true)
  {
    hide Remember, ExtendWrite;
  }

  lemma RollbackPoint(s: Store, target: Height)
    requires Coherent(s)
    ensures RollbackError(s, target).None? <==> ReplyOf(s, DoRollback(target)).Reverted?
    ensures RollbackError(s, target).None? ==> s.tip == s.db.tip && s.tip.Some?
    ensures RollbackError(s, target).None? && target < s.tip.value.height ==>
              RowsCut(s, target, s.tip.value.height).db ==
              s.db.(canonical := On(TableOf(s), DoRollback(target)).0.canonical)
  {
    hide CacheAgrees, BinAgrees, CollectDown, Resolve, Range;
    if RollbackError(s, target).None? { KeptIsCut(s.db.canonical, target, s.tip.value.height); }
  }

  lemma StepBehaves(s: Store, op: Op)
    requires Coherent(s)
    ensures TableOf(Step(s, op)) == TableStep(TableOf(s), op)
  {
    hide Coherent, DurablePoints, TablePoints, On, Perform, ReplyOf, OpenSynced;
    match op
    case Do(a) => EveryOperationBehavesLikeTheTable(s, a);
    case Crash(a, _, _, _, _) => SamePoints(s, a);
    case Reopen(_, _, _) =>
  }

  lemma {:induction false} RunBehaves(s: Store, ops: seq<Op>)
    requires Coherent(s) && s.capacity > 0 && AdmissibleRun(s, ops)
    ensures TableOf(Run(s, ops)) == TableRun(TableOf(s), ops)
  {
    hide Coherent, Step, TableStep, Admissible;
    if ops != [] {
      var front := ops[..|ops| - 1];
      RunBehaves(s, front);
      RunCoherent(s, front);
      StepBehaves(Run(s, front), ops[|ops| - 1]);
    }
  }

  /**
   Over every admissible run, from any database and any sidecar file, with crashes at every durable point and reopens:
   the database is the table's, and whatever operation comes next answers and stores what the table would.
   */
  lemma RunsBehaveLikeTheTable(
    db: Db, onDisk: Option<seq<Byte>>, writable: bool, capacity: nat, ops: seq<Op>, a: Action)
    requires capacity > 0 && AdmissibleRun(Open(db, onDisk, writable, capacity), ops)
    ensures var s, t := Run(Open(db, onDisk, writable, capacity), ops), TableRun(Table(db, !writable), ops);
            && s.db == t.db && s.readOnly == t.readOnly
            && ReplyOf(s, a) == On(t, a).1
            && Perform(s, a).db == On(t, a).0
  {
    hide Coherent, Run, TableRun, AdmissibleRun, OpenSynced, On, ReplyOf, Perform;
    var s0 := Open(db, onDisk, writable, capacity);
    OpenCoherent(db, onDisk, writable, capacity);
    RunBehaves(s0, ops);
    RunCoherent(s0, ops);
    EveryOperationBehavesLikeTheTable(Run(s0, ops), a);
  }

  /** Two stores over the same database answer alike, whatever their sidecar files and cache capacities. */
  lemma LayersDoNotShow(
    db: Db, writable: bool, file: Option<seq<Byte>>, capacity: nat, otherFile: Option<seq<Byte>>, otherCapacity: nat,
    ops: seq<Op>, a: Action)
    requires capacity > 0 && AdmissibleRun(Open(db, file, writable, capacity), ops)
    requires otherCapacity > 0 && AdmissibleRun(Open(db, otherFile, writable, otherCapacity), ops)
    ensures var s, t := Run(Open(db, file, writable, capacity), ops), Run(Open(db, otherFile, writable, otherCapacity), ops);
            s.db == t.db && ReplyOf(s, a) == ReplyOf(t, a)
  {
    hide Coherent, Run, TableRun, AdmissibleRun, OpenSynced, On, ReplyOf, Perform;
    RunsBehaveLikeTheTable(db, file, writable, capacity, ops, a);
    RunsBehaveLikeTheTable(db, otherFile, writable, otherCapacity, ops, a);
  }

  // ---------------------------------------------------------------- read-only handles

  /** One operation after another on the same handle. */
  ghost function PerformAll(s: Store, actions: seq<Action>): (r: Store) {
    if actions == [] then s else Perform(PerformAll(s, actions[..|actions| - 1]), actions[|actions| - 1])
  }

  /** The same database, and a mapping that is as it was or switched off. */
  ghost predicate Untouched(s: Store, t: Store) {
    t.db == s.db && t.readOnly == s.readOnly && t.tip == s.tip && t.floor == s.floor && (t.bin == s.bin || t.bin == Disabled)
  }

  lemma ReadOnlyStep(s: Store, a: Action)
    requires s.readOnly
    ensures Untouched(s, Perform(s, a))
    ensures !IsRead(a) ==>
              ReplyOf(s, a) ==
              match a
              case DoExtend(b, _) => if b.hash in s.db.headers || b.hash in s.db.blocks then Inserted(false) else Refused(ReadOnly)
              case DoFlush(jobs) => Acknowledged(seq(|jobs|, _ => Err(ReadOnly)))
              case _ => Refused(ReadOnly)
  {
    hide Resolve, CollectDown, Looked;
    match a
    case DoLookup(h) => LookupWritesNothing(s, h);
    case _ =>
  }

  lemma LookupWritesNothing(s: Store, h: Height)
    ensures Looked(s, h) == s.(cache := Looked(s, h).cache)
  {
    hide Resolve;
  }

  /**
   A handle opened read-only, whatever the sidecar file held: through any sequence of operations the database, the tip,
   the floor and the sidecar bytes stay as they were opened, and every operation that would write is refused as
   read-only, but for an extension with a block that is stored already.
   */
  lemma {:induction false} ReadOnlyHandlesNeverWrite(
    db: Db, onDisk: Option<seq<Byte>>, capacity: nat, actions: seq<Action>, a: Action)
    ensures var s := PerformAll(Open(db, onDisk, false, capacity), actions);
            && s.db == db && s.readOnly && s.tip == db.tip && s.floor == FloorOf(db)
            && (s.bin == Disabled || (onDisk.Some? && s.bin == Ro(onDisk.value)))
            && (!IsRead(a) ==>
                  ReplyOf(s, a) ==
                  match a
                  case DoExtend(b, _) => if b.hash in db.headers || b.hash in db.blocks then Inserted(false) else Refused(ReadOnly)
                  case DoFlush(jobs) => Acknowledged(seq(|jobs|, _ => Err(ReadOnly)))
                  case _ => Refused(ReadOnly))
  {
    hide Perform, ReplyOf, OpenSynced;
    var s0 := Open(db, onDisk, false, capacity);
    RecoversFromAnyFile(db.canonical, onDisk, false, 0);
    if actions != [] {
      var front := actions[..|actions| - 1];
      ReadOnlyHandlesNeverWrite(db, onDisk, capacity, front, a);
      ReadOnlyStep(PerformAll(s0, front), actions[|actions| - 1]);
    }
    ReadOnlyStep(PerformAll(s0, actions), a);
  }

  /** A handle can write exactly when it was opened for writing; it starts on the database as it is, with an empty cache. */
  lemma OpenedAsAsked(db: Db, onDisk: Option<seq<Byte>>, writable: bool, capacity: nat)
    ensures var s := Open(db, onDisk, writable, capacity);
            && s.readOnly == !writable && s.db == db && s.tip == db.tip && s.floor == FloorOf(db)
            && s.cache == map[] && s.capacity == capacity
            && (s.bin.Rw? <==> writable)
            && (s.bin.Ro? <==> !writable && onDisk == Some(DenseBytes(db.canonical)))
  {
    hide DenseBytes;
    RecoversFromAnyFile(db.canonical, onDisk, writable, 0);
  }

  // ---------------------------------------------------------------- refusals and failed trainings

  /** A rollback is accepted exactly between the floor and the tip of a writable store; every refusal changes nothing. */
  lemma RollbackIsRefusedExactly(s: Store, target: Height)
    ensures Rollback(s, target).result.Ok? <==> !s.readOnly && s.tip.Some? && s.floor <= target <= s.tip.value.height
    ensures Rollback(s, target).result.Err? ==> Rollback(s, target).store == s
    ensures s.readOnly ==> Rollback(s, target).result == Err(ReadOnly)
    ensures !s.readOnly && s.tip.None? ==> Rollback(s, target).result == Err(NoTip)
    ensures !s.readOnly && s.tip.Some? && target > s.tip.value.height ==>
              Rollback(s, target).result == Err(RollbackAboveTip(target, s.tip.value.height))
    ensures !s.readOnly && s.tip.Some? && target <= s.tip.value.height && target < s.floor ==>
              Rollback(s, target).result == Err(RollbackBelowMin(target, s.floor))
  {
    hide CollectDown, Resolve, Range;
  }

  /** A reorg is accepted exactly with a non-empty list of stored hashes; otherwise the first unstored one is named. */
  lemma ReorgIsRefusedExactly(s: Store, ancestor: Height, hashes: seq<Hash>)
    ensures Reorg(s, ancestor, hashes).result.Ok? <==>
              !s.readOnly && s.tip.Some? && hashes != [] && forall i | 0 <= i < |hashes| :: hashes[i] in s.db.headers
    ensures Reorg(s, ancestor, hashes).result.Err? ==> Reorg(s, ancestor, hashes).store == s
    ensures s.readOnly ==> Reorg(s, ancestor, hashes).result == Err(ReadOnly)
    ensures !s.readOnly && s.tip.None? ==> Reorg(s, ancestor, hashes).result == Err(NoTip)
    ensures !s.readOnly && s.tip.Some? && hashes == [] ==> Reorg(s, ancestor, hashes).result == Err(EmptyReorgChain)
    ensures forall i | 0 <= i < |hashes| && !s.readOnly && s.tip.Some? && FirstUnknown(s.db, hashes, i) ::
              Reorg(s, ancestor, hashes).result == Err(BlockNotInStore(hashes[i]))
  {
    hide CollectDown, RowMap, Range, WriteAll, TruncateTo, FirstMissing;
    MissingIsUnknown(s.db, hashes);
    forall i | 0 <= i < |hashes| && FirstUnknown(s.db, hashes, i) ensures FirstMissing(s.db, hashes) == Some(hashes[i]) {
      FirstMissingIs(s.db, hashes, i);
    }
  }

  /**
   A failing training attempt turns the answer of a put or of genesis into an error exactly when a new block was stored,
   and takes nothing back.
   */
  lemma FailedTrainingOnlyTurnsTheAnswer(s: Store, b: Block, canonical: bool)
    ensures var put, failed := Put(s, b, canonical), Put(s, b, canonical, false);
            failed.store == put.store && failed.result == if put.result == Ok(true) then Err(TrainingFailed) else put.result
    ensures var made, failed := Genesis(s, b), Genesis(s, b, false);
            failed.store == made.store && failed.result == if made.result.Ok? then Err(TrainingFailed) else made.result
  {
    hide Remember, ExtendWrite;
  }
}
