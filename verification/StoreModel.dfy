/**
 The block store as a value, and every operation of src/store.rs and src/canonical/index.rs as a function of it.

 One height lookup is answered by three layers: the bounded height cache, `canonical.bin`, and the CF_CANONICAL rows.
 The operations update those layers at different moments; the functions below keep the code's order and its error paths.
 Class `BlockStoreClass.BlockStore` carries the same operations out step by step and is proved equal to these functions.
 */
module StoreModel {
  import opened ChainTypes
  import opened CanonicalBin

  /** What RocksDB holds: the column families, and the metadata rows the store reads. */
  datatype Db = Db(
    blocks: map<Hash, Block>,
    headers: map<Hash, Header>,
    attested: map<Hash, seq<Byte>>,
    canonical: Rows,
    tip: Option<ChainTip>,
    genesis: Option<Hash>,
    minHeight: Option<Height>)

  const EMPTY_DB := Db(map[], map[], map[], map[], None, None, None)

  /** An open handle: the database, the sidecar, and what lives in memory only. */
  datatype Store = Store(
    db: Db,
    bin: Bin,
    cache: Rows,
    capacity: nat,
    tip: Option<ChainTip>,
    floor: Height,
    readOnly: bool)

  datatype Outcome<+T> = Outcome(store: Store, result: Result<T>)

  function FloorOf(db: Db): (r: Height) {
    if db.minHeight.Some? then db.minHeight.value else 0
  }

  /** What a lookup should answer: the canonical row, unless the height is below the pruning floor. */
  function Visible(db: Db, h: Height): (r: Option<Hash>) {
    if h < FloorOf(db) then None else Row(db.canonical, h)
  }

  /** `open` / `open_readonly` on any database and any sidecar file; the height cache starts empty. */
  ghost function Open(db: Db, onDisk: Option<seq<Byte>>, writable: bool, capacity: nat): (r: Store) {
    Store(db, OpenSynced(db.canonical, onDisk, writable), map[], capacity, db.tip, FloorOf(db), !writable)
  }

  // ---------------------------------------------------------------- height cache

  ghost function Lowest(keys: set<Height>): (r: Height)
    requires keys != {}
    ensures r in keys && forall k | k in keys :: r <= k
  {
    var h :| h in keys;
    if keys == {h} then h
    else
      var m := Lowest(keys - {h});
      assert forall k | k in keys :: k == h || k in keys - {h};
      if h < m then h else m
  }

  /** Evict the lowest height until the cache fits. */
  ghost function Shrink(cache: Rows, capacity: nat): (r: Rows)
    decreases |cache|
  {
    if |cache| <= capacity || cache == map[] then cache
    else Shrink(Without(cache, Lowest(cache.Keys)), capacity)
  }

  ghost function Without(cache: Rows, h: Height): (r: Rows)
    requires h in cache
    ensures |r| == |cache| - 1 && r == cache - {h}
  {
    var r := cache - {h};
    assert r.Keys == cache.Keys - {h};
    r
  }

  ghost function Remember(cache: Rows, capacity: nat, h: Height, x: Hash): (r: Rows) {
    if capacity == 0 then cache else Shrink(cache[h := x], capacity)
  }

  // ---------------------------------------------------------------- lookup

  /** The answer of `get_hash_by_height`: floor guard, height cache, sidecar, CF_CANONICAL. */
  function Resolve(s: Store, h: Height): (r: Option<Hash>) {
    if h < s.floor then None
    else if h in s.cache then Some(s.cache[h])
    else if ReadBin(s.bin, h).Some? then ReadBin(s.bin, h)
    else Row(s.db.canonical, h)
  }

  /** The store after that lookup: an answer from below the cache is written through to it. */
  ghost function Looked(s: Store, h: Height): (r: Store) {
    if h < s.floor || h in s.cache || Resolve(s, h).None? then s
    else s.(cache := Remember(s.cache, s.capacity, h, Resolve(s, h).value))
  }

  /** Look heights hi, hi-1, ..., lo up in turn; the answers that exist, highest first. */
  ghost function CollectDown(s: Store, lo: nat, hi: int): (r: (Store, seq<Hash>))
    requires hi < SLOT_LIMIT
    ensures r.0 == s.(cache := r.0.cache)
    decreases hi - lo
  {
    if hi < lo then (s, [])
    else
      var rest := CollectDown(Looked(s, hi), lo, hi - 1);
      (rest.0, Answer(Resolve(s, hi)) + rest.1)
  }

  function Answer(x: Option<Hash>): (r: seq<Hash>) { if x.Some? then [x.value] else [] }

  /** Look heights lo, lo+1, ..., hi-1 up in turn; the rows that exist. */
  ghost function CollectUp(s: Store, lo: nat, hi: nat): (r: (Store, Rows))
    requires hi <= SLOT_LIMIT
    ensures r.0 == s.(cache := r.0.cache)
    decreases hi - lo
  {
    if hi <= lo then (s, map[])
    else
      var before := CollectUp(s, lo, hi - 1);
      var x := Resolve(before.0, hi - 1);
      (Looked(before.0, hi - 1), if x.Some? then before.1[hi - 1 := x.value] else before.1)
  }

  /** Look heights lo, ..., hi-1 up in turn and load the bodies that exist (`get_blocks_in_range`). */
  ghost function RangeBlocks(s: Store, lo: nat, hi: nat): (r: (Store, seq<Block>))
    requires hi <= SLOT_LIMIT
    ensures r.0 == s.(cache := r.0.cache)
    decreases hi - lo
  {
    if hi <= lo then (s, [])
    else
      var before := RangeBlocks(s, lo, hi - 1);
      (Looked(before.0, hi - 1), before.1 + Bodies(s.db, Resolve(before.0, hi - 1)))
  }

  /** The stored body under a looked-up hash, if both exist. */
  function Bodies(db: Db, x: Option<Hash>): (r: seq<Block>) {
    if x.Some? && x.value in db.blocks then [db.blocks[x.value]] else []
  }

  /** The heights lo..=hi. */
  function Range(lo: nat, hi: int): (r: set<Height>)
    requires hi < SLOT_LIMIT
    ensures forall h: Height :: h in r <==> lo <= h <= hi
    decreases hi - lo
  {
    if hi < lo then {} else Range(lo, hi - 1) + {hi}
  }

  // ---------------------------------------------------------------- writes

  /** A new block has been stored; the dictionary training attempted afterwards can still turn the answer into an error. */
  function Stored<T>(answer: T, trains: bool): (r: Result<T>) { if trains then Ok(answer) else Err(TrainingFailed) }

  /** `put_block`; `trains` says how the training attempt that follows a new block ends. */
  ghost function Put(s: Store, b: Block, canonical: bool, trains: bool := true): (r: Outcome<bool>) {
    if s.readOnly then Outcome(s, Err(ReadOnly))
    else if b.hash in s.db.blocks then Outcome(s, Ok(false))
    else
      var db := s.db.(blocks := s.db.blocks[b.hash := b], headers := s.db.headers[b.hash := b.header]);
      if canonical then
        Outcome(s.(db := db.(canonical := db.canonical[b.Height() := b.hash]),
                   bin := ExtendWrite(s.bin, b.Height(), b.hash),
                   cache := Remember(s.cache, s.capacity, b.Height(), b.hash)), Stored(true, trains))
      else
        Outcome(s.(db := db), Stored(true, trains))
  }

  /** `init_genesis`: one batch, then the sidecar and the tip; the height cache is not refreshed. */
  ghost function Genesis(s: Store, b: Block, trains: bool := true): (r: Outcome<()>) {
    if s.readOnly then Outcome(s, Err(ReadOnly))
    else if s.db.tip.Some? || s.db.genesis.Some? then Outcome(s, Err(AlreadyInitialized))
    else if b.Height() != 0 then Outcome(s, Err(GenesisHeight(b.Height())))
    else
      var tip := Some(ChainTip(b.hash, 0));
      Outcome(s.(db := s.db.(blocks := s.db.blocks[b.hash := b],
                             headers := s.db.headers[b.hash := b.header],
                             canonical := s.db.canonical[0 := b.hash],
                             tip := tip,
                             genesis := Some(b.hash)),
                 bin := ExtendWrite(s.bin, 0, b.hash),
                 tip := tip), Stored((), trains))
  }

  /** `set_tip`. */
  function SetTip(s: Store, tip: ChainTip): (r: Outcome<()>) {
    if s.readOnly then Outcome(s, Err(ReadOnly))
    else Outcome(s.(db := s.db.(tip := Some(tip)), tip := Some(tip)), Ok(()))
  }

  /** `put_attestation`. */
  function PutAttestation(s: Store, hash: Hash, bytes: seq<Byte>): (r: Outcome<()>) {
    if s.readOnly then Outcome(s, Err(ReadOnly))
    else Outcome(s.(db := s.db.(attested := s.db.attested[hash := bytes])), Ok(()))
  }

  /** `set_canonical`. */
  ghost function SetCanonical(s: Store, hash: Hash): (r: Outcome<()>) {
    if s.readOnly then Outcome(s, Err(ReadOnly))
    else if hash !in s.db.headers then Outcome(s, Err(BlockNotInStore(hash)))
    else
      var h := s.db.headers[hash].height;
      Outcome(s.(db := s.db.(canonical := s.db.canonical[h := hash]),
                 bin := ExtendWrite(s.bin, h, hash),
                 cache := Remember(s.cache, s.capacity, h, hash)), Ok(()))
  }

  /** The first hash without a stored header. */
  function FirstMissing(db: Db, hashes: seq<Hash>): (r: Option<Hash>)
    ensures r.None? <==> forall i | 0 <= i < |hashes| :: hashes[i] in db.headers
  {
    if hashes == [] then None
    else
      var earlier := FirstMissing(db, hashes[..|hashes| - 1]);
      if earlier.Some? then earlier
      else if hashes[|hashes| - 1] in db.headers then None
      else Some(hashes[|hashes| - 1])
  }

  /** Each hash with the height of its stored header. */
  function RowsFor(db: Db, hashes: seq<Hash>): (r: seq<(Height, Hash)>)
    requires forall i | 0 <= i < |hashes| :: hashes[i] in db.headers
    ensures |r| == |hashes|
    ensures forall i | 0 <= i < |hashes| :: r[i] == (db.headers[hashes[i]].height, hashes[i])
  {
    seq(|hashes|, i requires 0 <= i < |hashes| => (db.headers[hashes[i]].height, hashes[i]))
  }

  function WriteAll(bin: Bin, rows: seq<(Height, Hash)>): (r: Bin) {
    if rows == [] then bin
    else ExtendWrite(WriteAll(bin, rows[..|rows| - 1]), rows[|rows| - 1].0, rows[|rows| - 1].1)
  }

  /** `set_canonical_batch`: validate all, one batch, then the sidecar; the height cache is not refreshed. */
  ghost function SetCanonicalBatch(s: Store, hashes: seq<Hash>): (r: Outcome<()>) {
    if s.readOnly then Outcome(s, Err(ReadOnly))
    else if FirstMissing(s.db, hashes).Some? then Outcome(s, Err(BlockNotInStore(FirstMissing(s.db, hashes).value)))
    else Outcome(WriteRows(s, RowsFor(s.db, hashes)), Ok(()))
  }

  /** Canonical rows and sidecar slots written without a height-cache refresh. */
  ghost function WriteRows(s: Store, rows: seq<(Height, Hash)>): (r: Store) {
    s.(db := s.db.(canonical := s.db.canonical + RowMap(rows)), bin := WriteAll(s.bin, rows))
  }

  /**
   `extend_chain`: a stored block is a no-op; otherwise put as canonical, then move the tip. When the training attempt
   inside the put fails, the block and its row stay and the tip does not move.
   */
  ghost function Extend(s: Store, b: Block, trains: bool := true): (r: Outcome<bool>) {
    if b.hash in s.db.headers || b.hash in s.db.blocks then Outcome(s, Ok(false))
    else
      var put := Put(s, b, true, trains);
      if put.result.Err? then put
      else Outcome(SetTip(put.store, ChainTip(b.hash, b.Height())).store, Ok(true))
  }

  // ---------------------------------------------------------------- rollback and reorg

  /** `blocks_to_revert`. */
  ghost function BlocksToRevert(s: Store, target: Height): (r: Outcome<seq<Hash>>) {
    if s.tip.None? || target >= s.tip.value.height then Outcome(s, Ok([]))
    else
      var down := CollectDown(s, target + 1, s.tip.value.height);
      Outcome(down.0, Ok(down.1))
  }

  /** The validation that `rollback_to_height` does before it changes anything. */
  function RollbackError(s: Store, target: Height): (r: Option<Error>) {
    if s.readOnly then Some(ReadOnly)
    else if s.tip.None? then Some(NoTip)
    else if target > s.tip.value.height then Some(RollbackAboveTip(target, s.tip.value.height))
    else if target < s.floor then Some(RollbackBelowMin(target, s.floor))
    else None
  }

  /** The store after the index delete and the truncation, before the tip moves. */
  ghost function RowsCut(s: Store, target: Height, top: Height): (r: Store) {
    s.(db := s.db.(canonical := s.db.canonical - Range(target + 1, top)), bin := TruncateTo(s.bin, target))
  }

  /** Move the tip to the block found at the target height; with no row there the tip stays. */
  ghost function TipMoved(s: Store, target: Height): (r: Store) {
    var x := Resolve(s, target);
    if x.None? then s else SetTip(Looked(s, target), ChainTip(x.value, target)).store
  }

  /** `rollback_to_height`. */
  ghost function Rollback(s: Store, target: Height): (r: Outcome<seq<Hash>>) {
    if RollbackError(s, target).Some? then Outcome(s, Err(RollbackError(s, target).value))
    else if target == s.tip.value.height then Outcome(s, Ok([]))
    else
      var top := s.tip.value.height;
      var down := CollectDown(s, target + 1, top);
      var moved := TipMoved(RowsCut(down.0, target, top), target);
      Outcome(moved.(cache := moved.cache - Range(target + 1, top)), Ok(down.1))
  }

  datatype ReorgResult = ReorgResult(reverted: seq<Hash>, applied: seq<Hash>, newTip: ChainTip)

  /** The validation of `apply_reorg`. The ancestor is not compared with the tip or the floor. */
  function ReorgError(s: Store, hashes: seq<Hash>): (r: Option<Error>)
    ensures r.None? ==> hashes != [] && s.tip.Some? && forall i | 0 <= i < |hashes| :: hashes[i] in s.db.headers
  {
    if s.readOnly then Some(ReadOnly)
    else if s.tip.None? then Some(NoTip)
    else if hashes == [] then Some(EmptyReorgChain)
    else if FirstMissing(s.db, hashes).Some? then Some(BlockNotInStore(FirstMissing(s.db, hashes).value))
    else None
  }

  ghost function NewTip(db: Db, hashes: seq<Hash>): (r: ChainTip)
    requires hashes != [] && hashes[|hashes| - 1] in db.headers
  {
    ChainTip(hashes[|hashes| - 1], db.headers[hashes[|hashes| - 1]].height)
  }

  /** The database after the one batch of `apply_reorg`. */
  ghost function ReorgDb(db: Db, ancestor: Height, top: Height, hashes: seq<Hash>): (r: Db)
    requires hashes != [] && forall i | 0 <= i < |hashes| :: hashes[i] in db.headers
  {
    db.(canonical := (db.canonical - Range(ancestor + 1, top)) + RowMap(RowsFor(db, hashes)),
        tip := Some(NewTip(db, hashes)))
  }

  /** `apply_reorg`: the new heights enter the height cache without the capacity check. */
  ghost function Reorg(s: Store, ancestor: Height, hashes: seq<Hash>): (r: Outcome<ReorgResult>) {
    if ReorgError(s, hashes).Some? then Outcome(s, Err(ReorgError(s, hashes).value))
    else
      var top := s.tip.value.height;
      var rows := RowsFor(s.db, hashes);
      var down := CollectDown(s, ancestor + 1, top);
      Outcome(down.0.(db := ReorgDb(s.db, ancestor, top, hashes),
                      bin := WriteAll(TruncateTo(s.bin, ancestor), rows),
                      cache := (down.0.cache - Range(ancestor + 1, top)) + RowMap(rows),
                      tip := Some(NewTip(s.db, hashes))),
              Ok(ReorgResult(down.1, hashes, NewTip(s.db, hashes))))
  }

  /** `find_common_ancestor`: walk parents until a block is the canonical one at its height. */
  ghost function FindAncestor(s: Store, hash: Hash, depth: nat): (r: (Store, Option<(Hash, Height)>))
    ensures r.0 == s.(cache := r.0.cache)
    decreases depth
  {
    if depth == 0 || hash !in s.db.headers then (s, None)
    else
      var h := s.db.headers[hash].height;
      if Resolve(s, h) == Some(hash) then (Looked(s, h), Some((hash, h)))
      else FindAncestor(Looked(s, h), s.db.headers[hash].parent, depth - 1)
  }

  // ---------------------------------------------------------------- pruning

  /** Headers below a height that the canonical pass has not collected. */
  function ForksBelow(db: Db, height: Height, collected: set<Hash>): (r: set<Hash>) {
    set x | x in db.headers && x !in collected && db.headers[x].height < height
  }

  function CachedBelow(cache: Rows, height: Height): (r: set<Height>) { set h | h in cache && h < height }

  ghost function PruneDb(db: Db, height: Height, rows: Rows): (r: Db) {
    var doomed := rows.Values + ForksBelow(db, height, rows.Values);
    db.(blocks := db.blocks - doomed,
        headers := db.headers - doomed,
        attested := db.attested - doomed,
        canonical := db.canonical - rows.Keys,
        minHeight := Some(height))
  }

  /** `prune_before_height`: the sidecar keeps its stale slots; the floor hides them. */
  ghost function Prune(s: Store, height: Height): (r: Outcome<nat>) {
    if s.readOnly then Outcome(s, Err(ReadOnly))
    else if height <= s.floor then Outcome(s, Ok(0))
    else
      var up := CollectUp(s, s.floor, height);
      var rows := up.1;
      Outcome(up.0.(db := PruneDb(s.db, height, rows),
                    floor := height,
                    cache := up.0.cache - CachedBelow(up.0.cache, height)),
              Ok(|rows| + |ForksBelow(s.db, height, rows.Values)|))
  }

  // ---------------------------------------------------------------- write pipeline batch

  /** One queued put, with what a training attempt made on its account would yield. */
  datatype Job = Job(block: Block, canonical: bool, trained: Option<seq<Byte>>)

  function JobHashes(jobs: seq<Job>): (r: set<Hash>) {
    if jobs == [] then {} else JobHashes(jobs[..|jobs| - 1]) + {jobs[|jobs| - 1].block.hash}
  }

  /** Whether a flush inserts job i: not on disk, and no earlier job in the batch has its hash. */
  predicate Novel(db: Db, jobs: seq<Job>, i: nat)
    requires i < |jobs|
  {
    jobs[i].block.hash !in db.blocks && jobs[i].block.hash !in JobHashes(jobs[..i])
  }

  /** The jobs a flush stages. */
  function Staged(db: Db, jobs: seq<Job>): (r: seq<Job>) {
    if jobs == [] then []
    else Staged(db, jobs[..|jobs| - 1]) + if Novel(db, jobs, |jobs| - 1) then [jobs[|jobs| - 1]] else []
  }

  function StoreJobs(db: Db, staged: seq<Job>): (r: Db) {
    if staged == [] then db
    else
      var before := StoreJobs(db, staged[..|staged| - 1]);
      var b := staged[|staged| - 1].block;
      before.(blocks := before.blocks[b.hash := b], headers := before.headers[b.hash := b.header])
  }

  /** The canonical rows of the staged jobs, in order. */
  function JobRows(staged: seq<Job>): (r: seq<(Height, Hash)>) {
    if staged == [] then []
    else
      var last := staged[|staged| - 1];
      JobRows(staged[..|staged| - 1]) + if last.canonical then [(last.block.Height(), last.block.hash)] else []
  }

  /**
   `flush_pipeline_batch`: one batch for all staged jobs; the height cache is not refreshed. The answers say which jobs
   were stored; what the training attempts after the commit make of them is in module PipelineAcks.
   */
  ghost function Flush(s: Store, jobs: seq<Job>): (r: (Store, seq<Result<bool>>)) {
    if s.readOnly then (s, seq(|jobs|, _ => Err(ReadOnly)))
    else
      var staged := Staged(s.db, jobs);
      (WriteRows(s.(db := StoreJobs(s.db, staged)), JobRows(staged)),
       seq(|jobs|, i requires 0 <= i < |jobs| => Ok(Novel(s.db, jobs, i))))
  }
}
