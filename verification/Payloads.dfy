/**
 The store together with its compressed payloads: CF_BLOCKS as the bytes it really holds, beside the decoded blocks of
 the store model (src/store.rs, src/compression.rs, src/pipeline.rs).
 */
module Payloads {
  import opened ChainTypes
  import opened Encoding
  import opened CanonicalBin
  import opened StoreModel
  import opened Coherence
  import opened Runs
  import opened ChainShape
  import opened Pruning
  import opened BlockStoreClass
  import Compression

  /** A handle with the codec state it carries. */
  datatype Full = Full(store: Store, codec: Compression.State)

  type Codec = Compression.Zstd
  type Outcomes = seq<Option<Bytes>>

  /** One payload per stored block, written plain or with the dictionary in force. */
  ghost predicate Mirrors(z: Codec, codec: Compression.State, blocks: map<Hash, Block>) {
    && codec.rows.Keys == blocks.Keys
    && forall x | x in blocks :: Compression.Written(z, codec, codec.rows[x], blocks[x])
  }

  ghost predicate MirrorsOk(z: Codec, f: Full) { Compression.Settled(f.codec) && Mirrors(z, f.codec, f.store.db.blocks) }

  // ---------------------------------------------------------------- what each action does to the payloads

  function BlocksOf(jobs: seq<Job>): (r: seq<Block>) { seq(|jobs|, i requires 0 <= i < |jobs| => jobs[i].block) }

  /** The hashes whose rows a prune deletes. */
  ghost function Doomed(s: Store, height: Height): (r: set<Hash>) {
    if s.readOnly || height <= s.floor then {}
    else
      var rows := CollectUp(s, s.floor, height).1;
      rows.Values + ForksBelow(s.db, height, rows.Values)
  }

  /** The blocks an action writes to CF_BLOCKS, in order; all of them in one batch. */
  ghost function Storing(s: Store, a: Action): (r: seq<Block>) {
    if s.readOnly then []
    else match a
      case DoPut(b, _) => if b.hash in s.db.blocks then [] else [b]
      case DoExtend(b, _) => if b.hash in s.db.headers || b.hash in s.db.blocks then [] else [b]
      case DoGenesis(b) => if Genesis(s, b).result.Ok? then [b] else []
      case DoFlush(jobs) => BlocksOf(Staged(s.db, jobs))
      case _ => []
  }

  /** The codec state after the batch of an action and before any training. */
  ghost function Batched(z: Codec, f: Full, a: Action): (r: Compression.State) {
    match a
    case DoGenesis(b) => if Storing(f.store, a) == [] then f.codec else Compression.Overwrite(z, f.codec, b)
    case DoPrune(height) => f.codec.(rows := f.codec.rows - Doomed(f.store, height))
    case _ => Compression.AddRows(z, f.codec, Storing(f.store, a))
  }

  /** A store operation with the outcome of each training attempt, and whether a crash left the dictionary row behind. */
  datatype FullOp =
    | OnStore(op: Op, trainings: Outcomes, kept: bool)
    | InitDictionary

  ghost function FullStep(z: Codec, f: Full, op: FullOp): (r: Full) {
    match op
    case InitDictionary => f.(codec := Compression.Reload(f.codec))
    case OnStore(Do(a), trainings, _) =>
      Full(Perform(f.store, a), Compression.TrainAll(Batched(z, f, a), trainings))
    case OnStore(Crash(a, point, onDisk, writable, capacity), trainings, kept) =>
      var codec := if point % |DurablePoints(f.store, a)| == 0 then f.codec
                   else if kept then Compression.TrainAll(Batched(z, f, a), trainings)
                   else Batched(z, f, a);
      Full(Step(f.store, op.op), Compression.Reload(codec))
    case OnStore(Reopen(_, _, _), _, _) => Full(Step(f.store, op.op), Compression.Reload(f.codec))
  }

  /** `put_block` over both parts: what it leaves, and its answer. */
  ghost function PutFull(z: Codec, f: Full, b: Block, canonical: bool, trained: Option<Bytes>): (r: (Full, Result<bool>)) {
    if f.store.readOnly then (f, Err(ReadOnly))
    else if b.hash in f.store.db.blocks then (f, Ok(false))
    else
      var rows := Compression.AddRow(z, f.codec, b);
      (Full(Put(f.store, b, canonical).store, Compression.MaybeTrain(rows, trained)),
       Stored(true, !Compression.TrainingFails(rows, trained)))
  }

  /** As a step of a run. */
  function PutOp(b: Block, canonical: bool, trained: Option<Bytes>, stored: bool): (r: FullOp) {
    OnStore(Do(DoPut(b, canonical)), if stored then [trained] else [], true)
  }

  lemma PutFullIsAStep(z: Codec, f: Full, b: Block, canonical: bool, trained: Option<Bytes>)
    ensures var stored := !f.store.readOnly && b.hash !in f.store.db.blocks;
            PutFull(z, f, b, canonical, trained).0 == FullStep(z, f, PutOp(b, canonical, trained, stored))
    ensures PutFull(z, f, b, canonical, trained).0.store == Put(f.store, b, canonical).store
    ensures PutFull(z, f, b, canonical, trained).1 ==
            Put(f.store, b, canonical, !Compression.TrainingFails(Compression.AddRow(z, f.codec, b), trained)).result
  {
    hide Remember, ExtendWrite, Compression.SerializeBlock, Compression.MaybeTrain, Compression.TrainingFails;
    OneRow(z, f.codec, b);
    OneTraining(Compression.AddRow(z, f.codec, b), trained);
    NoTraining(f.codec);
  }

  /** The payload rows and the stored bodies have the same hashes. */
  ghost predicate SameHashes(f: Full) { f.codec.rows.Keys == f.store.db.blocks.Keys }

  lemma PutFullKeepsHashes(z: Codec, f: Full, b: Block, canonical: bool, trained: Option<Bytes>)
    requires SameHashes(f)
    ensures SameHashes(PutFull(z, f, b, canonical, trained).0)
  {
    hide Remember, ExtendWrite, Compression.SerializeBlock;
    assert b.hash in f.codec.rows.Keys <==> b.hash in f.store.db.blocks.Keys;
  }

  /** A put keeps the payloads in step, if its block is genuine and fits where a dictionary is in force. */
  lemma PutFullMirrors(z: Codec, f: Full, b: Block, canonical: bool, trained: Option<Bytes>)
    requires MirrorsOk(z, f) && trained != Some([])
    requires !f.store.readOnly && b.hash !in f.store.db.blocks ==> Compression.Fits(z, f.codec, b)
    ensures MirrorsOk(z, PutFull(z, f, b, canonical, trained).0)
  {
    hide MirrorsOk, FullStep, PutFull, Compression.Fits;
    PutFullIsAStep(z, f, b, canonical, trained);
    FullStepMirrors(z, f, PutOp(b, canonical, trained, !f.store.readOnly && b.hash !in f.store.db.blocks));
  }

  ghost function FullRun(z: Codec, f: Full, ops: seq<FullOp>): (r: Full) {
    if ops == [] then f else FullStep(z, FullRun(z, f, ops[..|ops| - 1]), ops[|ops| - 1])
  }

  /**
   Every block stored is genuine and, when it is written with a dictionary, fits the bound; there is one training
   attempt per stored block, none yields an empty dictionary; and `extend_chain` fails exactly when its attempt does.
   */
  ghost predicate Sane(z: Codec, f: Full, op: FullOp) {
    match op
    case InitDictionary => true
    case OnStore(on, trainings, _) =>
      && Compression.TrainedWell(trainings)
      && (on.Reopen? ||
          (&& AllFit(z, f.codec, Storing(f.store, on.action))
           && |trainings| == |Storing(f.store, on.action)|
           && (on.action.DoExtend? && trainings != [] ==>
                 (on.action.trains <==> !Compression.TrainingFails(Batched(z, f, on.action), trainings[0])))))
  }

  ghost predicate SaneRun(z: Codec, f: Full, ops: seq<FullOp>) {
    ops == [] || (SaneRun(z, f, ops[..|ops| - 1]) && Sane(z, FullRun(z, f, ops[..|ops| - 1]), ops[|ops| - 1]))
  }

  /** The store operations of a run. */
  function StoreOps(ops: seq<FullOp>): (r: seq<Op>) {
    if ops == [] then []
    else StoreOps(ops[..|ops| - 1]) + if ops[|ops| - 1].OnStore? then [ops[|ops| - 1].op] else []
  }

  // ---------------------------------------------------------------- the payloads follow the blocks

  lemma AddedMirrors(z: Codec, codec: Compression.State, blocks: map<Hash, Block>, b: Block)
    requires Mirrors(z, codec, blocks) && Compression.Fits(z, codec, b)
    ensures Mirrors(z, Compression.Overwrite(z, codec, b), blocks[b.hash := b])
    ensures b.hash !in blocks ==> Compression.AddRow(z, codec, b) == Compression.Overwrite(z, codec, b)
  {
    Compression.SerializedIsWritten(z, codec, b);
    assert b.hash in codec.rows.Keys <==> b.hash in blocks.Keys;
  }

  lemma {:induction false} BatchBodies(db: Db, staged: seq<Job>, x: Hash)
    ensures x in StoreJobs(db, staged).blocks && x !in db.blocks ==> exists i | 0 <= i < |staged| :: staged[i].block.hash == x
  {
    if staged != [] && x in StoreJobs(db, staged).blocks && x !in db.blocks {
      var front := staged[..|staged| - 1];
      BatchBodies(db, front, x);
      if x in StoreJobs(db, front).blocks {
        var i :| 0 <= i < |front| && front[i].block.hash == x;
        assert staged[i].block.hash == x;
      } else {
        assert staged[|staged| - 1].block.hash == x;
      }
    }
  }

  lemma {:induction false} BatchMirrors(z: Codec, codec: Compression.State, db: Db, staged: seq<Job>)
    requires Mirrors(z, codec, db.blocks) && DistinctJobs(staged)
    requires forall i | 0 <= i < |staged| :: staged[i].block.hash !in db.blocks && Compression.Fits(z, codec, staged[i].block)
    ensures Mirrors(z, Compression.AddRows(z, codec, BlocksOf(staged)), StoreJobs(db, staged).blocks)
  {
    hide Mirrors;
    if staged != [] {
      var front, job := staged[..|staged| - 1], staged[|staged| - 1];
      BatchMirrors(z, codec, db, front);
      var blocks := BlocksOf(staged);
      assert blocks[..|blocks| - 1] == BlocksOf(front);
      var before := Compression.AddRows(z, codec, BlocksOf(front));
      Compression.AddRowsKeepsDict(z, codec, BlocksOf(front));
      assert Compression.Fits(z, before, job.block);
      BatchBodies(db, front, job.block.hash);
      AddedMirrors(z, before, StoreJobs(db, front).blocks, job.block);
    }
  }

  lemma PrunedMirrors(z: Codec, codec: Compression.State, blocks: map<Hash, Block>, gone: set<Hash>)
    requires Mirrors(z, codec, blocks)
    ensures Mirrors(z, codec.(rows := codec.rows - gone), blocks - gone)
  {
  }

  lemma ContinuedMirrors(z: Codec, s: Compression.State, t: Compression.State, blocks: map<Hash, Block>)
    requires Mirrors(z, s, blocks) && Compression.Continues(s, t) && t.rows == s.rows
    ensures Mirrors(z, t, blocks)
  {
    forall x | x in blocks ensures Compression.Written(z, t, t.rows[x], blocks[x]) {
      Compression.ContinuesKeepsWritten(z, s, t, s.rows[x], blocks[x]);
    }
  }

  /** The bodies after an action, at every durable point past the first. */
  lemma BodiesAfter(s: Store, a: Action, i: nat)
    requires 0 < i < |DurablePoints(s, a)|
    ensures DurablePoints(s, a)[i].blocks == Perform(s, a).db.blocks
  {
    hide Resolve, Remember, WriteAll, ExtendWrite, TruncateTo, RowsFor, JobRows, FirstMissing, NewTip, ForksBelow, CollectUp, CollectDown, Staged, StoreJobs;
  }

  lemma OneRow(z: Codec, codec: Compression.State, b: Block)
    ensures Compression.AddRows(z, codec, [b]) == Compression.AddRow(z, codec, b)
    ensures Compression.AddRows(z, codec, []) == codec
  {
    var one := [b];
    assert one[..0] == [];
  }

  lemma FlushBodies(s: Store, jobs: seq<Job>)
    requires !s.readOnly
    ensures Flush(s, jobs).0.db.blocks == StoreJobs(s.db, Staged(s.db, jobs)).blocks
  {
  }

  /** Actions that never write to CF_BLOCKS. */
  lemma OtherBodies(s: Store, a: Action)
    requires !a.DoPut? && !a.DoExtend? && !a.DoGenesis? && !a.DoFlush? && !a.DoPrune?
    ensures Perform(s, a).db.blocks == s.db.blocks && Storing(s, a) == []
  {
    hide Resolve, Remember, WriteAll, ExtendWrite, TruncateTo, RowsFor, FirstMissing, NewTip;
  }

  lemma SingleBodies(s: Store, a: Action, b: Block)
    requires (a.DoPut? || a.DoExtend? || a.DoGenesis?) && a.block == b
    ensures Perform(s, a).db.blocks == if Storing(s, a) == [] then s.db.blocks else s.db.blocks[b.hash := b]
    ensures Storing(s, a) == [] || Storing(s, a) == [b]
    ensures Storing(s, a) != [] && !a.DoGenesis? ==> b.hash !in s.db.blocks
  {
    hide Remember, ExtendWrite;
  }

  lemma PruneBodies(s: Store, height: Height)
    ensures Prune(s, height).store.db.blocks == s.db.blocks - Doomed(s, height)
  {
    hide CollectUp, ForksBelow;
    if s.readOnly || height <= s.floor { assert s.db.blocks - {} == s.db.blocks; }
  }

  /** The batch of an action keeps the payloads in step with the bodies and leaves the dictionary alone. */
  ghost predicate InStep(z: Codec, f: Full, a: Action) {
    && Mirrors(z, Batched(z, f, a), Perform(f.store, a).db.blocks)
    && Batched(z, f, a) == f.codec.(rows := Batched(z, f, a).rows)
  }

  ghost predicate AllFit(z: Codec, codec: Compression.State, blocks: seq<Block>) {
    forall i | 0 <= i < |blocks| :: Compression.Fits(z, codec, blocks[i])
  }

  lemma SingleMirrors(z: Codec, f: Full, a: Action)
    requires MirrorsOk(z, f) && AllFit(z, f.codec, Storing(f.store, a))
    requires a.DoPut? || a.DoExtend? || a.DoGenesis?
    ensures InStep(z, f, a)
  {
    hide Mirrors, Perform, Storing, Compression.AddRows, Compression.SerializeBlock;
    SingleBodies(f.store, a, a.block);
    OneRow(z, f.codec, a.block);
    if Storing(f.store, a) != [] {
      assert Storing(f.store, a)[0] == a.block;
      AddedMirrors(z, f.codec, f.store.db.blocks, a.block);
    }
  }

  lemma PruneMirrors(z: Codec, f: Full, height: Height)
    requires MirrorsOk(z, f)
    ensures InStep(z, f, DoPrune(height))
  {
    hide Mirrors, Prune, Doomed;
    PruneBodies(f.store, height);
    PrunedMirrors(z, f.codec, f.store.db.blocks, Doomed(f.store, height));
  }

  lemma OtherMirrors(z: Codec, f: Full, a: Action)
    requires MirrorsOk(z, f) && !a.DoPut? && !a.DoExtend? && !a.DoGenesis? && !a.DoFlush? && !a.DoPrune?
    ensures InStep(z, f, a)
  {
    hide Mirrors, Perform, Storing;
    OtherBodies(f.store, a);
  }

  lemma BatchedMirrors(z: Codec, f: Full, a: Action)
    requires MirrorsOk(z, f) && AllFit(z, f.codec, Storing(f.store, a))
    ensures InStep(z, f, a)
  {
    hide InStep, MirrorsOk, AllFit, Storing;
    if a.DoPut? || a.DoExtend? || a.DoGenesis? {
      SingleMirrors(z, f, a);
    } else if a.DoFlush? {
      FlushMirrors(z, f, a.jobs);
    } else if a.DoPrune? {
      PruneMirrors(z, f, a.height);
    } else {
      OtherMirrors(z, f, a);
    }
  }

  lemma FlushMirrors(z: Codec, f: Full, jobs: seq<Job>)
    requires MirrorsOk(z, f) && AllFit(z, f.codec, Storing(f.store, DoFlush(jobs)))
    ensures InStep(z, f, DoFlush(jobs))
  {
    hide Mirrors, Staged, StoreJobs, JobRows, WriteAll;
    var s, a := f.store, DoFlush(jobs);
    Compression.AddRowsKeepsDict(z, f.codec, Storing(s, a));
    if s.readOnly {
      OneRow(z, f.codec, Block(ZERO, Header(0, ZERO, ZERO), []));
    } else {
      var staged := Staged(s.db, jobs);
      StagedDistinct(s.db, jobs);
      StagedAreNew(s.db, jobs);
      forall i | 0 <= i < |staged| ensures Compression.Fits(z, f.codec, staged[i].block) {
        assert Storing(s, a)[i] == staged[i].block;
      }
      BatchMirrors(z, f.codec, s.db, staged);
      FlushBodies(s, jobs);
    }
  }

  lemma ReloadIsIdle(s: Compression.State)
    requires Compression.Settled(s)
    ensures Compression.Reload(s) == s
  {
  }

  lemma TrainedMirrors(z: Codec, codec: Compression.State, trainings: Outcomes, blocks: map<Hash, Block>)
    requires Compression.Settled(codec) && Mirrors(z, codec, blocks) && Compression.TrainedWell(trainings)
    ensures var t := Compression.TrainAll(codec, trainings); Compression.Settled(t) && Mirrors(z, t, blocks)
  {
    hide Mirrors;
    Compression.TrainAllContinues(codec, trainings);
    ContinuedMirrors(z, codec, Compression.TrainAll(codec, trainings), blocks);
  }

  lemma FullStepMirrors(z: Codec, f: Full, op: FullOp)
    requires MirrorsOk(z, f) && Sane(z, f, op)
    ensures MirrorsOk(z, FullStep(z, f, op))
    ensures FullStep(z, f, op).store == if op.OnStore? then Step(f.store, op.op) else f.store
  {
    hide Mirrors, Perform, Batched, Storing, DurablePoints, Compression.TrainAll, Compression.Fits;
    ReloadIsIdle(f.codec);
    if op.OnStore? && !op.op.Reopen? {
      var a := op.op.action;
      BatchedMirrors(z, f, a);
      var batched := Batched(z, f, a);
      TrainedMirrors(z, batched, op.trainings, Perform(f.store, a).db.blocks);
      ReloadIsIdle(batched);
      ReloadIsIdle(Compression.TrainAll(batched, op.trainings));
      if op.op.Crash? {
        var i := op.op.point % |DurablePoints(f.store, a)|;
        if i > 0 { BodiesAfter(f.store, a, i); }
      }
    }
  }

  lemma {:induction false} FullRunMirrors(z: Codec, f: Full, ops: seq<FullOp>)
    requires MirrorsOk(z, f) && SaneRun(z, f, ops)
    ensures MirrorsOk(z, FullRun(z, f, ops))
    ensures FullRun(z, f, ops).store == Run(f.store, StoreOps(ops))
  {
    hide MirrorsOk, FullStep, Sane, Step;
    if ops != [] {
      var front, last := ops[..|ops| - 1], ops[|ops| - 1];
      FullRunMirrors(z, f, front);
      FullStepMirrors(z, FullRun(z, f, front), last);
      if last.OnStore? {
        assert StoreOps(ops)[..|StoreOps(front)|] == StoreOps(front);
      } else {
        assert StoreOps(ops) == StoreOps(front);
      }
    }
  }

  /** A fresh store and a fresh codec state. */
  ghost function Fresh(onDisk: Option<seq<Byte>>, capacity: nat, useDict: bool, cap: nat): (r: Full) {
    Full(Open(EMPTY_DB, onDisk, true, capacity), Compression.State(map[], None, None, useDict, cap))
  }

  /**
   Over every run of the whole store (puts, extensions, genesis, flushed batches, prunes, promotions, rollbacks,
   reorgs, training attempts, dictionary reloads, crashes before and after the dictionary row is written, reopens):
   the store part is the plain run, CF_BLOCKS holds a payload for exactly the stored blocks, and every payload decodes
   to the very block the store model has there.
   */
  lemma EveryPayloadDecodesToItsBlock(
    z: Codec, onDisk: Option<seq<Byte>>, capacity: nat, useDict: bool, cap: nat, ops: seq<FullOp>, x: Hash)
    requires Compression.Lawful(z) && SaneRun(z, Fresh(onDisk, capacity, useDict, cap), ops)
    ensures var f := FullRun(z, Fresh(onDisk, capacity, useDict, cap), ops);
            && f.store == Run(Open(EMPTY_DB, onDisk, true, capacity), StoreOps(ops))
            && (x in f.codec.rows <==> x in f.store.db.blocks)
            && (x in f.codec.rows ==>
                  Compression.DeserializeBlock(z, f.codec, f.codec.rows[x]) == Row(f.store.db.blocks, x))
  {
    hide FullRun, Run, SaneRun, Compression.Lawful, Compression.Written, Compression.DeserializeBlock, OpenSynced;
    var start := Fresh(onDisk, capacity, useDict, cap);
    FullRunMirrors(z, start, ops);
    var f := FullRun(z, start, ops);
    assert x in f.codec.rows.Keys <==> x in f.store.db.blocks.Keys;
    if x in f.codec.rows {
      Compression.WrittenDecodes(z, f.codec, f.codec, f.codec.rows[x], f.store.db.blocks[x]);
    }
  }

  // ---------------------------------------------------------------- the dictionary of a whole run

  /** The training attempts an operation makes and a crash does not lose, counting the blocks stored by then. */
  ghost function AttemptsOf(s: Store, op: FullOp): (r: seq<Compression.Attempt>) {
    match op
    case InitDictionary => []
    case OnStore(Do(a), trainings, _) => AttemptsAt(|Perform(s, a).db.blocks|, trainings)
    case OnStore(Crash(a, point, _, _, _), trainings, kept) =>
      if kept && point % |DurablePoints(s, a)| != 0 then AttemptsAt(|Perform(s, a).db.blocks|, trainings) else []
    case OnStore(Reopen(_, _, _), _, _) => []
  }

  function AttemptsAt(rows: nat, trainings: Outcomes): (r: seq<Compression.Attempt>) {
    seq(|trainings|, i requires 0 <= i < |trainings| => Compression.Attempt(rows, trainings[i]))
  }

  ghost function AllAttempts(s: Store, ops: seq<FullOp>): (r: seq<Compression.Attempt>) {
    if ops == [] then []
    else
      var front := ops[..|ops| - 1];
      AllAttempts(s, front) + AttemptsOf(Run(s, StoreOps(front)), ops[|ops| - 1])
  }

  lemma BatchedKeepsDict(z: Codec, f: Full, a: Action)
    ensures Batched(z, f, a) == f.codec.(rows := Batched(z, f, a).rows)
  {
    hide Storing, Doomed, Compression.SerializeBlock;
    match a
    case DoGenesis(_) =>
    case DoPrune(_) =>
    case _ => Compression.AddRowsKeepsDict(z, f.codec, Storing(f.store, a));
  }

  lemma FullStepTrains(z: Codec, s0: Compression.State, f: Full, earlier: seq<Compression.Attempt>, op: FullOp)
    requires MirrorsOk(z, f) && Sane(z, f, op) && Compression.Untrained(s0) && Compression.TrainedBy(s0, f.codec, earlier)
    ensures Compression.TrainedBy(s0, FullStep(z, f, op).codec, earlier + AttemptsOf(f.store, op))
  {
    hide Perform, Batched, Storing, DurablePoints, Compression.TrainAll, Compression.Fits, Compression.Untrained,
      Compression.TrainedBy, Compression.Written, Compression.Settled;
    ReloadIsIdle(f.codec);
    assert earlier + [] == earlier;
    if op.OnStore? && !op.op.Reopen? {
      var a := op.op.action;
      var batched := Batched(z, f, a);
      BatchedKeepsDict(z, f, a);
      BatchedMirrors(z, f, a);
      assert Compression.TrainedBy(s0, batched, earlier) by { RowsDoNotTrain(s0, f.codec, batched, earlier); }
      ReloadIsIdle(batched);
      Compression.TrainAllContinues(batched, op.trainings);
      ReloadIsIdle(Compression.TrainAll(batched, op.trainings));
      var blocks := Perform(f.store, a).db.blocks;
      assert |batched.rows.Keys| == |blocks.Keys|;
      assert |batched.rows| == |blocks|;
      Compression.TrainAllBy(s0, batched, earlier, op.trainings);
    }
  }

  lemma RowsDoNotTrain(s0: Compression.State, s: Compression.State, t: Compression.State, earlier: seq<Compression.Attempt>)
    requires Compression.TrainedBy(s0, s, earlier) && t == s.(rows := t.rows)
    ensures Compression.TrainedBy(s0, t, earlier)
  {
  }

  /**
   Over the same runs, crashes included: the dictionary in force, in memory as in the metadata, is none, or exactly what
   the first successful training attempt with at least a thousand stored blocks yielded.
   */
  lemma DictionaryOfAnyRun(
    z: Codec, onDisk: Option<seq<Byte>>, capacity: nat, useDict: bool, cap: nat, ops: seq<FullOp>)
    requires SaneRun(z, Fresh(onDisk, capacity, useDict, cap), ops)
    ensures var codec := FullRun(z, Fresh(onDisk, capacity, useDict, cap), ops).codec;
            var found := Compression.FirstTrained(AllAttempts(Open(EMPTY_DB, onDisk, true, capacity), ops));
            codec.live == codec.meta == if useDict then found else None
  {
    hide FullStep, AttemptsOf, Sane, OpenSynced;
    var start := Fresh(onDisk, capacity, useDict, cap);
    DictionaryFrom(z, start, ops);
  }

  lemma {:induction false} DictionaryFrom(z: Codec, f: Full, ops: seq<FullOp>)
    requires MirrorsOk(z, f) && SaneRun(z, f, ops) && Compression.Untrained(f.codec)
    ensures Compression.TrainedBy(f.codec, FullRun(z, f, ops).codec, AllAttempts(f.store, ops))
  {
    hide FullStep, AttemptsOf, Sane, MirrorsOk, Compression.TrainedBy, Compression.Untrained, Run;
    if ops == [] {
      Compression.NothingTrained(f.codec);
    } else {
      var front := ops[..|ops| - 1];
      DictionaryFrom(z, f, front);
      FullRunMirrors(z, f, front);
      FullStepTrains(z, f.codec, FullRun(z, f, front), AllAttempts(f.store, front), ops[|ops| - 1]);
    }
  }

  // ---------------------------------------------------------------- the handle, step by step

  /** An open store: the index and the codec state, updated together. */
  class PayloadStore {
    const store: BlockStore
    const codec: Compression.DictionaryStore
    const z: Codec

    ghost function View(): (r: Full)
      reads store, store.sidecar, store.sidecar.file, store.sidecar.file.data, codec
    {
      Full(store.View(), codec.View())
    }

    constructor (store: BlockStore, codec: Compression.DictionaryStore, z: Codec)
      ensures this.store == store && this.codec == codec && this.z == z
    {
      this.store, this.codec, this.z := store, codec, z;
    }

    /** `put_block`: the batch, sidecar and cache, the payload row, then the training attempt that may turn into an error. */
    method PutBlock(b: Block, canonical: bool, trained: Option<Bytes>) returns (r: Result<bool>)
      modifies store.Repr(), codec
      ensures fresh(store.Repr() - old(store.Repr()))
      ensures (View(), r) == PutFull(z, old(View()), b, canonical, trained)
    {
      hide Remember, ExtendWrite, OpenSynced, Sidecar.Value, Compression.AddRow, Compression.TrainingFails, Compression.MaybeTrain;
      r := store.PutBlock(b, canonical, true);
      if r == Ok(true) {
        codec.StoreRow(z, b);
        var ok := codec.MaybeTrainDictionary(trained);
        if !ok { r := Err(TrainingFailed); }
      }
    }

    /** `extend_chain`: a stored block is a no-op; a failing training attempt leaves block and row but not the tip. */
    method ExtendChain(b: Block, trained: Option<Bytes>) returns (r: Result<bool>)
      modifies store.Repr(), codec
      ensures fresh(store.Repr() - old(store.Repr()))
      ensures var rows := Compression.AddRow(z, old(codec.View()), b);
              var stored := !store.readOnly && b.hash !in old(store.db.headers) && b.hash !in old(store.db.blocks);
              && Outcome(store.View(), r) == Extend(old(View()).store, b, !Compression.TrainingFails(rows, trained))
              && codec.View() == if stored then Compression.MaybeTrain(rows, trained) else old(codec.View())
    {
      hide Remember, ExtendWrite, Compression.SerializeBlock, Compression.TrainingFails, Compression.MaybeTrain;
      if b.hash in store.db.headers || b.hash in store.db.blocks { return Ok(false); }
      r := PutBlock(b, true, trained);
      if r.Ok? {
        var moved := store.SetTip(ChainTip(b.hash, b.Height()));
        r := Ok(true);
      }
    }

    /** `get_block`: the payload row, decoded. In a store whose payloads mirror its blocks that is the stored block. */
    method GetBlock(x: Hash) returns (r: Option<Block>)
      requires Compression.Lawful(z) && MirrorsOk(z, View())
      ensures r == Row(store.db.blocks, x)
    {
      assert x in codec.rows.Keys <==> x in store.db.blocks.Keys;
      if x !in codec.rows { return None; }
      Compression.WrittenDecodes(z, codec.View(), codec.View(), codec.rows[x], store.db.blocks[x]);
      r := codec.Decode(z, codec.rows[x]);
    }
  }

  lemma OneTraining(s: Compression.State, trained: Option<Bytes>)
    ensures Compression.TrainAll(s, [trained]) == Compression.MaybeTrain(s, trained)
  {
    var one := [trained];
    assert one[..0] == [];
  }

  lemma NoTraining(s: Compression.State)
    ensures Compression.TrainAll(s, []) == s
  {
  }
}
