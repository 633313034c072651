/**
 What the pipeline acknowledges, with the training attempts made after each commit (src/pipeline.rs, src/compression.rs).

 `put_block` attempts a training after each block; a flush commits its whole batch first and then attempts one per
 staged job. The attempts fall due at different jobs, so the acknowledgements can differ where the batch crosses the
 training threshold. This module says exactly when they do not.
 */
module PipelineAcks {
  import opened ChainTypes
  import opened Encoding
  import opened CanonicalBin
  import opened StoreModel
  import opened Coherence
  import opened ChainShape
  import opened Pruning
  import opened BlockStoreClass
  import opened Payloads
  import opened Pipeline
  import Compression
  import Runs

  const T: nat := Compression.DICT_TRAINING_THRESHOLD

  // ---------------------------------------------------------------- attempts over one batch

  /** Payload row and training attempt for each block in turn. */
  function PutRows(z: Codec, s: Compression.State, blocks: seq<Block>, outcomes: Outcomes): (r: Compression.State)
    requires |blocks| == |outcomes|
  {
    if blocks == [] then s
    else
      var n := |blocks| - 1;
      Compression.MaybeTrain(Compression.AddRow(z, PutRows(z, s, blocks[..n], outcomes[..n]), blocks[n]), outcomes[n])
  }

  /** The i-th put of the list reports a training error. */
  predicate PutFails(z: Codec, s: Compression.State, blocks: seq<Block>, outcomes: Outcomes, i: nat)
    requires i < |blocks| == |outcomes|
  {
    Compression.TrainingFails(Compression.AddRow(z, PutRows(z, s, blocks[..i], outcomes[..i]), blocks[i]), outcomes[i])
  }

  /** The i-th job of the flushed batch is acknowledged with a training error. */
  predicate FlushFails(z: Codec, s: Compression.State, blocks: seq<Block>, outcomes: Outcomes, i: nat)
    requires i < |blocks| == |outcomes|
  {
    Compression.TrainingFails(Compression.TrainAll(Compression.AddRows(z, s, blocks), outcomes[..i]), outcomes[i])
  }

  /** Distinct hashes, none stored. */
  ghost predicate NewBlocks(rows: map<Hash, Bytes>, blocks: seq<Block>) {
    && (forall i | 0 <= i < |blocks| :: blocks[i].hash !in rows)
    && (forall i, j | 0 <= i < j < |blocks| :: blocks[i].hash != blocks[j].hash)
  }

  /** None of the blocks has this hash. */
  ghost predicate Misses(blocks: seq<Block>, x: Hash) { forall i | 0 <= i < |blocks| :: blocks[i].hash != x }

  lemma NewFront(rows: map<Hash, Bytes>, blocks: seq<Block>)
    requires NewBlocks(rows, blocks) && blocks != []
    ensures var front, last := blocks[..|blocks| - 1], blocks[|blocks| - 1];
            NewBlocks(rows, front) && last.hash !in rows && Misses(front, last.hash)
  {
  }

  lemma {:induction false} AddRowsMiss(z: Codec, s: Compression.State, blocks: seq<Block>, x: Hash)
    requires x !in s.rows && Misses(blocks, x)
    ensures x !in Compression.AddRows(z, s, blocks).rows
  {
    hide Compression.SerializeBlock;
    if blocks != [] { AddRowsMiss(z, s, blocks[..|blocks| - 1], x); }
  }

  lemma {:induction false} AddRowsSize(z: Codec, s: Compression.State, blocks: seq<Block>)
    requires NewBlocks(s.rows, blocks)
    ensures |Compression.AddRows(z, s, blocks).rows| == |s.rows| + |blocks|
  {
    hide NewBlocks, Compression.AddRow;
    if blocks != [] {
      NewFront(s.rows, blocks);
      var front, last := blocks[..|blocks| - 1], blocks[|blocks| - 1];
      AddRowsSize(z, s, front);
      AddRowsMiss(z, s, front, last.hash);
      AddedSize(z, Compression.AddRows(z, s, front), last);
    }
  }

  lemma AddedSize(z: Codec, s: Compression.State, b: Block)
    requires b.hash !in s.rows
    ensures var r := Compression.AddRow(z, s, b);
            |r.rows| == |s.rows| + 1 && r == s.(rows := r.rows)
  {
    hide Compression.SerializeBlock;
    assert Compression.AddRow(z, s, b).rows.Keys == s.rows.Keys + {b.hash};
  }

  lemma RowIsNoDict(s: Compression.State, t: Compression.State)
    requires t == s.(rows := t.rows)
    ensures Compression.Settled(s) <==> Compression.Settled(t)
    ensures Compression.Wanting(s) <==> Compression.Wanting(t)
  {
  }

  lemma AttemptWants(s: Compression.State, trained: Option<Bytes>)
    requires Compression.Settled(s) && trained != Some([])
    ensures var r := Compression.MaybeTrain(s, trained);
            && Compression.Settled(r) && r.rows == s.rows
            && (Compression.Wanting(r) <==> Compression.Wanting(s) && (|s.rows| < T || trained.None?))
  {
  }

  /** A dictionary is still called for after the flush attempts exactly when none was due or all of them failed. */
  lemma {:induction false} TrainAllWants(s: Compression.State, outcomes: Outcomes)
    requires Compression.Settled(s) && Compression.TrainedWell(outcomes)
    ensures var r := Compression.TrainAll(s, outcomes);
            && Compression.Settled(r) && r.rows == s.rows
            && (Compression.Wanting(r) <==>
                  Compression.Wanting(s) && (|s.rows| < T || forall q | 0 <= q < |outcomes| :: outcomes[q].None?))
  {
    hide Compression.MaybeTrain, Compression.Wanting, Compression.Settled;
    if outcomes != [] {
      var n := |outcomes| - 1;
      TrainAllWants(s, outcomes[..n]);
      AttemptWants(Compression.TrainAll(s, outcomes[..n]), outcomes[n]);
    }
  }

  lemma {:induction false} PutRowsMiss(z: Codec, s: Compression.State, blocks: seq<Block>, outcomes: Outcomes, x: Hash)
    requires |blocks| == |outcomes| && x !in s.rows && Misses(blocks, x)
    ensures x !in PutRows(z, s, blocks, outcomes).rows
  {
    hide Compression.SerializeBlock;
    if blocks != [] { PutRowsMiss(z, s, blocks[..|blocks| - 1], outcomes[..|blocks| - 1], x); }
  }

  /** And after puts in order exactly when every attempt that was due by then failed. */
  lemma {:induction false} PutRowsWants(z: Codec, s: Compression.State, blocks: seq<Block>, outcomes: Outcomes)
    requires |blocks| == |outcomes| && Compression.Settled(s) && Compression.TrainedWell(outcomes) && NewBlocks(s.rows, blocks)
    ensures var r := PutRows(z, s, blocks, outcomes);
            && Compression.Settled(r)
            && |r.rows| == |s.rows| + |blocks|
            && (Compression.Wanting(r) <==>
                  Compression.Wanting(s) && forall q | 0 <= q < |outcomes| && |s.rows| + q + 1 >= T :: outcomes[q].None?)
  {
    hide NewBlocks, Misses, Compression.MaybeTrain, Compression.AddRow, Compression.Settled, Compression.Wanting;
    if blocks != [] {
      var n := |blocks| - 1;
      NewFront(s.rows, blocks);
      PutRowsWants(z, s, blocks[..n], outcomes[..n]);
      var before := PutRows(z, s, blocks[..n], outcomes[..n]);
      PutRowsMiss(z, s, blocks[..n], outcomes[..n], blocks[n].hash);
      AddedSize(z, before, blocks[n]);
      RowIsNoDict(before, Compression.AddRow(z, before, blocks[n]));
      AttemptWants(Compression.AddRow(z, before, blocks[n]), outcomes[n]);
    }
  }

  lemma PrefixIsNew(rows: map<Hash, Bytes>, blocks: seq<Block>, outcomes: Outcomes, i: nat)
    requires NewBlocks(rows, blocks) && i <= |blocks| == |outcomes| && Compression.TrainedWell(outcomes)
    ensures NewBlocks(rows, blocks[..i]) && Compression.TrainedWell(outcomes[..i])
  {
  }

  /** The i-th put fails exactly when an attempt is due by then and it and every earlier due one fail. */
  lemma PutFailsWhen(z: Codec, s: Compression.State, blocks: seq<Block>, outcomes: Outcomes, i: nat)
    requires i < |blocks| == |outcomes| && Compression.Settled(s) && Compression.TrainedWell(outcomes) && NewBlocks(s.rows, blocks)
    ensures PutFails(z, s, blocks, outcomes, i) <==>
            && Compression.Wanting(s) && |s.rows| + i + 1 >= T
            && forall q | 0 <= q <= i && |s.rows| + q + 1 >= T :: outcomes[q].None?
  {
    hide NewBlocks, Misses, PutRows, Compression.AddRow, Compression.TrainedWell, Compression.Settled, Compression.Wanting;
    PrefixIsNew(s.rows, blocks, outcomes, i);
    PrefixIsNew(s.rows, blocks, outcomes, i + 1);
    PutRowsWants(z, s, blocks[..i], outcomes[..i]);
    NewFront(s.rows, blocks[..i + 1]);
    assert blocks[..i + 1][..i] == blocks[..i];
    var before := PutRows(z, s, blocks[..i], outcomes[..i]);
    PutRowsMiss(z, s, blocks[..i], outcomes[..i], blocks[i].hash);
    AddedSize(z, before, blocks[i]);
    RowIsNoDict(before, Compression.AddRow(z, before, blocks[i]));
  }

  /** The i-th job of a batch fails exactly when the whole batch crosses the threshold and all attempts up to it fail. */
  lemma FlushFailsWhen(z: Codec, s: Compression.State, blocks: seq<Block>, outcomes: Outcomes, i: nat)
    requires i < |blocks| == |outcomes| && Compression.Settled(s) && Compression.TrainedWell(outcomes) && NewBlocks(s.rows, blocks)
    ensures FlushFails(z, s, blocks, outcomes, i) <==>
            Compression.Wanting(s) && |s.rows| + |blocks| >= T && forall q | 0 <= q <= i :: outcomes[q].None?
  {
    hide NewBlocks, Compression.AddRows, Compression.TrainAll, Compression.Settled, Compression.Wanting;
    AddRowsSize(z, s, blocks);
    Compression.AddRowsKeepsDict(z, s, blocks);
    var batched := Compression.AddRows(z, s, blocks);
    RowIsNoDict(s, batched);
    TrainAllWants(batched, outcomes[..i]);
  }

  /**
   No dictionary is called for; or the batch stays below the threshold; or the next row reaches it; or both the first
   attempt of the batch and the one at the crossing succeed.
   */
  predicate SameAttempts(s: Compression.State, outcomes: Outcomes) {
    || !Compression.Wanting(s)
    || |s.rows| + |outcomes| < T
    || |s.rows| + 1 >= T
    || (outcomes[0].Some? && outcomes[T - 1 - |s.rows|].Some?)
  }

  /** A flush and puts in order report errors at the same jobs. */
  ghost predicate SameVerdicts(z: Codec, s: Compression.State, blocks: seq<Block>, outcomes: Outcomes)
    requires |blocks| == |outcomes|
  {
    forall i | 0 <= i < |blocks| :: FlushFails(z, s, blocks, outcomes, i) == PutFails(z, s, blocks, outcomes, i)
  }

  /** They do exactly under that condition. */
  lemma VerdictsAgreeExactly(z: Codec, s: Compression.State, blocks: seq<Block>, outcomes: Outcomes)
    requires |blocks| == |outcomes| && Compression.Settled(s) && Compression.TrainedWell(outcomes) && NewBlocks(s.rows, blocks)
    ensures SameVerdicts(z, s, blocks, outcomes) <==> blocks == [] || SameAttempts(s, outcomes)
  {
    hide FlushFails, PutFails, NewBlocks, Compression.TrainedWell, Compression.Wanting, Compression.Settled;
    forall i | 0 <= i < |blocks|
      ensures FlushFails(z, s, blocks, outcomes, i) <==>
              Compression.Wanting(s) && |s.rows| + |blocks| >= T && forall q | 0 <= q <= i :: outcomes[q].None?
      ensures PutFails(z, s, blocks, outcomes, i) <==>
              Compression.Wanting(s) && |s.rows| + i + 1 >= T && forall q | 0 <= q <= i && |s.rows| + q + 1 >= T :: outcomes[q].None?
    {
      FlushFailsWhen(z, s, blocks, outcomes, i);
      PutFailsWhen(z, s, blocks, outcomes, i);
    }
    if blocks != [] && !SameAttempts(s, outcomes) {
      var k := T - 1 - |s.rows|;
      if outcomes[0].None? {
        assert FlushFails(z, s, blocks, outcomes, 0) && !PutFails(z, s, blocks, outcomes, 0);
      } else {
        assert PutFails(z, s, blocks, outcomes, k) && !FlushFails(z, s, blocks, outcomes, k);
      }
    }
  }

  /**
   Before any attempt is made: whatever the trainer does, the errors fall on the same jobs exactly when no dictionary is
   called for, or the batch stays below the threshold, or the next row reaches it.
   */
  lemma VerdictsAgreeForEveryTrainerExactly(z: Codec, s: Compression.State, blocks: seq<Block>)
    requires Compression.Settled(s) && NewBlocks(s.rows, blocks) && blocks != []
    ensures (forall outcomes: Outcomes | |outcomes| == |blocks| && Compression.TrainedWell(outcomes) ::
               SameVerdicts(z, s, blocks, outcomes)) <==>
            !Compression.Wanting(s) || |s.rows| + |blocks| < T || |s.rows| + 1 >= T
  {
    hide NewBlocks, SameVerdicts, Compression.Settled, Compression.Wanting;
    forall outcomes: Outcomes | |outcomes| == |blocks| && Compression.TrainedWell(outcomes)
      ensures SameVerdicts(z, s, blocks, outcomes) <==> SameAttempts(s, outcomes)
    {
      VerdictsAgreeExactly(z, s, blocks, outcomes);
    }
    var failing: Outcomes := seq(|blocks|, _ => None);
    assert Compression.TrainedWell(failing);
    assert SameVerdicts(z, s, blocks, failing) <==> SameAttempts(s, failing);
  }

  // ---------------------------------------------------------------- acknowledgements of one flush

  function OutcomesOf(jobs: seq<Job>): (r: Outcomes) { seq(|jobs|, i requires 0 <= i < |jobs| => jobs[i].trained) }

  /** No attempt yields an empty dictionary. */
  ghost predicate TrainedJobs(jobs: seq<Job>) { forall i | 0 <= i < |jobs| :: jobs[i].trained != Some([]) }

  /** One answer per job, given which staged jobs meet a training error. */
  function Acks(db: Db, jobs: seq<Job>, fails: seq<bool>): (r: seq<Result<bool>>)
    requires |Staged(db, jobs)| <= |fails|
    ensures |r| == |jobs|
  {
    if jobs == [] then []
    else
      var n := |jobs| - 1;
      Acks(db, jobs[..n], fails) +
      [if Novel(db, jobs, n) then Stored(true, !fails[|Staged(db, jobs[..n])|]) else Ok(false)]
  }

  function FlushVerdicts(z: Codec, s: Compression.State, staged: seq<Job>): (r: seq<bool>)
    ensures |r| == |staged|
  {
    seq(|staged|, i requires 0 <= i < |staged| => FlushFails(z, s, BlocksOf(staged), OutcomesOf(staged), i))
  }

  function PutVerdicts(z: Codec, s: Compression.State, staged: seq<Job>): (r: seq<bool>)
    ensures |r| == |staged|
  {
    seq(|staged|, i requires 0 <= i < |staged| => PutFails(z, s, BlocksOf(staged), OutcomesOf(staged), i))
  }

  function Refusals(n: nat): (r: seq<Result<bool>>)
    ensures |r| == n && forall i | 0 <= i < n :: r[i] == Err(ReadOnly)
  {
    seq(n, _ => Err(ReadOnly))
  }

  /** `flush_pipeline_batch` over store and codec: the batch, the rows, one training attempt per staged job, the answers. */
  ghost function FlushFull(z: Codec, f: Full, jobs: seq<Job>): (r: (Full, seq<Result<bool>>))
    ensures |r.1| == |jobs|
  {
    if f.store.readOnly then (f, Refusals(|jobs|))
    else
      var staged := Staged(f.store.db, jobs);
      (Full(Flush(f.store, jobs).0,
            Compression.TrainAll(Compression.AddRows(z, f.codec, BlocksOf(staged)), OutcomesOf(staged))),
       Acks(f.store.db, jobs, FlushVerdicts(z, f.codec, staged)))
  }

  /** `put_block` over store and codec on each job in turn. */
  ghost function PutsFull(z: Codec, f: Full, jobs: seq<Job>): (r: (Full, seq<Result<bool>>))
    ensures |r.1| == |jobs|
  {
    if jobs == [] then (f, [])
    else
      var before, job := PutsFull(z, f, jobs[..|jobs| - 1]), jobs[|jobs| - 1];
      var (after, answer) := PutFull(z, before.0, job.block, job.canonical, job.trained);
      (after, before.1 + [answer])
  }

  /** Answers depend only on the verdicts of the staged jobs, and tell them apart. */
  lemma {:induction false} AcksTellVerdicts(db: Db, jobs: seq<Job>, a: seq<bool>, b: seq<bool>)
    requires |Staged(db, jobs)| <= |a| && |Staged(db, jobs)| <= |b|
    ensures Acks(db, jobs, a) == Acks(db, jobs, b) <==> a[..|Staged(db, jobs)|] == b[..|Staged(db, jobs)|]
  {
    hide Novel;
    if jobs != [] {
      var front, n := jobs[..|jobs| - 1], |jobs| - 1;
      var r := |Staged(db, front)|;
      AcksTellVerdicts(db, front, a, b);
      assert Acks(db, jobs, a)[..n] == Acks(db, front, a) && Acks(db, jobs, b)[..n] == Acks(db, front, b);
      if Novel(db, jobs, n) {
        assert a[..r + 1] == a[..r] + [a[r]] && b[..r + 1] == b[..r] + [b[r]];
      }
    }
  }

  lemma StagedOneMore(db: Db, jobs: seq<Job>)
    requires jobs != []
    ensures var front, job := jobs[..|jobs| - 1], jobs[|jobs| - 1];
            var staged := Staged(db, front);
            && Staged(db, jobs) == (if Novel(db, jobs, |front|) then staged + [job] else staged)
            && BlocksOf(staged + [job]) == BlocksOf(staged) + [job.block]
            && OutcomesOf(staged + [job]) == OutcomesOf(staged) + [job.trained]
  {
  }

  lemma PutVerdictsGrow(z: Codec, s: Compression.State, staged: seq<Job>, job: Job)
    ensures var n, more := |staged|, staged + [job];
            var before := PutRows(z, s, BlocksOf(staged), OutcomesOf(staged));
            && PutVerdicts(z, s, more)[..n] == PutVerdicts(z, s, staged)
            && PutVerdicts(z, s, more)[n] == Compression.TrainingFails(Compression.AddRow(z, before, job.block), job.trained)
            && PutRows(z, s, BlocksOf(more), OutcomesOf(more)) == Compression.MaybeTrain(Compression.AddRow(z, before, job.block), job.trained)
  {
    hide Compression.TrainingFails, Compression.AddRow, Compression.MaybeTrain;
    var n, more := |staged|, staged + [job];
    var blocks, outcomes := BlocksOf(more), OutcomesOf(more);
    assert blocks[..n] == BlocksOf(staged) && outcomes[..n] == OutcomesOf(staged);
    forall i | 0 <= i < n ensures PutVerdicts(z, s, more)[i] == PutVerdicts(z, s, staged)[i] {
      assert blocks[..i] == BlocksOf(staged)[..i] && outcomes[..i] == OutcomesOf(staged)[..i];
    }
  }

  /** Puts in order, in terms of the jobs that are new. */
  lemma {:induction false} PutsFullMeaning(z: Codec, f: Full, jobs: seq<Job>)
    requires SameHashes(f) && !f.store.readOnly
    ensures var (after, answers), staged := PutsFull(z, f, jobs), Staged(f.store.db, jobs);
            && after.store == Sequential(f.store, jobs).0 && SameHashes(after) && !after.store.readOnly
            && after.codec == PutRows(z, f.codec, BlocksOf(staged), OutcomesOf(staged))
            && answers == Acks(f.store.db, jobs, PutVerdicts(z, f.codec, staged))
  {
    hide PutFull, Put, PutVerdicts, Novel, SameHashes;
    var db := f.store.db;
    if jobs != [] {
      var front, job := jobs[..|jobs| - 1], jobs[|jobs| - 1];
      assert jobs == front + [job];
      PutsFullMeaning(z, f, front);
      var before, staged := PutsFull(z, f, front).0, Staged(db, front);
      StagedOneMore(db, jobs);
      PutFullKeepsHashes(z, before, job.block, job.canonical, job.trained);
      PutJob(z, f, before, front, job);
      if Novel(db, jobs, |front|) {
        PutVerdictsGrow(z, f.codec, staged, job);
        AcksTellVerdicts(db, front, PutVerdicts(z, f.codec, staged), PutVerdicts(z, f.codec, staged + [job]));
        assert PutVerdicts(z, f.codec, staged)[..|staged|] == PutVerdicts(z, f.codec, staged);
      }
    }
  }

  /** One more put: a duplicate changes nothing, a new block is stored and trained on. */
  lemma PutJob(z: Codec, f: Full, before: Full, front: seq<Job>, job: Job)
    requires !f.store.readOnly && before.store == Sequential(f.store, front).0 && !before.store.readOnly
    ensures var (after, answer) := PutFull(z, before, job.block, job.canonical, job.trained);
            var rows := Compression.AddRow(z, before.codec, job.block);
            && after.store == Sequential(f.store, front + [job]).0 && !after.store.readOnly
            && (if Novel(f.store.db, front + [job], |front|)
                then after.codec == Compression.MaybeTrain(rows, job.trained)
                     && answer == Stored(true, !Compression.TrainingFails(rows, job.trained))
                else after.codec == before.codec && answer == Ok(false))
  {
    hide Compression.AddRow, Compression.MaybeTrain, Compression.TrainingFails, Put, Sequential, JobHashes;
    var jobs := front + [job];
    assert jobs[..|front|] == front;
    SequentialHashes(f.store, front);
    SequentialMore(f.store, front, job);
    PutDuplicate(before.store, job.block, job.canonical);
    assert Novel(f.store.db, jobs, |front|) <==> job.block.hash !in before.store.db.blocks.Keys;
  }

  lemma SequentialMore(s: Store, front: seq<Job>, job: Job)
    ensures Sequential(s, front + [job]).0 == Put(Sequential(s, front).0, job.block, job.canonical).store
  {
    assert (front + [job])[..|front|] == front;
  }

  lemma PutDuplicate(s: Store, b: Block, canonical: bool)
    ensures b.hash in s.db.blocks ==> Put(s, b, canonical).store == s
    ensures Put(s, b, canonical).store.readOnly == s.readOnly
  {
  }

  /** What a settled codec and a batch of well-behaved jobs give the lemmas above. */
  lemma StagedIsNew(f: Full, jobs: seq<Job>)
    requires SameHashes(f) && TrainedJobs(jobs)
    ensures var staged := Staged(f.store.db, jobs);
            NewBlocks(f.codec.rows, BlocksOf(staged)) && Compression.TrainedWell(OutcomesOf(staged))
  {
    hide Staged;
    var staged := Staged(f.store.db, jobs);
    StagedAreNew(f.store.db, jobs);
    StagedDistinct(f.store.db, jobs);
    StagedTrained(f.store.db, jobs);
    forall i | 0 <= i < |staged| ensures BlocksOf(staged)[i].hash !in f.codec.rows {
      assert staged[i].block.hash !in f.codec.rows.Keys;
    }
  }

  lemma {:induction false} StagedTrained(db: Db, jobs: seq<Job>)
    requires TrainedJobs(jobs)
    ensures TrainedJobs(Staged(db, jobs))
  {
    if jobs != [] { StagedTrained(db, jobs[..|jobs| - 1]); }
  }

  /** The batch acknowledges as puts in order would. */
  ghost predicate BatchAgrees(f: Full, jobs: seq<Job>) {
    var staged := Staged(f.store.db, jobs);
    f.store.readOnly || staged == [] || SameAttempts(f.codec, OutcomesOf(staged))
  }

  lemma {:induction false} RefusedPuts(z: Codec, f: Full, jobs: seq<Job>)
    requires f.store.readOnly
    ensures PutsFull(z, f, jobs) == (f, Refusals(|jobs|))
  {
    if jobs != [] {
      RefusedPuts(z, f, jobs[..|jobs| - 1]);
      assert Refusals(|jobs|) == Refusals(|jobs| - 1) + [Err(ReadOnly)];
    }
  }

  /**
   For every batch, with duplicates and colliding heights: a flush leaves the store of `put_block` in order but for the
   height cache, with payload rows for the same hashes, and its acknowledgements, training errors included, are those
   of the puts exactly when no dictionary is called for, or the batch stays below the threshold, or the next row
   reaches it, or the attempts at the first staged job and at the crossing one both succeed.
   */
  lemma FlushAcksArePutAcksExactly(z: Codec, f: Full, jobs: seq<Job>)
    requires Compression.Settled(f.codec) && SameHashes(f) && TrainedJobs(jobs)
    ensures var flushed, puts := FlushFull(z, f, jobs), PutsFull(z, f, jobs);
            && SameButCache(flushed.0.store, puts.0.store)
            && SameHashes(flushed.0) && SameHashes(puts.0)
            && (flushed.1 == puts.1 <==> BatchAgrees(f, jobs))
  {
    hide Compression.Settled, SameHashes, Staged, Acks, FlushVerdicts, PutVerdicts, SameAttempts, Flush, Sequential, PutRows,
      Compression.TrainAll, Compression.AddRows, TrainedJobs;
    var staged := Staged(f.store.db, jobs);
    if f.store.readOnly {
      RefusedPuts(z, f, jobs);
    } else {
      PutsFullMeaning(z, f, jobs);
      FlushRefinesSequentialPuts(f.store, jobs);
      FlushKeepsHashes(z, f, jobs);
      VerdictSeqs(z, f, jobs);
      AcksTellVerdicts(f.store.db, jobs, FlushVerdicts(z, f.codec, staged), PutVerdicts(z, f.codec, staged));
    }
  }

  lemma VerdictSeqs(z: Codec, f: Full, jobs: seq<Job>)
    requires Compression.Settled(f.codec) && SameHashes(f) && TrainedJobs(jobs)
    ensures var staged := Staged(f.store.db, jobs);
            var a, b := FlushVerdicts(z, f.codec, staged), PutVerdicts(z, f.codec, staged);
            && (a == b <==> staged == [] || SameAttempts(f.codec, OutcomesOf(staged)))
            && a[..|staged|] == a && b[..|staged|] == b
  {
    hide Staged, SameAttempts, FlushFails, PutFails, NewBlocks;
    var staged := Staged(f.store.db, jobs);
    StagedIsNew(f, jobs);
    VerdictsAgreeExactly(z, f.codec, BlocksOf(staged), OutcomesOf(staged));
    var a, b := FlushVerdicts(z, f.codec, staged), PutVerdicts(z, f.codec, staged);
    assert forall i | 0 <= i < |staged| :: a[i] == FlushFails(z, f.codec, BlocksOf(staged), OutcomesOf(staged), i);
    assert forall i | 0 <= i < |staged| :: b[i] == PutFails(z, f.codec, BlocksOf(staged), OutcomesOf(staged), i);
    if a == b {
      forall i | 0 <= i < |staged|
        ensures FlushFails(z, f.codec, BlocksOf(staged), OutcomesOf(staged), i) == PutFails(z, f.codec, BlocksOf(staged), OutcomesOf(staged), i)
      {
        assert a[i] == b[i];
      }
    }
  }

  lemma {:induction false} BatchHashes(z: Codec, codec: Compression.State, db: Db, staged: seq<Job>)
    requires codec.rows.Keys == db.blocks.Keys
    ensures Compression.AddRows(z, codec, BlocksOf(staged)).rows.Keys == StoreJobs(db, staged).blocks.Keys
  {
    hide Compression.SerializeBlock;
    if staged != [] {
      var front, job := staged[..|staged| - 1], staged[|staged| - 1];
      BatchHashes(z, codec, db, front);
      assert BlocksOf(staged)[..|front|] == BlocksOf(front);
      var before := Compression.AddRows(z, codec, BlocksOf(front));
      assert Compression.AddRow(z, before, job.block).rows.Keys == before.rows.Keys + {job.block.hash};
      assert StoreJobs(db, staged).blocks.Keys == StoreJobs(db, front).blocks.Keys + {job.block.hash};
    }
  }

  lemma FlushKeepsHashes(z: Codec, f: Full, jobs: seq<Job>)
    requires SameHashes(f) && Compression.Settled(f.codec) && TrainedJobs(jobs)
    ensures SameHashes(FlushFull(z, f, jobs).0) && Compression.Settled(FlushFull(z, f, jobs).0.codec)
  {
    hide Staged, StoreJobs, JobRows, WriteAll, Acks, FlushVerdicts, Compression.Settled, Compression.TrainAll, Compression.AddRows;
    if !f.store.readOnly {
      var staged := Staged(f.store.db, jobs);
      StagedIsNew(f, jobs);
      BatchHashes(z, f.codec, f.store.db, staged);
      FlushBodies(f.store, jobs);
      Compression.AddRowsKeepsDict(z, f.codec, BlocksOf(staged));
      var batched := Compression.AddRows(z, f.codec, BlocksOf(staged));
      RowIsNoDict(f.codec, batched);
      TrainAllWants(batched, OutcomesOf(staged));
    }
  }

  // ---------------------------------------------------------------- acknowledgements of the whole pipeline

  /** Flush each batch in turn. */
  ghost function FlushAllFull(z: Codec, f: Full, batches: seq<seq<Job>>): (r: (Full, seq<Result<bool>>))
    ensures |r.1| == |Concat(batches)|
  {
    if batches == [] then (f, [])
    else
      var before := FlushAllFull(z, f, batches[..|batches| - 1]);
      var last := FlushFull(z, before.0, batches[|batches| - 1]);
      (last.0, before.1 + last.1)
  }

  /** Each batch agrees with puts in order in the state it meets. */
  ghost predicate EachBatchAgrees(z: Codec, f: Full, batches: seq<seq<Job>>) {
    batches == [] ||
    (EachBatchAgrees(z, f, batches[..|batches| - 1]) &&
     BatchAgrees(FlushAllFull(z, f, batches[..|batches| - 1]).0, batches[|batches| - 1]))
  }

  /** Two handles that will acknowledge alike: same store but for the cache, same number of rows, same need of a dictionary. */
  ghost predicate SoFar(f: Full, p: Full) {
    && SameButCache(f.store, p.store) && SameHashes(f) && SameHashes(p)
    && Compression.Settled(f.codec) && Compression.Settled(p.codec)
  }

  ghost predicate Alike(f: Full, p: Full) {
    SoFar(f, p) && (Compression.Wanting(f.codec) <==> Compression.Wanting(p.codec))
  }

  lemma SameSizes(f: Full, p: Full)
    requires SoFar(f, p)
    ensures |f.codec.rows| == |p.codec.rows| && f.store.db == p.store.db && f.store.readOnly == p.store.readOnly
  {
    assert |f.codec.rows| == |f.codec.rows.Keys|;
    assert |p.codec.rows| == |p.codec.rows.Keys|;
  }

  lemma {:induction false} PutsFullSplit(z: Codec, f: Full, a: seq<Job>, b: seq<Job>)
    ensures PutsFull(z, f, a + b).0 == PutsFull(z, PutsFull(z, f, a).0, b).0
    ensures PutsFull(z, f, a + b).1 == PutsFull(z, f, a).1 + PutsFull(z, PutsFull(z, f, a).0, b).1
    decreases |b|
  {
    hide PutFull;
    if b == [] {
      assert a + b == a;
    } else {
      var front := b[..|b| - 1];
      PutsFullSplit(z, f, a, front);
      assert (a + b)[..|a + b| - 1] == a + front;
    }
  }

  lemma PutsFullSettled(z: Codec, f: Full, jobs: seq<Job>)
    requires SameHashes(f) && Compression.Settled(f.codec) && TrainedJobs(jobs)
    ensures Compression.Settled(PutsFull(z, f, jobs).0.codec) && SameHashes(PutsFull(z, f, jobs).0)
  {
    hide Staged, PutRows, Acks, PutVerdicts, Sequential, NewBlocks, Compression.Settled, SameHashes, PutsFull;
    if f.store.readOnly {
      RefusedPuts(z, f, jobs);
    } else {
      PutsFullMeaning(z, f, jobs);
      StagedIsNew(f, jobs);
      var staged := Staged(f.store.db, jobs);
      PutRowsWants(z, f.codec, BlocksOf(staged), OutcomesOf(staged));
    }
  }

  /** Puts from alike handles answer alike. */
  lemma AlikeAnswers(z: Codec, f: Full, p: Full, jobs: seq<Job>)
    requires Alike(f, p) && TrainedJobs(jobs)
    ensures PutsFull(z, f, jobs).1 == PutsFull(z, p, jobs).1
  {
    hide Staged, PutRows, Acks, Sequential, NewBlocks, Compression.Settled, Compression.Wanting, PutFails, PutsFull, SameHashes,
      SameButCache, TrainedJobs;
    SameSizes(f, p);
    if f.store.readOnly {
      RefusedPuts(z, f, jobs);
      RefusedPuts(z, p, jobs);
    } else {
      PutsFullMeaning(z, f, jobs);
      PutsFullMeaning(z, p, jobs);
      StagedIsNew(f, jobs);
      StagedIsNew(p, jobs);
      var staged := Staged(f.store.db, jobs);
      var blocks, outcomes := BlocksOf(staged), OutcomesOf(staged);
      forall i | 0 <= i < |staged| ensures PutFails(z, f.codec, blocks, outcomes, i) == PutFails(z, p.codec, blocks, outcomes, i) {
        PutFailsWhen(z, f.codec, blocks, outcomes, i);
        PutFailsWhen(z, p.codec, blocks, outcomes, i);
      }
      assert PutVerdicts(z, f.codec, staged) == PutVerdicts(z, p.codec, staged);
    }
  }

  /** The store of a put run does not depend on the height cache it starts from. */
  lemma PutsFullStore(z: Codec, f: Full, jobs: seq<Job>)
    ensures PutsFull(z, f, jobs).0.store == Sequential(f.store, jobs).0
    decreases |jobs|
  {
    hide PutFull, Put;
    if jobs != [] {
      var front, job := jobs[..|jobs| - 1], jobs[|jobs| - 1];
      PutsFullStore(z, f, front);
      PutFullIsAStep(z, PutsFull(z, f, front).0, job.block, job.canonical, job.trained);
    }
  }

  lemma FlushFullStore(z: Codec, f: Full, jobs: seq<Job>)
    ensures FlushFull(z, f, jobs).0.store == Flush(f.store, jobs).0
  {
    hide Staged, StoreJobs, JobRows, WriteRows, Acks;
  }

  /** After one more batch the handles still correspond, and if the batch agreed they are still alike. */
  lemma BatchKeepsAlike(z: Codec, f: Full, p: Full, jobs: seq<Job>)
    requires SoFar(f, p) && TrainedJobs(jobs)
    ensures SoFar(FlushFull(z, f, jobs).0, PutsFull(z, p, jobs).0)
    ensures Alike(f, p) && BatchAgrees(f, jobs) ==> Alike(FlushFull(z, f, jobs).0, PutsFull(z, p, jobs).0)
  {
    hide Staged, PutRows, Acks, Sequential, Flush, NewBlocks, Compression.Settled, Compression.Wanting, PutsFull, FlushFull,
      SameHashes, TrainedJobs, SameAttempts, FlushVerdicts, PutVerdicts;
    FlushKeepsHashes(z, f, jobs);
    PutsFullSettled(z, p, jobs);
    FlushFullStore(z, f, jobs);
    PutsFullStore(z, p, jobs);
    FlushRefinesSequentialPuts(f.store, jobs);
    SequentialIgnoresCache(f.store, p.store, jobs);
    if Alike(f, p) && BatchAgrees(f, jobs) { BatchNeeds(z, f, p, jobs); }
  }

  lemma BatchNeeds(z: Codec, f: Full, p: Full, jobs: seq<Job>)
    requires Alike(f, p) && BatchAgrees(f, jobs) && TrainedJobs(jobs)
    ensures Compression.Wanting(FlushFull(z, f, jobs).0.codec) <==> Compression.Wanting(PutsFull(z, p, jobs).0.codec)
  {
    hide Staged, PutRows, Acks, Sequential, Flush, NewBlocks, Compression.Settled, Compression.Wanting, PutsFull, SameHashes,
      SameButCache, TrainedJobs, FlushVerdicts, PutVerdicts, Compression.AddRows, Compression.TrainAll;
    SameSizes(f, p);
    if f.store.readOnly {
      RefusedPuts(z, p, jobs);
    } else {
      var staged := Staged(f.store.db, jobs);
      var blocks, outcomes := BlocksOf(staged), OutcomesOf(staged);
      StagedIsNew(f, jobs);
      StagedIsNew(p, jobs);
      PutsFullMeaning(z, p, jobs);
      PutRowsWants(z, p.codec, blocks, outcomes);
      AddRowsSize(z, f.codec, blocks);
      Compression.AddRowsKeepsDict(z, f.codec, blocks);
      var batched := Compression.AddRows(z, f.codec, blocks);
      RowIsNoDict(f.codec, batched);
      TrainAllWants(batched, outcomes);
    }
  }

  /** Flushing batch after batch acknowledges as puts in order would exactly when each batch does. */
  lemma {:induction false} BatchAcksArePutAcksExactly(z: Codec, f: Full, batches: seq<seq<Job>>)
    requires Compression.Settled(f.codec) && SameHashes(f) && forall i | 0 <= i < |batches| :: TrainedJobs(batches[i])
    ensures var flushed, puts := FlushAllFull(z, f, batches), PutsFull(z, f, Concat(batches));
            && SoFar(flushed.0, puts.0)
            && (flushed.1 == puts.1 <==> EachBatchAgrees(z, f, batches))
            && (EachBatchAgrees(z, f, batches) ==> Alike(flushed.0, puts.0))
  {
    hide SoFar, Alike, FlushFull, PutsFull, BatchAgrees, TrainedJobs, Compression.Settled, SameHashes;
    if batches == [] {
      StartAlike(z, f);
    } else {
      var front, last := batches[..|batches| - 1], batches[|batches| - 1];
      BatchAcksArePutAcksExactly(z, f, front);
      var flushed, puts := FlushAllFull(z, f, front), PutsFull(z, f, Concat(front));
      PutsFullSplit(z, f, Concat(front), last);
      BatchKeepsAlike(z, flushed.0, puts.0, last);
      var a, b := FlushFull(z, flushed.0, last).1, PutsFull(z, puts.0, last).1;
      AppendedEqual(flushed.1, a, puts.1, b);
      if EachBatchAgrees(z, f, front) {
        AlikeAnswers(z, flushed.0, puts.0, last);
        assert Compression.Settled(flushed.0.codec) && SameHashes(flushed.0) by { SoFarIsFit(flushed.0, puts.0); }
        FlushAcksArePutAcksExactly(z, flushed.0, last);
      }
    }
  }

  lemma StartAlike(z: Codec, f: Full)
    requires Compression.Settled(f.codec) && SameHashes(f)
    ensures PutsFull(z, f, []) == (f, []) && Alike(f, f)
  {
  }

  lemma SoFarIsFit(f: Full, p: Full)
    requires SoFar(f, p)
    ensures Compression.Settled(f.codec) && SameHashes(f)
  {
  }

  lemma AppendedEqual(a: seq<Result<bool>>, b: seq<Result<bool>>, c: seq<Result<bool>>, d: seq<Result<bool>>)
    requires |a| == |c|
    ensures a + b == c + d <==> a == c && b == d
  {
    if a + b == c + d {
      assert a == (a + b)[..|a|] && c == (c + d)[..|c|];
      assert b == (a + b)[|a|..] && d == (c + d)[|c|..];
    }
  }

  /**
   Whatever the interleaving of arrivals, timer and close, once the channel has closed every arrival has one
   acknowledgement, and the acknowledgements, training errors included, are those of `put_block` called on the arrivals
   in order exactly when each flushed batch agrees in the state it meets.
   */
  lemma PipelineAcksArePutAcksExactly(z: Codec, f: Full, batchSize: nat, events: seq<Event>)
    requires batchSize >= 1 && Closed in events
    requires Compression.Settled(f.codec) && SameHashes(f)
    requires var batches := WorkerRun(batchSize, events).batches; forall i | 0 <= i < |batches| :: TrainedJobs(batches[i])
    ensures var batches := WorkerRun(batchSize, events).batches;
            var flushed, puts := FlushAllFull(z, f, batches), PutsFull(z, f, Arrivals(events));
            && SameButCache(flushed.0.store, puts.0.store) && SameHashes(flushed.0)
            && |flushed.1| == |Arrivals(events)|
            && (flushed.1 == puts.1 <==> EachBatchAgrees(z, f, batches))
  {
    hide FlushAllFull, PutsFull, WorkerRun, Arrivals, Concat, EachBatchAgrees, TrainedJobs, Compression.Settled, SameHashes;
    WorkerLosesNothing(batchSize, events);
    var w := WorkerRun(batchSize, events);
    assert Concat(w.batches) + [] == Concat(w.batches);
    BatchAcksArePutAcksExactly(z, f, w.batches);
  }

  /** A flush is a step of the whole store, so the payloads it writes stay readable like any others. */
  lemma FlushFullIsAStep(z: Codec, f: Full, jobs: seq<Job>)
    ensures var staged := if f.store.readOnly then [] else Staged(f.store.db, jobs);
            FlushFull(z, f, jobs).0 == FullStep(z, f, OnStore(Runs.Do(Runs.DoFlush(jobs)), OutcomesOf(staged), true))
  {
    hide Staged, StoreJobs, JobRows, WriteRows, Acks, FlushVerdicts, Compression.AddRow;
    assert OutcomesOf([]) == [];
    assert Compression.TrainAll(f.codec, []) == f.codec && Compression.AddRows(z, f.codec, []) == f.codec;
  }

  // ---------------------------------------------------------------- the acknowledgements do differ

  /** A hash that begins with a number. */
  function Numbered(n: U64): (r: Hash) { Key(n) + seq(24, _ => 0) }

  lemma NumberedApart(a: U64, b: U64)
    ensures Numbered(a) == Numbered(b) <==> a == b
  {
    KeysRoundTripAndSort(a, b);
    KeysRoundTripAndSort(b, a);
    assert Numbered(a)[..8] == Key(a) && Numbered(b)[..8] == Key(b);
  }

  function NumberedBlock(n: U64): (r: Block) { Block(Numbered(n), Header(1, ZERO, ZERO), []) }

  /** A store of n numbered blocks. */
  ghost function Filled(n: nat): (r: map<Hash, Block>)
    requires n < U64_SIZE
    ensures |r| == n && forall k: U64 :: Numbered(k) in r <==> k < n
  {
    if n == 0 then map[]
    else
      var rest := Filled(n - 1);
      var r := rest[Numbered(n - 1) := NumberedBlock(n - 1)];
      assert r.Keys == rest.Keys + {Numbered(n - 1)};
      assert forall k: U64 :: Numbered(k) in r <==> k < n by {
        forall k: U64 ensures Numbered(k) in r <==> k < n { NumberedApart(k, n - 1); }
      }
      r
  }

  /** A store with this many rows, dictionaries on and none trained. */
  lemma FilledStore(n: nat) returns (f: Full)
    requires n < U64_SIZE
    ensures Compression.Settled(f.codec) && Compression.Wanting(f.codec) && SameHashes(f) && |f.codec.rows| == n
    ensures !f.store.readOnly && forall k: U64 | n <= k :: Numbered(k) !in f.store.db.blocks
  {
    hide Numbered;
    var blocks := Filled(n);
    var rows: map<Hash, Bytes> := map x | x in blocks :: [];
    assert rows.Keys == blocks.Keys;
    assert |rows| == |rows.Keys| == |blocks.Keys| == |blocks|;
    var db := EMPTY_DB.(blocks := blocks);
    f := Full(Store(db, Disabled, map[], 0, None, 0, false), Compression.State(rows, None, None, true, 0));
  }

  /**
   998 rows, two short of the threshold, two new blocks, and a trainer that fails: puts in order answer the first with
   success, the flushed batch acknowledges both with an error.
   */
  lemma AcksDifferAtTheThreshold(z: Codec) returns (f: Full, jobs: seq<Job>)
    ensures Compression.Settled(f.codec) && SameHashes(f) && TrainedJobs(jobs) && |f.codec.rows| == 998 && |jobs| == 2
    ensures PutsFull(z, f, jobs).1 == [Ok(true), Err(TrainingFailed)]
    ensures FlushFull(z, f, jobs).1 == [Err(TrainingFailed), Err(TrainingFailed)]
  {
    hide Compression.AddRow, Compression.TrainAll, Compression.AddRows, Compression.Wanting, Compression.Settled, PutFails,
      FlushFails, PutsFull, Sequential, PutRows, Numbered, WriteRows, StoreJobs, SameHashes;
    f := FilledStore(998);
    var a, b := Job(NumberedBlock(1000), false, None), Job(NumberedBlock(1001), false, None);
    jobs := [a, b];
    NumberedApart(1000, 1001);
    TwoStaged(f.store.db, a, b);
    PutsFullMeaning(z, f, jobs);
    StagedIsNew(f, jobs);
    TwoVerdicts(z, f, jobs);
    TwoAcks(f.store.db, a, b, PutVerdicts(z, f.codec, jobs));
    TwoAcks(f.store.db, a, b, FlushVerdicts(z, f.codec, jobs));
  }

  lemma TwoVerdicts(z: Codec, f: Full, jobs: seq<Job>)
    requires Compression.Settled(f.codec) && Compression.Wanting(f.codec) && |f.codec.rows| == 998
    requires |jobs| == 2 && jobs[0].trained == jobs[1].trained == None && NewBlocks(f.codec.rows, BlocksOf(jobs))
    ensures PutVerdicts(z, f.codec, jobs) == [false, true] && FlushVerdicts(z, f.codec, jobs) == [true, true]
  {
    hide Compression.AddRow, Compression.TrainAll, Compression.AddRows, Compression.Wanting, Compression.Settled, PutFails,
      FlushFails, PutRows, NewBlocks;
    var blocks, outcomes := BlocksOf(jobs), OutcomesOf(jobs);
    PutFailsWhen(z, f.codec, blocks, outcomes, 0);
    PutFailsWhen(z, f.codec, blocks, outcomes, 1);
    FlushFailsWhen(z, f.codec, blocks, outcomes, 0);
    FlushFailsWhen(z, f.codec, blocks, outcomes, 1);
  }

  lemma TwoStaged(db: Db, a: Job, b: Job)
    requires a.block.hash !in db.blocks && b.block.hash !in db.blocks && a.block.hash != b.block.hash
    ensures Staged(db, [a, b]) == [a, b] && Staged(db, [a]) == [a] && Novel(db, [a, b], 0) && Novel(db, [a, b], 1)
  {
    var one, two := [a], [a, b];
    assert one[..0] == [] && two[..0] == [] && two[..1] == one;
    assert JobHashes([]) == {};
    assert JobHashes(one) == {a.block.hash};
    assert Novel(db, one, 0);
    assert Staged(db, []) == [];
    assert Staged(db, one) == [a];
    assert Staged(db, two) == Staged(db, one) + [b];
  }

  lemma TwoAcks(db: Db, a: Job, b: Job, fails: seq<bool>)
    requires a.block.hash !in db.blocks && b.block.hash !in db.blocks && a.block.hash != b.block.hash && |fails| == 2
    ensures |Staged(db, [a, b])| <= |fails|
    ensures Acks(db, [a, b], fails) == [Stored(true, !fails[0]), Stored(true, !fails[1])]
  {
    var one, two := [a], [a, b];
    TwoStaged(db, a, b);
    assert one[..0] == [] && two[..1] == one;
    assert Novel(db, one, 0) by { assert JobHashes([]) == {}; }
    assert Acks(db, one, fails) == [Stored(true, !fails[0])];
  }

  // ---------------------------------------------------------------- the flush, step by step

  /** The k-th pick is the k-th staged job. */
  lemma {:induction false} PickRank(db: Db, jobs: seq<Job>, picks: seq<nat>, k: nat, u: nat)
    requires Picked(db, jobs, picks, |jobs|) && k <= |picks| && u <= |jobs|
    requires (k > 0 ==> picks[k - 1] < u) && (k < |picks| ==> u <= picks[k])
    ensures |Staged(db, jobs[..u])| == k
    decreases u
  {
    hide Novel, Picked, Staged;
    if u == 0 {
      assert jobs[..0] == [];
      assert Staged(db, []) == [] by { NothingStaged(db); }
    } else {
      StagedUpTo(db, jobs, u - 1);
      LastPick(db, jobs, picks, k, u - 1);
      PickRank(db, jobs, picks, if Novel(db, jobs, u - 1) then k - 1 else k, u - 1);
    }
  }

  lemma NothingStaged(db: Db)
    ensures Staged(db, []) == []
  {
  }

  /** Among the picks before a bound, the last one is the job just below it if that one is new. */
  lemma LastPick(db: Db, jobs: seq<Job>, picks: seq<nat>, k: nat, v: nat)
    requires Picked(db, jobs, picks, |jobs|) && k <= |picks| && v < |jobs|
    requires (k > 0 ==> picks[k - 1] <= v) && (k < |picks| ==> v < picks[k])
    ensures Novel(db, jobs, v) ==> k > 0 && picks[k - 1] == v && (k > 1 ==> picks[k - 2] < v)
    ensures !Novel(db, jobs, v) ==> (k > 0 ==> picks[k - 1] < v)
  {
    hide Novel, Staged, At;
    if Novel(db, jobs, v) {
      var j :| 0 <= j < |picks| && picks[j] == v;
    }
  }

  /** The answer of one job. */
  lemma {:induction false} AckAt(db: Db, jobs: seq<Job>, fails: seq<bool>, i: nat)
    requires i < |jobs| && |Staged(db, jobs)| <= |fails|
    ensures |Staged(db, jobs[..i])| <= |Staged(db, jobs)|
    ensures Novel(db, jobs, i) ==> |Staged(db, jobs[..i])| < |fails|
    ensures Acks(db, jobs, fails)[i] == if Novel(db, jobs, i) then Stored(true, !fails[|Staged(db, jobs[..i])|]) else Ok(false)
  {
    var front := jobs[..|jobs| - 1];
    if i < |front| {
      AckAt(db, front, fails, i);
      assert front[..i] == jobs[..i];
    }
  }

  /** The payload rows of the staged jobs, in the format of the moment. */
  method StorePayloads(z: Codec, codec: Compression.DictionaryStore, staged: seq<Job>)
    modifies codec`rows
    ensures codec.View() == Compression.AddRows(z, old(codec.View()), BlocksOf(staged))
  {
    hide Compression.AddRow;
    var blocks := BlocksOf(staged);
    for k := 0 to |staged|
      invariant codec.View() == Compression.AddRows(z, old(codec.View()), blocks[..k])
    {
      assert blocks[..k + 1][..k] == blocks[..k];
      codec.StoreRow(z, staged[k].block);
    }
    assert blocks[..|blocks|] == blocks;
  }

  lemma TrainAllMore(s: Compression.State, outcomes: Outcomes, k: nat)
    requires k < |outcomes|
    ensures Compression.TrainAll(s, outcomes[..k + 1]) == Compression.MaybeTrain(Compression.TrainAll(s, outcomes[..k]), outcomes[k])
    ensures Compression.TrainAll(s, outcomes[..0]) == s
  {
    assert outcomes[..k + 1][..k] == outcomes[..k];
  }

  /** After the commit: one training attempt per staged job, and its answer. */
  method TrainAndAnswer(
    z: Codec, codec: Compression.DictionaryStore, ghost db: Db, jobs: seq<Job>, before: seq<seq<Result<bool>>>, picks: seq<nat>,
    ghost start: Compression.State)
    returns (channels: seq<seq<Result<bool>>>)
    requires Answered(db, jobs, before, |jobs|) && Picked(db, jobs, picks, |jobs|)
    requires codec.View() == Compression.AddRows(z, start, BlocksOf(Staged(db, jobs)))
    modifies codec
    ensures var staged := Staged(db, jobs);
            codec.View() == Compression.TrainAll(Compression.AddRows(z, start, BlocksOf(staged)), OutcomesOf(staged))
    ensures |channels| == |jobs|
    ensures forall i | 0 <= i < |jobs| :: channels[i] == [Acks(db, jobs, FlushVerdicts(z, start, Staged(db, jobs)))[i]]
  {
    hide Novel, Staged, Acks, Compression.AddRows, Compression.TrainAll, Compression.MaybeTrain, Compression.TrainingFails;
    ghost var staged := Staged(db, jobs);
    ghost var batched, outcomes := codec.View(), OutcomesOf(staged);
    ghost var fails := FlushVerdicts(z, start, staged);
    assert jobs[..|jobs|] == jobs;
    assert At(jobs, picks) == staged;
    ghost var answers := Acks(db, jobs, fails);
    forall i | 0 <= i < |jobs| && !Novel(db, jobs, i) ensures answers[i] == Ok(false) { AckAt(db, jobs, fails, i); }
    channels := before;
    if |outcomes| > 0 { TrainAllMore(batched, outcomes, 0); } else { NoTraining(batched); assert outcomes[..0] == []; }
    for k := 0 to |picks|
      invariant |channels| == |jobs|
      invariant codec.View() == Compression.TrainAll(batched, outcomes[..k])
      invariant forall i | 0 <= i < |jobs| ::
                  channels[i] == if !Novel(db, jobs, i) || i in picks[..k] then [answers[i]] else []
    {
      assert picks[..k + 1] == picks[..k] + [picks[k]];
      assert picks[k] !in picks[..k];
      PickRank(db, jobs, picks, k, picks[k]);
      AckAt(db, jobs, fails, picks[k]);
      TrainAllMore(batched, outcomes, k);
      assert staged[k] == jobs[picks[k]];
      var ok := codec.MaybeTrainDictionary(jobs[picks[k]].trained);
      channels := Send(channels, picks[k], if ok then Ok(true) else Err(TrainingFailed));
    }
    assert picks[..|picks|] == picks && outcomes[..|picks|] == outcomes;
  }

  /** `flush_pipeline_batch`: every channel gets exactly one answer, and store and codec become the model's flush. */
  method FlushBatch(handle: PayloadStore, jobs: seq<Job>) returns (channels: seq<seq<Result<bool>>>)
    modifies handle.store.Repr(), handle.codec
    ensures fresh(handle.store.Repr() - old(handle.store.Repr()))
    ensures handle.View() == FlushFull(handle.z, old(handle.View()), jobs).0
    ensures |channels| == |jobs|
    ensures forall i | 0 <= i < |jobs| :: channels[i] == [FlushFull(handle.z, old(handle.View()), jobs).1[i]]
  {
    hide Novel, Staged, StoreJobs, JobRows, Commit, WriteAll, RowMap, Answered, Picked, Acks, FlushVerdicts, Compression.AddRows,
      Compression.TrainAll, Sidecar.Value;
    var store := handle.store;
    if store.readOnly {
      channels := seq(|jobs|, i => [Err(ReadOnly)]);
      return;
    }
    ghost var db, start := store.db, handle.codec.View();
    var early, picks := StageJobs(store, jobs);
    assert jobs[..|jobs|] == jobs;
    PickedAreJobs(db, jobs, picks);
    var staged := At(jobs, picks);
    StorePayloads(handle.z, handle.codec, staged);
    var batch, rows := StageWrites(store.db, staged);
    store.db := Commit(store.db, batch);
    store.WriteSlots(rows);
    channels := TrainAndAnswer(handle.z, handle.codec, db, jobs, early, picks, start);
  }

  lemma PickedAreJobs(db: Db, jobs: seq<Job>, picks: seq<nat>)
    requires Picked(db, jobs, picks, |jobs|)
    ensures forall i | 0 <= i < |picks| :: picks[i] < |jobs|
    ensures At(jobs, picks) == Staged(db, jobs[..|jobs|])
  {
  }
}
