/** The batching write worker and its flush (src/pipeline.rs). */
module Pipeline {
  import opened ChainTypes
  import opened CanonicalBin
  import opened StoreModel
  import opened Coherence
  import opened BlockStoreClass

  // ---------------------------------------------------------------- a flush is a run of put_block

  /** `put_block` on each job in turn, and which jobs were stored. */
  ghost function Sequential(s: Store, jobs: seq<Job>): (r: (Store, seq<Result<bool>>))
    ensures |r.1| == |jobs|
  {
    if jobs == [] then (s, [])
    else
      var before := Sequential(s, jobs[..|jobs| - 1]);
      var last := Put(before.0, jobs[|jobs| - 1].block, jobs[|jobs| - 1].canonical);
      (last.store, before.1 + [last.result])
  }

  /** Equal in everything but the height cache. */
  ghost predicate SameButCache(s: Store, t: Store) { s == t.(cache := s.cache) }

  lemma {:induction false} StoredHashes(db: Db, jobs: seq<Job>)
    ensures StoreJobs(db, Staged(db, jobs)).blocks.Keys == db.blocks.Keys + JobHashes(jobs)
  {
    hide StoreJobs, JobRows;
    if jobs == [] {
      assert StoreJobs(db, []) == db by { NothingStored(db); }
    } else {
      var front, job := jobs[..|jobs| - 1], jobs[|jobs| - 1];
      StoredHashes(db, front);
      if Novel(db, jobs, |jobs| - 1) {
        assert Staged(db, jobs) == Staged(db, front) + [job];
        StagedMore(db, Staged(db, front), job);
        assert StoreJobs(db, Staged(db, jobs)).blocks.Keys == StoreJobs(db, Staged(db, front)).blocks.Keys + {job.block.hash};
      } else {
        assert Staged(db, jobs) == Staged(db, front);
      }
    }
  }

  lemma NothingStored(db: Db)
    ensures StoreJobs(db, []) == db
  {
  }

  lemma StagedMore(db: Db, staged: seq<Job>, job: Job)
    ensures var before, after := StoreJobs(db, staged), StoreJobs(db, staged + [job]);
            after == before.(blocks := before.blocks[job.block.hash := job.block],
                             headers := before.headers[job.block.hash := job.block.header])
    ensures JobRows(staged + [job]) ==
            JobRows(staged) + if job.canonical then [(job.block.Height(), job.block.hash)] else []
  {
    assert (staged + [job])[..|staged|] == staged;
  }

  lemma WriteRowsMore(s: Store, rows: seq<(Height, Hash)>, h: Height, x: Hash)
    ensures var before, after := WriteRows(s, rows), WriteRows(s, rows + [(h, x)]);
            && after.db == before.db.(canonical := before.db.canonical[h := x])
            && after.bin == ExtendWrite(before.bin, h, x)
  {
    assert (rows + [(h, x)])[..|rows|] == rows;
    assert s.db.canonical + RowMap(rows + [(h, x)]) == (s.db.canonical + RowMap(rows))[h := x];
  }

  /** One more job in a flushed batch does what one more `put_block` does, but for the height cache. */
  lemma FlushOneMore(s: Store, front: seq<Job>, job: Job)
    requires !s.readOnly
    ensures var before, after := Flush(s, front).0, Flush(s, front + [job]).0;
            var put := Put(before, job.block, job.canonical);
            && SameButCache(after, put.store)
            && put.result == Ok(Novel(s.db, front + [job], |front|))
  {
    var jobs := front + [job];
    assert jobs[..|front|] == front;
    var before := Flush(s, front).0;
    var staged := Staged(s.db, front);
    StoredHashes(s.db, front);
    assert before.db.blocks == StoreJobs(s.db, staged).blocks;
    if Novel(s.db, jobs, |front|) {
      StagedMore(s.db, staged, job);
      assert Staged(s.db, jobs) == staged + [job];
      var more := s.(db := StoreJobs(s.db, staged + [job]));
      StoreJobsKeepsIndex(s.db, staged);
      StoreJobsKeepsIndex(s.db, staged + [job]);
      if job.canonical {
        WriteRowsMore(more, JobRows(staged), job.block.Height(), job.block.hash);
      } else {
        assert JobRows(staged + [job]) == JobRows(staged);
      }
    } else {
      assert Staged(s.db, jobs) == staged;
    }
  }

  lemma PutIgnoresCache(s: Store, t: Store, b: Block, canonical: bool)
    requires SameButCache(s, t)
    ensures SameButCache(Put(s, b, canonical).store, Put(t, b, canonical).store)
    ensures Put(s, b, canonical).result == Put(t, b, canonical).result
  {
    hide Remember, ExtendWrite;
  }

  /**
   For every job list, with duplicate hashes and colliding heights, a flush stores and turns down the same jobs as
   `put_block` in order, and leaves the same bodies, headers, canonical rows, sidecar bytes, tip and floor; only the
   height cache differs.
   */
  lemma {:induction false} FlushRefinesSequentialPuts(s: Store, jobs: seq<Job>)
    ensures SameButCache(Flush(s, jobs).0, Sequential(s, jobs).0)
    ensures Flush(s, jobs).1 == Sequential(s, jobs).1
  {
    hide Put, WriteRows, Staged, StoreJobs, JobRows;
    if jobs == [] {
      assert Flush(s, jobs).0 == s by { FlushNothing(s); }
    } else {
      var front, job := jobs[..|jobs| - 1], jobs[|jobs| - 1];
      assert jobs == front + [job];
      FlushRefinesSequentialPuts(s, front);
      var flushed, run := Flush(s, front).0, Sequential(s, front).0;
      PutIgnoresCache(flushed, run, job.block, job.canonical);
      if s.readOnly {
        PutReadOnly(run, job.block, job.canonical);
      } else {
        FlushOneMore(s, front, job);
        forall i | 0 <= i < |front| ensures Novel(s.db, jobs, i) == Novel(s.db, front, i) {
          assert jobs[..i] == front[..i];
        }
        assert Flush(s, jobs).1 == Flush(s, front).1 + [Ok(Novel(s.db, jobs, |front|))];
      }
    }
  }

  lemma FlushNothing(s: Store)
    ensures Flush(s, []).0 == s
  {
    assert s.db.canonical + map[] == s.db.canonical;
  }

  lemma PutReadOnly(s: Store, b: Block, canonical: bool)
    requires s.readOnly
    ensures Put(s, b, canonical) == Outcome(s, Err(ReadOnly))
  {
  }

  lemma SequentialHashes(s: Store, jobs: seq<Job>)
    requires !s.readOnly
    ensures Sequential(s, jobs).0.db.blocks.Keys == s.db.blocks.Keys + JobHashes(jobs)
  {
    hide Sequential, Staged, StoreJobs, JobRows, WriteAll;
    FlushRefinesSequentialPuts(s, jobs);
    StoredHashes(s.db, jobs);
  }

  // ---------------------------------------------------------------- the flush, step by step

  /** Deliver one answer on a job's channel. */
  function Send(channels: seq<seq<Result<bool>>>, i: nat, answer: Result<bool>): (r: seq<seq<Result<bool>>>)
    requires i < |channels|
  {
    channels[i := channels[i] + [answer]]
  }

  /** The staged jobs behind a list of job indices. */
  function At(jobs: seq<Job>, picks: seq<nat>): (r: seq<Job>)
    requires forall i | 0 <= i < |picks| :: picks[i] < |jobs|
  {
    seq(|picks|, i requires 0 <= i < |picks| => jobs[picks[i]])
  }

  /** The state of the answer channels while jobs before `upto` have been examined. */
  ghost predicate Answered(db: Db, jobs: seq<Job>, channels: seq<seq<Result<bool>>>, upto: nat) {
    && |channels| == |jobs| && upto <= |jobs|
    && (forall i | 0 <= i < upto :: channels[i] == if Novel(db, jobs, i) then [] else [Ok(false)])
    && (forall i | upto <= i < |jobs| :: channels[i] == [])
  }

  ghost predicate Picked(db: Db, jobs: seq<Job>, picks: seq<nat>, upto: nat)
    requires upto <= |jobs|
  {
    && (forall i | 0 <= i < |picks| :: picks[i] < upto && Novel(db, jobs, picks[i]))
    && (forall i | 0 <= i < upto && Novel(db, jobs, i) :: i in picks)
    && (forall i, j | 0 <= i < j < |picks| :: picks[i] < picks[j])
    && At(jobs, picks) == Staged(db, jobs[..upto])
  }

  lemma StagedUpTo(db: Db, jobs: seq<Job>, k: nat)
    requires k < |jobs|
    ensures Staged(db, jobs[..k + 1]) ==
            if Novel(db, jobs, k) then Staged(db, jobs[..k]) + [jobs[k]] else Staged(db, jobs[..k])
    ensures JobHashes(jobs[..k + 1]) == JobHashes(jobs[..k]) + {jobs[k].block.hash}
  {
    var upto := jobs[..k + 1];
    assert upto[..k] == jobs[..k];
    assert Novel(db, upto, k) == Novel(db, jobs, k);
  }

  lemma JobSkipped(db: Db, jobs: seq<Job>, channels: seq<seq<Result<bool>>>, picks: seq<nat>, k: nat)
    requires k < |jobs| && Answered(db, jobs, channels, k) && Picked(db, jobs, picks, k) && !Novel(db, jobs, k)
    ensures Answered(db, jobs, Send(channels, k, Ok(false)), k + 1) && Picked(db, jobs, picks, k + 1)
  {
    hide Novel, Staged;
    StagedUpTo(db, jobs, k);
  }

  lemma JobPicked(db: Db, jobs: seq<Job>, channels: seq<seq<Result<bool>>>, picks: seq<nat>, k: nat)
    requires k < |jobs| && Answered(db, jobs, channels, k) && Picked(db, jobs, picks, k) && Novel(db, jobs, k)
    ensures Answered(db, jobs, channels, k + 1) && Picked(db, jobs, picks + [k], k + 1)
  {
    hide Novel, Staged;
    StagedUpTo(db, jobs, k);
    var more := picks + [k];
    assert forall i | 0 <= i < |more| :: more[i] <= k;
    assert At(jobs, more) == At(jobs, picks) + [jobs[k]];
    forall i | 0 <= i < k + 1 && Novel(db, jobs, i) ensures i in more {
      if i == k { assert more[|picks|] == k; } else { assert i in picks; }
    }
  }

  lemma NothingPicked(db: Db, jobs: seq<Job>)
    ensures Answered(db, jobs, seq(|jobs|, _ => []), 0) && Picked(db, jobs, [], 0)
  {
    assert jobs[..0] == [];
  }

  /** The staging pass: answer duplicates at once, keep the rest. */
  method StageJobs(store: BlockStore, jobs: seq<Job>) returns (channels: seq<seq<Result<bool>>>, picks: seq<nat>)
    ensures Answered(store.db, jobs, channels, |jobs|)
    ensures Picked(store.db, jobs, picks, |jobs|)
  {
    hide Answered, Picked, Staged, JobHashes;
    channels, picks := seq(|jobs|, _ => []), [];
    NothingPicked(store.db, jobs);
    assert Answered(store.db, jobs, channels, 0);
    var seen: set<Hash> := {};
    assert JobHashes(jobs[..0]) == {} by { NoHashes(jobs); }
    for k := 0 to |jobs|
      invariant |channels| == |jobs|
      invariant seen == JobHashes(jobs[..k])
      invariant Answered(store.db, jobs, channels, k)
      invariant Picked(store.db, jobs, picks, k)
    {
      var hash := jobs[k].block.hash;
      StagedUpTo(store.db, jobs, k);
      if hash in seen || hash in store.db.blocks {
        JobSkipped(store.db, jobs, channels, picks, k);
        channels := Send(channels, k, Ok(false));
      } else {
        JobPicked(store.db, jobs, channels, picks, k);
        picks := picks + [k];
      }
      seen := seen + {hash};
    }
  }

  lemma NoHashes(jobs: seq<Job>)
    ensures JobHashes(jobs[..0]) == {}
  {
  }

  /** Build the one batch: body, header and, for canonical jobs, the height row. */
  method StageWrites(db: Db, staged: seq<Job>) returns (batch: seq<Write>, rows: seq<(Height, Hash)>)
    ensures rows == JobRows(staged)
    ensures var stored := StoreJobs(db, staged);
            Commit(db, batch) == stored.(canonical := stored.canonical + RowMap(rows))
  {
    hide Commit, Apply;
    batch, rows := [], [];
    assert Commit(db, []) == db by { CommitNothing(db); }
    assert db.canonical + map[] == db.canonical;
    for k := 0 to |staged|
      invariant rows == JobRows(staged[..k])
      invariant var stored := StoreJobs(db, staged[..k]);
                Commit(db, batch) == stored.(canonical := stored.canonical + RowMap(rows))
    {
      var front, job := staged[..k], staged[k];
      assert staged[..k + 1] == front + [job];
      StagedMore(db, front, job);
      batch := StageJob(db, batch, job);
      if job.canonical {
        RowMapMore(StoreJobs(db, front).canonical, rows, job.block.Height(), job.block.hash);
        rows := rows + [(job.block.Height(), job.block.hash)];
      }
    }
    assert staged[..|staged|] == staged;
  }

  method StageJob(db: Db, batch: seq<Write>, job: Job) returns (staged: seq<Write>)
    ensures var before := Commit(db, batch);
            var stored := before.(blocks := before.blocks[job.block.hash := job.block],
                                  headers := before.headers[job.block.hash := job.block.header]);
            Commit(db, staged) == if job.canonical
                                  then stored.(canonical := stored.canonical[job.block.Height() := job.block.hash])
                                  else stored
  {
    var b := job.block;
    CommitTwo(db, batch, PutBody(b.hash, b), PutHeader(b.hash, b.header));
    staged := batch + [PutBody(b.hash, b), PutHeader(b.hash, b.header)];
    if job.canonical {
      CommitOne(db, staged, PutRow(b.Height(), b.hash));
      staged := staged + [PutRow(b.Height(), b.hash)];
    }
  }

  // ---------------------------------------------------------------- the worker

  datatype Event = Received(job: Job) | TimerFired | Closed

  /** Jobs collected and not yet flushed, the batches flushed so far, and whether the worker has stopped. */
  datatype Worker = Worker(buf: seq<Job>, batches: seq<seq<Job>>, done: bool)

  function Flushed(w: Worker): (r: Worker) { w.(buf := [], batches := w.batches + [w.buf]) }

  function WorkerStep(w: Worker, batchSize: nat, e: Event): (r: Worker) {
    if w.done then w
    else match e
      case Received(job) =>
        if |w.buf| + 1 >= batchSize then Flushed(w.(buf := w.buf + [job])) else w.(buf := w.buf + [job])
      case TimerFired => if w.buf == [] then w else Flushed(w)
      case Closed => if w.buf == [] then w.(done := true) else Flushed(w).(done := true)
  }

  function WorkerRun(batchSize: nat, events: seq<Event>): (r: Worker) {
    if events == [] then Worker([], [], false)
    else WorkerStep(WorkerRun(batchSize, events[..|events| - 1]), batchSize, events[|events| - 1])
  }

  lemma WorkerRunMore(batchSize: nat, events: seq<Event>, p: nat)
    requires p < |events|
    ensures WorkerRun(batchSize, events[..p + 1]) == WorkerStep(WorkerRun(batchSize, events[..p]), batchSize, events[p])
  {
    assert events[..p + 1][..p] == events[..p];
  }

  lemma {:induction false} StoppedStays(batchSize: nat, events: seq<Event>, p: nat)
    requires p <= |events| && WorkerRun(batchSize, events[..p]).done
    ensures WorkerRun(batchSize, events) == WorkerRun(batchSize, events[..p])
    decreases |events| - p
  {
    if p < |events| {
      WorkerRunMore(batchSize, events, p);
      StoppedStays(batchSize, events, p + 1);
    } else {
      assert events[..p] == events;
    }
  }

  /** `run_write_pipeline` over a given interleaving: wait for a first job, then collect until full, timer or close. */
  method RunWritePipeline(batchSize: nat, events: seq<Event>) returns (w: Worker)
    ensures w == WorkerRun(batchSize, events)
  {
    w := Worker([], [], false);
    var p := 0;
    while p < |events|
      invariant p <= |events|
      invariant w == WorkerRun(batchSize, events[..p]) && !w.done
      invariant w.buf == [] || p == |events|
    {
      WorkerRunMore(batchSize, events, p);
      var first := events[p];
      p := p + 1;
      match first {
        case TimerFired => continue;
        case Closed =>
          w := w.(done := true);
          StoppedStays(batchSize, events, p);
          return;
        case Received(job) => w := w.(buf := [job]);
      }
      assert [first.job] == [] + [first.job];
      if |w.buf| >= batchSize {
        w := Flushed(w);
        continue;
      }
      while p < |events|
        invariant p <= |events|
        invariant w == WorkerRun(batchSize, events[..p]) && !w.done && w.buf != []
      {
        WorkerRunMore(batchSize, events, p);
        var next := events[p];
        p := p + 1;
        match next {
          case Closed =>
            w := Flushed(w).(done := true);
            StoppedStays(batchSize, events, p);
            return;
          case TimerFired =>
            w := Flushed(w);
            break;
          case Received(job) =>
            w := w.(buf := w.buf + [job]);
            if |w.buf| >= batchSize {
              w := Flushed(w);
              break;
            }
        }
      }
    }
    assert events[..p] == events;
  }

  /** The jobs that arrive before the channel closes. */
  function Arrivals(events: seq<Event>): (r: seq<Job>) {
    if events == [] then []
    else
      var last := events[|events| - 1];
      if last.Received? && Closed !in events[..|events| - 1] then Arrivals(events[..|events| - 1]) + [last.job]
      else Arrivals(events[..|events| - 1])
  }

  function Concat(batches: seq<seq<Job>>): (r: seq<Job>) {
    if batches == [] then [] else Concat(batches[..|batches| - 1]) + batches[|batches| - 1]
  }

  lemma ConcatMore(batches: seq<seq<Job>>, b: seq<Job>)
    ensures Concat(batches + [b]) == Concat(batches) + b
  {
    assert (batches + [b])[..|batches|] == batches;
  }

  /** The batches and the buffer hold exactly the arrivals; batches are neither empty nor too long. */
  ghost predicate Accounted(w: Worker, batchSize: nat, arrivals: seq<Job>) {
    && Concat(w.batches) + w.buf == arrivals
    && (forall i | 0 <= i < |w.batches| :: 1 <= |w.batches[i]| <= batchSize)
    && |w.buf| < batchSize
    && (w.done ==> w.buf == [])
  }

  lemma NothingAccounted(batchSize: nat)
    requires batchSize >= 1
    ensures Accounted(Worker([], [], false), batchSize, [])
  {
  }

  lemma FlushedAccounted(w: Worker, batchSize: nat, arrivals: seq<Job>)
    requires batchSize >= 1 && Concat(w.batches) + w.buf == arrivals && 1 <= |w.buf| <= batchSize
    requires forall i | 0 <= i < |w.batches| :: 1 <= |w.batches[i]| <= batchSize
    ensures Accounted(Flushed(w), batchSize, arrivals)
  {
    hide Concat;
    ConcatMore(w.batches, w.buf);
  }

  lemma StepAccounted(w: Worker, batchSize: nat, arrivals: seq<Job>, e: Event)
    requires batchSize >= 1 && Accounted(w, batchSize, arrivals)
    ensures Accounted(WorkerStep(w, batchSize, e), batchSize,
                      if e.Received? && !w.done then arrivals + [e.job] else arrivals)
  {
    hide Concat;
    if !w.done {
      if e.Received? {
        assert Concat(w.batches) + (w.buf + [e.job]) == arrivals + [e.job];
        if |w.buf| + 1 >= batchSize {
          FlushedAccounted(w.(buf := w.buf + [e.job]), batchSize, arrivals + [e.job]);
        }
      } else if w.buf != [] {
        FlushedAccounted(w, batchSize, arrivals);
      }
    }
  }

  /**
   For every interleaving: flushed batches and buffer together are exactly the arrivals in order, each batch has
   1..=batchSize jobs, and once the channel has closed nothing is left in the buffer.
   */
  lemma {:induction false} WorkerLosesNothing(batchSize: nat, events: seq<Event>)
    requires batchSize >= 1
    ensures Accounted(WorkerRun(batchSize, events), batchSize, Arrivals(events))
    ensures WorkerRun(batchSize, events).done <==> Closed in events
  {
    hide Concat, Accounted;
    if events == [] {
      assert Accounted(Worker([], [], false), batchSize, []) by { NothingAccounted(batchSize); }
    } else {
      var front, last := events[..|events| - 1], events[|events| - 1];
      WorkerLosesNothing(batchSize, front);
      assert Closed in events <==> Closed in front || last == Closed by { assert events == front + [last]; }
      StepAccounted(WorkerRun(batchSize, front), batchSize, Arrivals(front), last);
    }
  }

  // ---------------------------------------------------------------- where the batches are cut

  /** The jobs that arrive between one timer and the next; the close ends a wave like a timer. The last wave is open. */
  function Waves(events: seq<Event>): (r: seq<seq<Job>>)
    ensures r != []
  {
    if events == [] then [[]]
    else
      var before, last := Waves(events[..|events| - 1]), events[|events| - 1];
      if Closed in events[..|events| - 1] then before
      else if last.Received? then before[|before| - 1 := before[|before| - 1] + [last.job]]
      else before + [[]]
  }

  /** Full batches, from the front. */
  function Chunks(jobs: seq<Job>, size: nat): (r: seq<seq<Job>>)
    requires size >= 1
  {
    if |jobs| < size then [] else [jobs[..size]] + Chunks(jobs[size..], size)
  }

  /** What is left after the full batches. */
  function Leftover(jobs: seq<Job>, size: nat): (r: seq<Job>)
    requires size >= 1
    ensures |r| < size
  {
    if |jobs| < size then jobs else Leftover(jobs[size..], size)
  }

  /** The batches of a wave that has ended. */
  function Cut(jobs: seq<Job>, size: nat): (r: seq<seq<Job>>)
    requires size >= 1
  {
    Chunks(jobs, size) + if Leftover(jobs, size) == [] then [] else [Leftover(jobs, size)]
  }

  function CutAll(waves: seq<seq<Job>>, size: nat): (r: seq<seq<Job>>)
    requires size >= 1
  {
    if waves == [] then [] else CutAll(waves[..|waves| - 1], size) + Cut(waves[|waves| - 1], size)
  }

  lemma {:induction false} ChunksMore(jobs: seq<Job>, job: Job, size: nat)
    requires size >= 1
    ensures var rest := Leftover(jobs, size) + [job];
            if |rest| == size
            then Chunks(jobs + [job], size) == Chunks(jobs, size) + [rest] && Leftover(jobs + [job], size) == []
            else Chunks(jobs + [job], size) == Chunks(jobs, size) && Leftover(jobs + [job], size) == rest
    decreases |jobs|
  {
    var more := jobs + [job];
    if |jobs| >= size {
      ChunksMore(jobs[size..], job, size);
      assert more[size..] == jobs[size..] + [job];
      assert more[..size] == jobs[..size];
    } else if |more| == size {
      assert more[..size] == more;
      assert more[size..] == [];
      assert Chunks(more, size) == [more] + Chunks([], size);
    }
  }

  /** The worker's batches are the ended waves, cut, and the full batches of the open one; it holds what is left of that. */
  ghost predicate CutRight(w: Worker, waves: seq<seq<Job>>, size: nat)
    requires size >= 1 && waves != []
  {
    var ended, open := waves[..|waves| - 1], waves[|waves| - 1];
    w.batches == CutAll(ended, size) + Chunks(open, size) && w.buf == Leftover(open, size)
  }

  lemma StepCutsRight(w: Worker, waves: seq<seq<Job>>, size: nat, e: Event)
    requires size >= 1 && waves != [] && !w.done && CutRight(w, waves, size)
    ensures CutRight(WorkerStep(w, size, e),
                     if e.Received? then waves[|waves| - 1 := waves[|waves| - 1] + [e.job]] else waves + [[]], size)
  {
    hide CutAll;
    var ended, open := waves[..|waves| - 1], waves[|waves| - 1];
    match e
    case Received(job) =>
      ChunksMore(open, job, size);
      assert waves[|waves| - 1 := open + [job]][..|waves| - 1] == ended;
    case _ =>
      assert (waves + [[]])[..|waves|] == waves;
      assert CutAll(waves, size) == CutAll(ended, size) + Cut(open, size) by { CutMore(waves, size); }
  }

  lemma CutMore(waves: seq<seq<Job>>, size: nat)
    requires size >= 1 && waves != []
    ensures CutAll(waves, size) == CutAll(waves[..|waves| - 1], size) + Cut(waves[|waves| - 1], size)
  {
  }

  /**
   For every interleaving the batches are cut exactly there: after every batchSize-th job since the last timer, at a
   timer when jobs are waiting, and at the close when jobs are waiting; nowhere else, and nothing waits longer.
   */
  lemma {:induction false} BatchesAreCutExactly(batchSize: nat, events: seq<Event>)
    requires batchSize >= 1
    ensures CutRight(WorkerRun(batchSize, events), Waves(events), batchSize)
    ensures WorkerRun(batchSize, events).done <==> Closed in events
  {
    hide CutRight, WorkerStep, Accounted;
    WorkerLosesNothing(batchSize, events);
    if events == [] {
      assert CutRight(Worker([], [], false), [[]], batchSize) by { NothingCut(batchSize); }
    } else {
      var front, last := events[..|events| - 1], events[|events| - 1];
      BatchesAreCutExactly(batchSize, front);
      var w := WorkerRun(batchSize, front);
      if w.done {
        assert WorkerStep(w, batchSize, last) == w by { StoppedStep(w, batchSize, last); }
      } else {
        StepCutsRight(w, Waves(front), batchSize, last);
      }
    }
  }

  lemma NothingCut(size: nat)
    requires size >= 1
    ensures CutRight(Worker([], [], false), [[]], size)
  {
  }

  lemma StoppedStep(w: Worker, size: nat, e: Event)
    requires w.done
    ensures WorkerStep(w, size, e) == w
  {
  }

  /** When the timer fires nothing waits any more: every arrival so far is in a flushed batch. */
  lemma TimerLeavesNothingWaiting(batchSize: nat, events: seq<Event>)
    requires batchSize >= 1
    ensures var w := WorkerRun(batchSize, events + [TimerFired]);
            w.buf == [] && Concat(w.batches) == Arrivals(events)
  {
    var more := events + [TimerFired];
    assert more[..|events|] == events;
    WorkerLosesNothing(batchSize, events);
    WorkerLosesNothing(batchSize, more);
    assert Arrivals(more) == Arrivals(events);
    assert Concat(WorkerRun(batchSize, more).batches) + [] == Concat(WorkerRun(batchSize, more).batches);
  }

  // ---------------------------------------------------------------- the whole pipeline

  /** Flush each batch in turn. */
  ghost function FlushAll(s: Store, batches: seq<seq<Job>>): (r: (Store, seq<Result<bool>>)) {
    if batches == [] then (s, [])
    else
      var before := FlushAll(s, batches[..|batches| - 1]);
      var last := Flush(before.0, batches[|batches| - 1]);
      (last.0, before.1 + last.1)
  }

  lemma {:induction false} SequentialSplits(s: Store, a: seq<Job>, b: seq<Job>)
    ensures Sequential(s, a + b).0 == Sequential(Sequential(s, a).0, b).0
    ensures Sequential(s, a + b).1 == Sequential(s, a).1 + Sequential(Sequential(s, a).0, b).1
    decreases |b|
  {
    if b == [] {
      assert a + b == a;
    } else {
      var front := b[..|b| - 1];
      SequentialSplits(s, a, front);
      assert (a + b)[..|a + b| - 1] == a + front;
    }
  }

  lemma {:induction false} SequentialIgnoresCache(s: Store, t: Store, jobs: seq<Job>)
    requires SameButCache(s, t)
    ensures SameButCache(Sequential(s, jobs).0, Sequential(t, jobs).0)
    ensures Sequential(s, jobs).1 == Sequential(t, jobs).1
  {
    hide Put;
    if jobs != [] {
      var front, job := jobs[..|jobs| - 1], jobs[|jobs| - 1];
      SequentialIgnoresCache(s, t, front);
      PutIgnoresCache(Sequential(s, front).0, Sequential(t, front).0, job.block, job.canonical);
    }
  }

  lemma {:induction false} FlushAllRefinesSequential(s: Store, batches: seq<seq<Job>>)
    ensures SameButCache(FlushAll(s, batches).0, Sequential(s, Concat(batches)).0)
    ensures FlushAll(s, batches).1 == Sequential(s, Concat(batches)).1
  {
    hide Flush, Sequential;
    if batches == [] {
      assert Sequential(s, []) == (s, []) by { SequentialNothing(s); }
    } else {
      var front, last := batches[..|batches| - 1], batches[|batches| - 1];
      FlushAllRefinesSequential(s, front);
      var flushed, run := FlushAll(s, front).0, Sequential(s, Concat(front)).0;
      FlushRefinesSequentialPuts(flushed, last);
      SequentialIgnoresCache(flushed, run, last);
      SequentialSplits(s, Concat(front), last);
    }
  }

  lemma SequentialNothing(s: Store)
    ensures Sequential(s, []) == (s, [])
  {
  }

  /**
   The pipeline as a whole: whatever the interleaving, once the channel has closed the store is that of `put_block`
   called on the arrivals in order, but for the height cache, and the same jobs have been stored and turned down.
   */
  lemma PipelineIsSequentialPuts(s: Store, batchSize: nat, events: seq<Event>)
    requires batchSize >= 1 && Closed in events
    ensures var batches := WorkerRun(batchSize, events).batches;
            && SameButCache(FlushAll(s, batches).0, Sequential(s, Arrivals(events)).0)
            && FlushAll(s, batches).1 == Sequential(s, Arrivals(events)).1
            && |FlushAll(s, batches).1| == |Arrivals(events)|
  {
    hide Sequential, FlushAll, WorkerRun, Arrivals, Concat, SameButCache;
    WorkerLosesNothing(batchSize, events);
    var w := WorkerRun(batchSize, events);
    assert Concat(w.batches) + [] == Concat(w.batches);
    FlushAllRefinesSequential(s, WorkerRun(batchSize, events).batches);
  }
}
