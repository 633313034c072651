/** Block payload compression and the one-time dictionary (src/compression.rs). */
module Compression {
  import opened ChainTypes
  import opened Encoding

  const DICT_TRAINING_THRESHOLD: nat := 1000

  /**
   The codecs the store calls: bincode for blocks, plain zstd frames, and zstd frames with a dictionary. The
   dictionary decoder takes an upper bound on the output size; the plain one has none. A genuine block is one whose
   hash is the digest of its header: bincode leaves the hash out, so only such a block can come back whole.
   */
  datatype Zstd = Zstd(
    genuine: Block -> bool,
    serialize: Block -> Bytes,
    deserialize: Bytes -> Option<Block>,
    plain: Bytes -> Bytes,
    unplain: Bytes -> Option<Bytes>,
    dict: (Bytes, Bytes) -> Bytes,
    undict: (Bytes, Bytes, nat) -> Option<Bytes>)

  /**
   Decoding inverts encoding, for genuine blocks; a dictionary frame decodes under its dictionary exactly when the output fits the bound;
   decoding a plain frame with a dictionary fails or returns the original.
   */
  ghost predicate Lawful(z: Zstd) {
    && (forall b | z.genuine(b) :: z.deserialize(z.serialize(b)) == Some(b))
    && (forall x :: z.unplain(z.plain(x)) == Some(x))
    && (forall d, x, cap :: z.undict(d, z.dict(d, x), cap) == if |x| <= cap then Some(x) else None)
    && (forall d, x, cap :: z.undict(d, z.plain(x), cap) == None || z.undict(d, z.plain(x), cap) == Some(x))
  }

  // ---------------------------------------------------------------- codecs that obey the laws

  /** Header fields and body, without the hash. */
  function Packed(b: Block): (r: Bytes) {
    LittleEndian(b.header.height, 8) + b.header.parent + b.header.stateRoot + b.body
  }

  /** A block read back, with the hash computed from its header. */
  function Unpacked(digest: Header -> Hash, bytes: Bytes): (r: Option<Block>) {
    if |bytes| < 72 || FromLittleEndian(bytes[..8]) >= SLOT_LIMIT then None
    else
      var header := Header(FromLittleEndian(bytes[..8]), bytes[8..40], bytes[40..72]);
      Some(Block(digest(header), header, bytes[72..]))
  }

  lemma UnpackedPacked(digest: Header -> Hash, b: Block)
    requires b.hash == digest(b.header)
    ensures Unpacked(digest, Packed(b)) == Some(b)
  {
    hide LittleEndian, FromLittleEndian;
    var bytes := Packed(b);
    EightBytes();
    LittleEndianRoundTrip(b.header.height, 8, []);
    assert bytes[..8] == LittleEndian(b.header.height, 8);
    assert bytes[8..40] == b.header.parent && bytes[40..72] == b.header.stateRoot && bytes[72..] == b.body;
  }

  function Tagged(tag: Byte, bytes: Bytes): (r: Bytes) { [tag] + bytes }

  function Untagged(tag: Byte, bytes: Bytes): (r: Option<Bytes>) {
    if bytes != [] && bytes[0] == tag then Some(bytes[1..]) else None
  }

  /** A serializer that leaves the hash out, and frames told apart by a tag. */
  function TaggedCodec(digest: Header -> Hash): (r: Zstd) {
    Zstd(
      (b: Block) => b.hash == digest(b.header), Packed, bytes => Unpacked(digest, bytes),
      bytes => Tagged(0, bytes), bytes => Untagged(0, bytes),
      (_: Bytes, bytes: Bytes) => Tagged(1, bytes),
      (_: Bytes, bytes: Bytes, cap: nat) => if |bytes| <= cap + 1 then Untagged(1, bytes) else None)
  }

  lemma TagReadsBack(tag: Byte, bytes: Bytes)
    ensures Untagged(tag, Tagged(tag, bytes)) == Some(bytes)
  {
    assert Tagged(tag, bytes)[1..] == bytes;
  }

  /** The laws can be met by a serializer that leaves the hash out, for any digest of the header. */
  lemma HashFreeCodecIsLawful(digest: Header -> Hash)
    ensures Lawful(TaggedCodec(digest))
  {
    hide Packed, Unpacked;
    var z := TaggedCodec(digest);
    forall b | z.genuine(b) ensures z.deserialize(z.serialize(b)) == Some(b) { UnpackedPacked(digest, b); }
    forall x ensures z.unplain(z.plain(x)) == Some(x) { TagReadsBack(0, x); }
    forall d, x, cap ensures z.undict(d, z.dict(d, x), cap) == if |x| <= cap then Some(x) else None { TagReadsBack(1, x); }
    forall d, x, cap ensures z.undict(d, z.plain(x), cap) == None { assert Untagged(1, Tagged(0, x)) == None; }
  }

  /** The codec state of a handle: rows of CF_BLOCKS, the metadata dictionary, and the dictionary in memory. */
  datatype State = State(rows: map<Hash, Bytes>, meta: Option<Bytes>, live: Option<Bytes>, useDict: bool, cap: nat)

  /** `load_zstd_dict_from_db`: disabled, missing and empty all load as nothing. */
  function LoadDict(meta: Option<Bytes>, useDict: bool): (r: Option<Bytes>) {
    if useDict && meta.Some? && meta.value != [] then meta else None
  }

  /** `serialize_block`. */
  function SerializeBlock(z: Zstd, s: State, b: Block): (r: Bytes) {
    if s.useDict && s.live.Some? then z.dict(s.live.value, z.serialize(b)) else z.plain(z.serialize(b))
  }

  /** `decompress_block_payload`: dictionary first when there is one, then the plain fallback. */
  function Decompress(z: Zstd, s: State, payload: Bytes): (r: Option<Bytes>) {
    if s.useDict && s.live.Some? then
      match z.undict(s.live.value, payload, s.cap)
      case Some(raw) => Some(raw)
      case None => z.unplain(payload)
    else z.unplain(payload)
  }

  /** `deserialize_block`. */
  function DeserializeBlock(z: Zstd, s: State, payload: Bytes): (r: Option<Block>) {
    match Decompress(z, s, payload)
    case None => None
    case Some(raw) => z.deserialize(raw)
  }

  /** `block_count`: a scan that counts the rows one by one. */
  method BlockCount(rows: map<Hash, Bytes>) returns (n: nat)
    ensures n == |rows|
  {
    n := 0;
    var todo := rows.Keys;
    while todo != {}
      invariant todo <= rows.Keys && n + |todo| == |rows.Keys|
      decreases todo
    {
      var x :| x in todo;
      todo := todo - {x};
      n := n + 1;
    }
  }

  /**
   `maybe_train_dictionary` with `train_dictionary` inside it. Training draws random samples, so its outcome is an
   input: a non-empty dictionary, or a failure (too few or unreadable samples, or the trainer's own error).
   */
  function MaybeTrain(s: State, trained: Option<Bytes>): (r: State) {
    if !s.useDict || s.live.Some? then s
    else if s.meta.Some? && s.meta.value != [] then s.(live := LoadDict(s.meta, s.useDict))
    else if |s.rows| < DICT_TRAINING_THRESHOLD || trained.None? then s
    else s.(meta := trained, live := trained)
  }

  /** A dictionary is called for and there is none anywhere. */
  predicate Wanting(s: State) { s.useDict && s.live.None? && (s.meta.None? || s.meta.value == []) }

  /** Whether that attempt ends in an error. */
  predicate TrainingFails(s: State, trained: Option<Bytes>) {
    Wanting(s) && |s.rows| >= DICT_TRAINING_THRESHOLD && trained.None?
  }

  /** How many new rows can be put before the one whose put first finds a training due. */
  function RowsToSpare(s: State): (r: nat) {
    if |s.rows| + 1 >= DICT_TRAINING_THRESHOLD then 0 else DICT_TRAINING_THRESHOLD - 1 - |s.rows|
  }

  /** A payload row for a block, in the format of the moment; a stored hash is left alone. */
  function AddRow(z: Zstd, s: State, b: Block): (r: State) {
    if b.hash in s.rows then s else Overwrite(z, s, b)
  }

  function Overwrite(z: Zstd, s: State, b: Block): (r: State) {
    s.(rows := s.rows[b.hash := SerializeBlock(z, s, b)])
  }

  /** The rows of one batch: all serialized before any training. */
  function AddRows(z: Zstd, s: State, blocks: seq<Block>): (r: State) {
    if blocks == [] then s else AddRow(z, AddRows(z, s, blocks[..|blocks| - 1]), blocks[|blocks| - 1])
  }

  /** One training attempt after another. */
  function TrainAll(s: State, trained: seq<Option<Bytes>>): (r: State) {
    if trained == [] then s else MaybeTrain(TrainAll(s, trained[..|trained| - 1]), trained[|trained| - 1])
  }

  /** `init_dictionary`, and what an open without an override does. */
  function Reload(s: State): (r: State) { s.(live := LoadDict(s.meta, s.useDict)) }

  datatype Step =
    | PutRow(block: Block, trained: Option<Bytes>)
    | GenesisRow(block: Block, trained: Option<Bytes>)
    | FlushRows(blocks: seq<Block>, trainings: seq<Option<Bytes>>)
    | InitDictionary
    | Prune(gone: set<Hash>)
    | Reopen

  /**
   One step. Genesis writes its row whatever was there. A flush serializes its whole batch first and attempts a
   training per staged job after the commit. A reopen keeps the configuration and has no dictionary override; a crash
   before the dictionary row is written is a step whose training failed, followed by a reopen.
   */
  function Next(z: Zstd, s: State, step: Step): (r: State) {
    match step
    case PutRow(b, trained) => if b.hash in s.rows then s else MaybeTrain(AddRow(z, s, b), trained)
    case GenesisRow(b, trained) => MaybeTrain(Overwrite(z, s, b), trained)
    case FlushRows(blocks, trained) => TrainAll(AddRows(z, s, blocks), trained)
    case InitDictionary => Reload(s)
    case Prune(gone) => s.(rows := s.rows - gone)
    case Reopen => Reload(s)
  }

  function Run(z: Zstd, s: State, steps: seq<Step>): (r: State) {
    if steps == [] then s else Next(z, Run(z, s, steps[..|steps| - 1]), steps[|steps| - 1])
  }

  /** The trainer never returns an empty dictionary. */
  ghost predicate TrainedWell(trained: seq<Option<Bytes>>) {
    forall i | 0 <= i < |trained| :: trained[i] != Some([])
  }

  function Trainings(step: Step): (r: seq<Option<Bytes>>) {
    match step
    case PutRow(_, trained) => [trained]
    case GenesisRow(_, trained) => [trained]
    case FlushRows(_, trained) => trained
    case _ => []
  }

  ghost predicate TrainsWell(steps: seq<Step>) {
    forall i | 0 <= i < |steps| :: TrainedWell(Trainings(steps[i]))
  }

  lemma TrainsWellSplits(a: seq<Step>, b: seq<Step>)
    requires TrainsWell(a + b)
    ensures TrainsWell(a) && TrainsWell(b)
  {
    assert forall i | 0 <= i < |a| :: a[i] == (a + b)[i];
    assert forall i | 0 <= i < |b| :: b[i] == (a + b)[|a| + i];
  }

  // ---------------------------------------------------------------- the dictionary is installed once

  /** The dictionary in force: what the metadata holds, if it counts. */
  ghost predicate Settled(s: State) { s.live == LoadDict(s.meta, s.useDict) }

  /** Same configuration, dictionary still settled, and kept if there was one. */
  ghost predicate Continues(s: State, t: State) {
    && Settled(t) && t.useDict == s.useDict && t.cap == s.cap
    && (s.live.Some? ==> t.live == s.live && t.meta == s.meta)
  }

  lemma {:induction false} AddRowsKeepsDict(z: Zstd, s: State, blocks: seq<Block>)
    ensures AddRows(z, s, blocks) == s.(rows := AddRows(z, s, blocks).rows)
  {
    if blocks != [] { AddRowsKeepsDict(z, s, blocks[..|blocks| - 1]); }
  }

  lemma {:induction false} TrainAllContinues(s: State, trained: seq<Option<Bytes>>)
    requires Settled(s) && TrainedWell(trained)
    ensures Continues(s, TrainAll(s, trained)) && TrainAll(s, trained).rows == s.rows
  {
    if trained != [] { TrainAllContinues(s, trained[..|trained| - 1]); }
  }

  lemma NextContinues(z: Zstd, s: State, step: Step)
    requires Settled(s) && TrainedWell(Trainings(step))
    ensures Continues(s, Next(z, s, step))
  {
    match step
    case FlushRows(blocks, trained) =>
      AddRowsKeepsDict(z, s, blocks);
      TrainAllContinues(AddRows(z, s, blocks), trained);
    case PutRow(_, trained) => assert Trainings(step)[0] == trained;
    case GenesisRow(_, trained) => assert Trainings(step)[0] == trained;
    case _ =>
  }

  /** Once some dictionary is in force it is in force for ever. */
  lemma {:induction false} DictionaryIsInstalledOnce(z: Zstd, s: State, steps: seq<Step>)
    requires Settled(s) && TrainsWell(steps)
    ensures Settled(Run(z, s, steps))
    ensures Run(z, s, steps).useDict == s.useDict && Run(z, s, steps).cap == s.cap
    ensures s.live.Some? ==> Run(z, s, steps).live == s.live && Run(z, s, steps).meta == s.meta
  {
    hide Next;
    if steps != [] {
      DictionaryIsInstalledOnce(z, s, steps[..|steps| - 1]);
      NextContinues(z, Run(z, s, steps[..|steps| - 1]), steps[|steps| - 1]);
    }
  }

  /** Over any run there is at most one change, from no dictionary to the one that stays. */
  lemma DictionaryChangesAtMostOnce(z: Zstd, s: State, steps: seq<Step>, i: nat, j: nat)
    requires Settled(s) && i <= j <= |steps| && TrainsWell(steps)
    ensures Run(z, s, steps[..i]).live.Some? ==> Run(z, s, steps[..j]).live == Run(z, s, steps[..i]).live
  {
    hide Run, Next, TrainsWell;
    assert steps[..j] == steps[..i] + steps[i..j] && steps == steps[..j] + steps[j..];
    TrainsWellSplits(steps[..j], steps[j..]);
    TrainsWellSplits(steps[..i], steps[i..j]);
    DictionaryIsInstalledOnce(z, s, steps[..i]);
    DictionaryIsInstalledOnce(z, Run(z, s, steps[..i]), steps[i..j]);
    RunSplits(z, s, steps[..i], steps[i..j]);
  }

  lemma {:induction false} RunSplits(z: Zstd, s: State, a: seq<Step>, b: seq<Step>)
    ensures Run(z, s, a + b) == Run(z, Run(z, s, a), b)
    decreases |b|
  {
    if b == [] {
      assert a + b == a;
    } else {
      RunSplits(z, s, a, b[..|b| - 1]);
      assert (a + b)[..|a + b| - 1] == a + b[..|b| - 1];
    }
  }

  // ---------------------------------------------------------------- which dictionary is installed

  function HashesOf(blocks: seq<Block>): (r: set<Hash>) {
    if blocks == [] then {} else HashesOf(blocks[..|blocks| - 1]) + {blocks[|blocks| - 1].hash}
  }

  /** The hashes with a row after a step. */
  function HashesAfter(hashes: set<Hash>, step: Step): (r: set<Hash>) {
    match step
    case PutRow(b, _) => hashes + {b.hash}
    case GenesisRow(b, _) => hashes + {b.hash}
    case FlushRows(blocks, _) => hashes + HashesOf(blocks)
    case Prune(gone) => hashes - gone
    case _ => hashes
  }

  /** One attempt: how many rows there are then, and what the trainer would yield. */
  datatype Attempt = Attempt(rows: nat, outcome: Option<Bytes>)

  /** The attempts of a step: one per block stored, counting the whole batch; none for a put that stores nothing. */
  function Attempts(hashes: set<Hash>, step: Step): (r: seq<Attempt>) {
    var n := |HashesAfter(hashes, step)|;
    match step
    case PutRow(b, trained) => if b.hash in hashes then [] else [Attempt(n, trained)]
    case GenesisRow(_, trained) => [Attempt(n, trained)]
    case FlushRows(_, trained) => seq(|trained|, i requires 0 <= i < |trained| => Attempt(n, trained[i]))
    case _ => []
  }

  function RunHashes(hashes: set<Hash>, steps: seq<Step>): (r: set<Hash>) {
    if steps == [] then hashes else HashesAfter(RunHashes(hashes, steps[..|steps| - 1]), steps[|steps| - 1])
  }

  function RunAttempts(hashes: set<Hash>, steps: seq<Step>): (r: seq<Attempt>) {
    if steps == [] then []
    else
      var front := steps[..|steps| - 1];
      RunAttempts(hashes, front) + Attempts(RunHashes(hashes, front), steps[|steps| - 1])
  }

  /** The outcome of the first attempt that is due, with a thousand rows or more, and does not fail. */
  function FirstTrained(attempts: seq<Attempt>): (r: Option<Bytes>) {
    if attempts == [] then None
    else if attempts[0].rows >= 1000 && attempts[0].outcome.Some? then attempts[0].outcome
    else FirstTrained(attempts[1..])
  }

  lemma {:induction false} FirstTrainedSplits(a: seq<Attempt>, b: seq<Attempt>)
    ensures FirstTrained(a + b) == if FirstTrained(a).Some? then FirstTrained(a) else FirstTrained(b)
  {
    if a == [] {
      assert a + b == b;
    } else {
      FirstTrainedSplits(a[1..], b);
      assert (a + b)[1..] == a[1..] + b;
    }
  }

  /** No dictionary is in force, and none is stored that would count. */
  ghost predicate Untrained(s: State) { s.live.None? && (s.meta.None? || s.meta.value == []) }

  /** From a state without a dictionary: the attempts decide which one there is, in memory and in the metadata. */
  ghost predicate TrainedBy(s: State, t: State, attempts: seq<Attempt>) {
    var found := if s.useDict then FirstTrained(attempts) else None;
    && t.useDict == s.useDict && t.live == found && t.meta == (if found.Some? then found else s.meta)
    && (found.Some? ==> found.value != [])
  }

  lemma {:induction false} AddRowsHashes(z: Zstd, s: State, blocks: seq<Block>)
    ensures AddRows(z, s, blocks).rows.Keys == s.rows.Keys + HashesOf(blocks)
  {
    hide SerializeBlock;
    if blocks != [] {
      var front, b := blocks[..|blocks| - 1], blocks[|blocks| - 1];
      AddRowsHashes(z, s, front);
      var before := AddRows(z, s, front);
      assert AddRow(z, before, b).rows.Keys == before.rows.Keys + {b.hash};
    }
  }

  lemma {:induction false} TrainAllBy(s: State, t: State, earlier: seq<Attempt>, outcomes: seq<Option<Bytes>>)
    requires TrainedBy(s, t, earlier) && Untrained(s) && TrainedWell(outcomes)
    ensures var now := seq(|outcomes|, i requires 0 <= i < |outcomes| => Attempt(|t.rows|, outcomes[i]));
            TrainedBy(s, TrainAll(t, outcomes), earlier + now) && TrainAll(t, outcomes).rows == t.rows
  {
    var now := seq(|outcomes|, i requires 0 <= i < |outcomes| => Attempt(|t.rows|, outcomes[i]));
    if outcomes == [] {
      assert earlier + now == earlier;
    } else {
      var front, last := outcomes[..|outcomes| - 1], outcomes[|outcomes| - 1];
      TrainAllBy(s, t, earlier, front);
      var before := earlier + seq(|front|, i requires 0 <= i < |front| => Attempt(|t.rows|, front[i]));
      assert earlier + now == before + [Attempt(|t.rows|, last)];
      OneMoreAttempt(s, TrainAll(t, front), before, last);
    }
  }

  lemma OneMoreAttempt(s: State, t: State, earlier: seq<Attempt>, trained: Option<Bytes>)
    requires TrainedBy(s, t, earlier) && Untrained(s) && trained != Some([])
    ensures TrainedBy(s, MaybeTrain(t, trained), earlier + [Attempt(|t.rows|, trained)])
  {
    FirstTrainedSplits(earlier, [Attempt(|t.rows|, trained)]);
    assert FirstTrained([Attempt(|t.rows|, trained)][1..]) == None;
  }

  lemma StepTrainedBy(z: Zstd, s: State, t: State, earlier: seq<Attempt>, step: Step)
    requires Untrained(s) && TrainedBy(s, t, earlier) && TrainedWell(Trainings(step))
    ensures Next(z, t, step).rows.Keys == HashesAfter(t.rows.Keys, step)
    ensures TrainedBy(s, Next(z, t, step), earlier + Attempts(t.rows.Keys, step))
  {
    hide SerializeBlock, FirstTrained, MaybeTrain, Untrained, AddRows, TrainAll, TrainedBy, Overwrite;
    match step
    case PutRow(b, trained) =>
      if b.hash in t.rows {
        assert t.rows.Keys + {b.hash} == t.rows.Keys;
        assert earlier + [] == earlier;
      } else {
        assert Trainings(step)[0] == trained;
        OneRowMore(z, t, b);
        RowAdded(s, t, Overwrite(z, t, b), earlier, b.hash, trained);
      }
    case GenesisRow(b, trained) =>
      assert Trainings(step)[0] == trained;
      OneRowMore(z, t, b);
      RowAdded(s, t, Overwrite(z, t, b), earlier, b.hash, trained);
    case FlushRows(blocks, trained) => BatchTrainedBy(z, s, t, earlier, blocks, trained);
    case _ =>
      assert earlier + [] == earlier;
      DictionaryUntouched(z, s, t, earlier, step);
  }

  lemma OneRowMore(z: Zstd, t: State, b: Block)
    ensures Overwrite(z, t, b) == t.(rows := Overwrite(z, t, b).rows)
    ensures Overwrite(z, t, b).rows.Keys == t.rows.Keys + {b.hash}
  {
    hide SerializeBlock;
  }

  lemma DictionaryUntouched(z: Zstd, s: State, t: State, earlier: seq<Attempt>, step: Step)
    requires Untrained(s) && TrainedBy(s, t, earlier) && (step.InitDictionary? || step.Prune? || step.Reopen?)
    ensures Next(z, t, step).rows.Keys == HashesAfter(t.rows.Keys, step)
    ensures TrainedBy(s, Next(z, t, step), earlier)
  {
    hide FirstTrained;
  }

  lemma BatchTrainedBy(
    z: Zstd, s: State, t: State, earlier: seq<Attempt>, blocks: seq<Block>, outcomes: seq<Option<Bytes>>)
    requires Untrained(s) && TrainedBy(s, t, earlier) && TrainedWell(outcomes)
    ensures var step := FlushRows(blocks, outcomes);
            && Next(z, t, step).rows.Keys == HashesAfter(t.rows.Keys, step)
            && TrainedBy(s, Next(z, t, step), earlier + Attempts(t.rows.Keys, step))
  {
    hide FirstTrained, AddRows, TrainAll, Untrained;
    AddRowsHashes(z, t, blocks);
    AddRowsKeepsDict(z, t, blocks);
    var added := AddRows(z, t, blocks);
    assert |added.rows| == |added.rows.Keys|;
    TrainAllBy(s, added, earlier, outcomes);
    var n := |HashesAfter(t.rows.Keys, FlushRows(blocks, outcomes))|;
    assert seq(|outcomes|, i requires 0 <= i < |outcomes| => Attempt(|added.rows|, outcomes[i]))
        == seq(|outcomes|, i requires 0 <= i < |outcomes| => Attempt(n, outcomes[i]));
  }

  lemma RowAdded(s: State, t: State, added: State, earlier: seq<Attempt>, x: Hash, trained: Option<Bytes>)
    requires Untrained(s) && TrainedBy(s, t, earlier) && trained != Some([])
    requires added == t.(rows := added.rows) && added.rows.Keys == t.rows.Keys + {x}
    ensures MaybeTrain(added, trained).rows == added.rows
    ensures TrainedBy(s, MaybeTrain(added, trained), earlier + [Attempt(|t.rows.Keys + {x}|, trained)])
  {
    hide FirstTrained;
    OneMoreAttempt(s, added, earlier, trained);
    assert |added.rows| == |added.rows.Keys|;
  }

  /**
   Over any run from a state without a dictionary, with puts, genesis, flushed batches, prunes, reloads and reopens: the
   rows are those of the blocks stored and not pruned, and the dictionary in force, in memory as in the metadata, is
   none, or exactly what the first successful attempt with at least a thousand rows yielded.
   */
  lemma {:induction false} DictionaryIsTheFirstTrained(z: Zstd, s: State, steps: seq<Step>)
    requires Untrained(s) && TrainsWell(steps)
    ensures Run(z, s, steps).rows.Keys == RunHashes(s.rows.Keys, steps)
    ensures TrainedBy(s, Run(z, s, steps), RunAttempts(s.rows.Keys, steps))
  {
    hide Next, TrainedBy, Untrained, HashesAfter, Attempts;
    if steps == [] {
      assert TrainedBy(s, s, []) by { NothingTrained(s); }
    } else {
      var front, last := steps[..|steps| - 1], steps[|steps| - 1];
      DictionaryIsTheFirstTrained(z, s, front);
      StepTrainedBy(z, s, Run(z, s, front), RunAttempts(s.rows.Keys, front), last);
    }
  }

  lemma NothingTrained(s: State)
    requires Untrained(s)
    ensures TrainedBy(s, s, [])
  {
  }

  /** An attempt ends in an error exactly when dictionaries are on, none is in force, there are a thousand rows, and it fails. */
  lemma TrainingFailsExactly(s: State, trained: Option<Bytes>)
    requires Settled(s)
    ensures TrainingFails(s, trained) <==> s.useDict && s.live.None? && |s.rows| >= 1000 && trained.None?
  {
  }

  // ---------------------------------------------------------------- every payload ever written stays readable

  /** The block fits the decompression bound if it is about to be written with a dictionary. */
  predicate Fits(z: Zstd, s: State, b: Block) {
    z.genuine(b) && (s.useDict && s.live.Some? ==> |z.serialize(b)| <= s.cap)
  }

  /** A row written plain, or with the dictionary that is in force. */
  ghost predicate Written(z: Zstd, s: State, payload: Bytes, b: Block) {
    && z.genuine(b)
    && (|| payload == z.plain(z.serialize(b))
        || (s.useDict && s.live.Some? && payload == z.dict(s.live.value, z.serialize(b)) && |z.serialize(b)| <= s.cap))
  }

  /**
   A row written under one codec state decodes under another that is at least as able: the same dictionary (or none in
   use by the writer) and no smaller bound.
   */
  predicate Portable(writer: State, reader: State) {
    writer.useDict && writer.live.Some? ==> reader.useDict && reader.live == writer.live && writer.cap <= reader.cap
  }

  lemma WrittenDecodes(z: Zstd, writer: State, reader: State, payload: Bytes, b: Block)
    requires Lawful(z) && Written(z, writer, payload, b) && Portable(writer, reader)
    ensures DeserializeBlock(z, reader, payload) == Some(b)
  {
    var raw := z.serialize(b);
    assert z.deserialize(raw) == Some(b);
    if payload == z.plain(raw) {
      assert z.unplain(payload) == Some(raw);
    }
  }

  lemma ContinuesKeepsWritten(z: Zstd, s: State, t: State, payload: Bytes, b: Block)
    requires Continues(s, t) && Written(z, s, payload, b)
    ensures Written(z, t, payload, b)
  {
  }

  lemma SerializedIsWritten(z: Zstd, s: State, b: Block)
    requires Fits(z, s, b)
    ensures Written(z, s, SerializeBlock(z, s, b), b)
  {
  }

  /** The step leaves the row of this block alone, or writes the same block again. */
  predicate Spares(z: Zstd, s: State, step: Step, b: Block) {
    match step
    case Prune(gone) => b.hash !in gone
    case GenesisRow(g, _) => g.hash == b.hash ==> g == b && Fits(z, s, b)
    case _ => true
  }

  lemma {:induction false} AddRowsKeeps(z: Zstd, s: State, blocks: seq<Block>, x: Hash)
    requires x in s.rows
    ensures var r := AddRows(z, s, blocks); x in r.rows && r.rows[x] == s.rows[x]
  {
    if blocks != [] { AddRowsKeeps(z, s, blocks[..|blocks| - 1], x); }
  }

  lemma NextKeepsWritten(z: Zstd, s: State, step: Step, b: Block)
    requires Settled(s) && TrainedWell(Trainings(step)) && Spares(z, s, step, b)
    requires b.hash in s.rows && Written(z, s, s.rows[b.hash], b)
    ensures var t := Next(z, s, step); b.hash in t.rows && Written(z, t, t.rows[b.hash], b)
  {
    hide Written;
    NextContinues(z, s, step);
    ContinuesKeepsWritten(z, s, Next(z, s, step), s.rows[b.hash], b);
    match step
    case FlushRows(blocks, trained) =>
      AddRowsKeepsDict(z, s, blocks);
      AddRowsKeeps(z, s, blocks, b.hash);
      TrainAllContinues(AddRows(z, s, blocks), trained);
    case GenesisRow(g, _) =>
      if g.hash == b.hash {
        SerializedIsWritten(z, s, b);
        ContinuesKeepsWritten(z, s, Next(z, s, step), SerializeBlock(z, s, b), b);
      }
    case _ =>
  }

  /** The steps that store a block under a hash not stored before. */
  predicate Stores(s: State, step: Step, b: Block) {
    b.hash !in s.rows &&
    match step
    case PutRow(c, _) => c == b
    case GenesisRow(c, _) => c == b
    case FlushRows(blocks, _) => b in blocks && forall i | 0 <= i < |blocks| && blocks[i].hash == b.hash :: blocks[i] == b
    case _ => false
  }

  lemma {:induction false} BatchIsWritten(z: Zstd, s: State, blocks: seq<Block>, b: Block)
    requires b.hash !in s.rows && Fits(z, s, b)
    requires forall i | 0 <= i < |blocks| && blocks[i].hash == b.hash :: blocks[i] == b
    ensures var r := AddRows(z, s, blocks);
            if b in blocks then b.hash in r.rows && r.rows[b.hash] == SerializeBlock(z, s, b) else b.hash !in r.rows
  {
    if blocks != [] {
      var front := blocks[..|blocks| - 1];
      assert blocks == front + [blocks[|blocks| - 1]];
      BatchIsWritten(z, s, front, b);
      AddRowsKeepsDict(z, s, front);
    }
  }

  lemma StoredIsWritten(z: Zstd, s: State, step: Step, b: Block)
    requires Settled(s) && TrainedWell(Trainings(step)) && Stores(s, step, b) && Fits(z, s, b)
    ensures var t := Next(z, s, step); b.hash in t.rows && Written(z, t, t.rows[b.hash], b)
  {
    hide Written;
    NextContinues(z, s, step);
    SerializedIsWritten(z, s, b);
    ContinuesKeepsWritten(z, s, Next(z, s, step), SerializeBlock(z, s, b), b);
    match step
    case FlushRows(blocks, trained) =>
      BatchIsWritten(z, s, blocks, b);
      AddRowsKeepsDict(z, s, blocks);
      TrainAllContinues(AddRows(z, s, blocks), trained);
    case _ =>
  }

  lemma {:induction false} RowStaysWritten(z: Zstd, s: State, steps: seq<Step>, b: Block)
    requires Settled(s) && TrainsWell(steps) && b.hash in s.rows && Written(z, s, s.rows[b.hash], b)
    requires forall i | 0 <= i < |steps| :: Spares(z, Run(z, s, steps[..i]), steps[i], b)
    ensures var r := Run(z, s, steps);
            b.hash in r.rows && Written(z, r, r.rows[b.hash], b)
  {
    hide Written, Next, Spares;
    if steps != [] {
      var front, last := steps[..|steps| - 1], steps[|steps| - 1];
      assert forall i | 0 <= i < |front| :: front[..i] == steps[..i];
      RowStaysWritten(z, s, front, b);
      DictionaryIsInstalledOnce(z, s, front);
      NextKeepsWritten(z, Run(z, s, front), last, b);
    }
  }

  /**
   In any run from a fresh or reopened store, with the dictionary flag fixed and no override: a block stored at any
   point, by a put, by genesis or in a flushed batch, decodes to that same block at every later point until it is
   pruned, whether or not the dictionary was trained before, at, or after the step that stored it.
   */
  lemma EveryPutStaysReadable(z: Zstd, s: State, before: seq<Step>, step: Step, b: Block, after: seq<Step>)
    requires Lawful(z) && Settled(s) && TrainsWell(before + [step] + after)
    requires Stores(Run(z, s, before), step, b) && Fits(z, Run(z, s, before), b)
    requires forall i | 0 <= i < |after| :: Spares(z, Run(z, s, before + [step] + after[..i]), after[i], b)
    ensures var end := Run(z, s, before + [step] + after);
            b.hash in end.rows && DeserializeBlock(z, end, end.rows[b.hash]) == Some(b)
  {
    hide Lawful, Written, TrainsWell, Run, Next, DeserializeBlock, Spares, Stores, Fits;
    var put := before + [step];
    TrainsWellSplits(put, after);
    TrainsWellSplits(before, [step]);
    DictionaryIsInstalledOnce(z, s, before);
    DictionaryIsInstalledOnce(z, s, put);
    RunMore(z, s, before, step);
    assert TrainedWell(Trainings(step)) by { LastTrainsWell(before, step); }
    StoredIsWritten(z, Run(z, s, before), step, b);
    forall i | 0 <= i < |after| ensures Spares(z, Run(z, Run(z, s, put), after[..i]), after[i], b) {
      RunSplits(z, s, put, after[..i]);
    }
    RowStaysWritten(z, Run(z, s, put), after, b);
    RunSplits(z, s, put, after);
    var end := Run(z, s, put + after);
    WrittenDecodes(z, end, end, end.rows[b.hash], b);
  }

  lemma LastTrainsWell(steps: seq<Step>, step: Step)
    requires TrainsWell(steps + [step])
    ensures TrainedWell(Trainings(step))
  {
    assert (steps + [step])[|steps|] == step;
  }

  lemma RunMore(z: Zstd, s: State, steps: seq<Step>, step: Step)
    ensures Run(z, s, steps + [step]) == Next(z, Run(z, s, steps), step)
  {
    assert (steps + [step])[..|steps|] == steps;
  }

  /**
   The bound is only enforced on reading: a block put while a dictionary is in force (its frame not being a plain one
   as well) reads back exactly when its serialized form fits the bound.
   */
  lemma PutReadsBackExactlyWithinTheBound(z: Zstd, s: State, b: Block)
    requires Lawful(z) && s.useDict && s.live.Some? && z.genuine(b)
    requires z.unplain(z.dict(s.live.value, z.serialize(b))).None?
    ensures DeserializeBlock(z, s, SerializeBlock(z, s, b)) == Some(b) <==> |z.serialize(b)| <= s.cap
  {
    var raw, d := z.serialize(b), s.live.value;
    assert z.deserialize(raw) == Some(b);
    assert z.undict(d, z.dict(d, raw), s.cap) == if |raw| <= s.cap then Some(raw) else None;
  }

  // ---------------------------------------------------------------- the handle, step by step

  /** The codec part of an open store. */
  class DictionaryStore {
    var rows: map<Hash, Bytes>
    var meta: Option<Bytes>
    var live: Option<Bytes>
    const useDict: bool
    const cap: nat

    ghost function View(): (r: State)
      reads this
    {
      State(rows, meta, live, useDict, cap)
    }

    /** `open` without an override. */
    constructor (rows: map<Hash, Bytes>, meta: Option<Bytes>, useDict: bool, cap: nat)
      ensures View() == State(rows, meta, LoadDict(meta, useDict), useDict, cap) && Settled(View())
    {
      this.rows, this.meta, this.useDict, this.cap := rows, meta, useDict, cap;
      this.live := LoadDict(meta, useDict);
    }

    method InitDictionary()
      modifies this`live
      ensures View() == old(View()).(live := LoadDict(old(meta), useDict))
    {
      live := LoadDict(meta, useDict);
    }

    /** `train_dictionary`: keeps a stored dictionary, otherwise trains and persists one. */
    method TrainDictionary(trained: Option<Bytes>) returns (dict: Option<Bytes>)
      modifies this`meta
      ensures old(meta).Some? && old(meta).value != [] ==> dict == meta == old(meta)
      ensures (old(meta).None? || old(meta).value == []) && |rows| >= DICT_TRAINING_THRESHOLD && trained.Some? ==> dict == meta == trained
      ensures dict.None? ==> meta == old(meta)
      ensures |rows| < DICT_TRAINING_THRESHOLD && (old(meta).None? || old(meta).value == []) ==> dict.None?
      ensures trained.None? && (old(meta).None? || old(meta).value == []) ==> dict.None?
    {
      if meta.Some? && meta.value != [] { return meta; }
      if |rows| < DICT_TRAINING_THRESHOLD || trained.None? { return None; }
      meta := trained;
      return trained;
    }

    method MaybeTrainDictionary(trained: Option<Bytes>) returns (ok: bool)
      modifies this
      ensures View() == MaybeTrain(old(View()), trained)
      ensures ok <==> !TrainingFails(old(View()), trained)
    {
      if !useDict { return true; }
      if live.Some? { return true; }
      if meta.Some? && meta.value != [] {
        InitDictionary();
        return true;
      }
      var count := BlockCount(rows);
      if count < DICT_TRAINING_THRESHOLD { return true; }
      var dict := TrainDictionary(trained);
      if dict.None? { return false; }
      live := dict;
      return true;
    }

    /** The payload row of a new block. */
    method StoreRow(z: Zstd, b: Block)
      modifies this`rows
      ensures View() == AddRow(z, old(View()), b)
    {
      if b.hash in rows { return; }
      var raw := z.serialize(b);
      var payload := if useDict && live.Some? then z.dict(live.value, raw) else z.plain(raw);
      rows := rows[b.hash := payload];
    }

    /** The payload part of `put_block`. */
    method Put(z: Zstd, b: Block, trained: Option<Bytes>) returns (ok: bool)
      modifies this
      ensures View() == Next(z, old(View()), PutRow(b, trained))
      ensures ok <==> b.hash in old(rows) || !TrainingFails(AddRow(z, old(View()), b), trained)
    {
      if b.hash in rows { return true; }
      StoreRow(z, b);
      ok := MaybeTrainDictionary(trained);
    }

    /** `deserialize_block`. */
    method Decode(z: Zstd, payload: Bytes) returns (r: Option<Block>)
      ensures r == DeserializeBlock(z, View(), payload)
    {
      var raw: Option<Bytes> := None;
      if useDict && live.Some? { raw := z.undict(live.value, payload, cap); }
      if raw.None? { raw := z.unplain(payload); }
      if raw.None? { return None; }
      r := z.deserialize(raw.value);
    }
  }
}
