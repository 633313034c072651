/** Snapshot export and import (src/snapshot.rs). */
module Snapshot {
  import opened ChainTypes
  import opened Encoding
  import opened CanonicalBin
  import opened StoreModel
  import opened Coherence
  import opened ChainShape
  import opened BlockStoreClass
  import opened Payloads
  import Compression

  const SNAPSHOT_VERSION: U32 := 1

  datatype Manifest = Manifest(
    version: U32, startHeight: U64, endHeight: U64, blockCount: U64, stateRoot: Hash, checksum: Hash)

  /**
   The byte-level functions the snapshot code calls: bincode of the manifest, its stream reader (manifest and bytes
   consumed), and SHA-256. Block payloads are decoded by the codec of the importing store, in its state of the moment.
   */
  datatype Codec = Codec(
    manifestBytes: Manifest -> Bytes,
    readManifest: Bytes -> Option<(Manifest, nat)>,
    sha: Bytes -> Hash)

  /** Fixed-layout bincode: reading inverts writing in front of any rest, and consumes exactly the written bytes. */
  ghost predicate Lawful(c: Codec) {
    && (forall m, rest :: c.readManifest(c.manifestBytes(m) + rest) == Some((m, |c.manifestBytes(m)|)))
    && (forall bytes | c.readManifest(bytes).Some? ::
          var (m, n) := c.readManifest(bytes).value;
          n <= |bytes| && bytes[..n] == c.manifestBytes(m))
  }

  // ---------------------------------------------------------------- a manifest layout that obeys the laws

  const MANIFEST_BYTES: nat := 92

  /** Fixed-width little-endian integers in field order, then the two hashes as raw bytes. */
  function ManifestLayout(m: Manifest): (r: Bytes)
    ensures |r| == MANIFEST_BYTES
  {
    LittleEndian(m.version, 4) + LittleEndian(m.startHeight, 8) + LittleEndian(m.endHeight, 8)
    + LittleEndian(m.blockCount, 8) + m.stateRoot + m.checksum
  }

  function ReadU32(bytes: Bytes): (r: U32)
    requires |bytes| == 4
  {
    LittleEndianRoundTrip(0, 0, bytes);
    FromLittleEndian(bytes)
  }

  function ReadU64(bytes: Bytes): (r: U64)
    requires |bytes| == 8
  {
    LittleEndianRoundTrip(0, 0, bytes);
    EightBytes();
    FromLittleEndian(bytes)
  }

  function ReadLayout(bytes: Bytes): (r: Option<(Manifest, nat)>) {
    if |bytes| < MANIFEST_BYTES then None
    else Some((Manifest(ReadU32(bytes[..4]), ReadU64(bytes[4..12]), ReadU64(bytes[12..20]), ReadU64(bytes[20..28]),
                        bytes[28..60], bytes[60..92]), MANIFEST_BYTES))
  }

  lemma LayoutReadsBack(m: Manifest, rest: Bytes)
    ensures ReadLayout(ManifestLayout(m) + rest) == Some((m, MANIFEST_BYTES))
  {
    hide LittleEndian, FromLittleEndian;
    var bytes := ManifestLayout(m) + rest;
    EightBytes();
    LittleEndianRoundTrip(m.version, 4, []);
    LittleEndianRoundTrip(m.startHeight, 8, []);
    LittleEndianRoundTrip(m.endHeight, 8, []);
    LittleEndianRoundTrip(m.blockCount, 8, []);
    assert Pow256(4) == U32_SIZE;
    assert bytes[..4] == LittleEndian(m.version, 4) && bytes[4..12] == LittleEndian(m.startHeight, 8);
    assert bytes[12..20] == LittleEndian(m.endHeight, 8) && bytes[20..28] == LittleEndian(m.blockCount, 8);
    assert bytes[28..60] == m.stateRoot && bytes[60..92] == m.checksum;
  }

  lemma LayoutIsExact(bytes: Bytes)
    requires |bytes| >= MANIFEST_BYTES
    ensures ManifestLayout(ReadLayout(bytes).value.0) == bytes[..MANIFEST_BYTES]
  {
    hide LittleEndian, FromLittleEndian;
    LittleEndianRoundTrip(0, 0, bytes[..4]);
    LittleEndianRoundTrip(0, 0, bytes[4..12]);
    LittleEndianRoundTrip(0, 0, bytes[12..20]);
    LittleEndianRoundTrip(0, 0, bytes[20..28]);
  }

  /** The laws hold of this layout over the manifest's own field widths, for any digest. */
  lemma FixedLayoutIsLawful(sha: Bytes -> Hash)
    ensures Lawful(Codec(ManifestLayout, ReadLayout, sha))
  {
    hide ManifestLayout, ReadLayout;
    forall m, rest ensures ReadLayout(ManifestLayout(m) + rest) == Some((m, |ManifestLayout(m)|)) {
      LayoutReadsBack(m, rest);
    }
    forall bytes | ReadLayout(bytes).Some?
      ensures var (m, n) := ReadLayout(bytes).value; n <= |bytes| && bytes[..n] == ManifestLayout(m)
    {
      LayoutRead(bytes);
    }
  }

  lemma LayoutRead(bytes: Bytes)
    requires ReadLayout(bytes).Some?
    ensures ReadLayout(bytes).value.1 <= |bytes|
    ensures bytes[..ReadLayout(bytes).value.1] == ManifestLayout(ReadLayout(bytes).value.0)
  {
    LayoutIsExact(bytes);
  }

  function Frame(payload: Bytes): (r: Bytes) { LengthPrefix(|payload|) + payload }

  function Frames(payloads: seq<Bytes>): (r: Bytes) {
    if payloads == [] then [] else Frames(payloads[..|payloads| - 1]) + Frame(payloads[|payloads| - 1])
  }

  // ---------------------------------------------------------------- import

  datatype Parsed = Parsed(full: Full, result: Result<nat>)

  /** One frame at a position: its payload, or nothing when the stream ends inside it. */
  function FrameAt(bytes: Bytes, pos: nat): (r: Option<Bytes>)
    ensures r.Some? ==> pos + 4 + |r.value| <= |bytes| && |r.value| < U32_SIZE
    ensures r.Some? ==> bytes[pos..pos + 4 + |r.value|] == Frame(r.value)
  {
    if pos + 4 > |bytes| then None
    else
      var prefix := bytes[pos..pos + 4];
      var len := ReadLength(prefix);
      LengthRoundTrip(0, prefix);
      if pos + 4 + len > |bytes| then None
      else
        var payload := bytes[pos + 4..pos + 4 + len];
        assert bytes[pos..pos + 4 + len] == prefix + payload;
        Some(payload)
  }

  /** The block of a frame has the wrong height or does not follow the block before it. */
  predicate Misplaced(b: Block, expected: int, prev: Option<Hash>) {
    b.Height() != expected || (prev.Some? && b.header.parent != prev.value)
  }

  /** What a training attempt after the put at a height would yield. */
  type Trainings = int -> Option<Bytes>

  /** The import loop from one height on: the store and codec so far and the position reached. */
  ghost function ImportFrames(
    z: Compression.Zstd, f: Full, bytes: Bytes, pos: nat, expected: int, end: int, prev: Option<Hash>, trained: Trainings)
    : (r: Parsed)
    decreases end - expected
  {
    if expected > end then Parsed(f, Ok(pos))
    else if FrameAt(bytes, pos).None? then Parsed(f, Err(Malformed))
    else
      var payload := FrameAt(bytes, pos).value;
      var decoded := Compression.DeserializeBlock(z, f.codec, payload);
      if decoded.None? || Misplaced(decoded.value, expected, prev) then Parsed(f, Err(Malformed))
      else
        var (next, put) := PutFull(z, f, decoded.value, true, trained(expected));
        if put.Err? then Parsed(next, Err(put.error))
        else ImportFrames(z, next, bytes, pos + 4 + |payload|, expected + 1, end, Some(decoded.value.hash), trained)
  }

  /**
   `import_snapshot`: manifest, version, frames, then the trailing checksum over everything read. (The comparisons of
   n with the stream and of pos with n only matter to a reader that claims to have consumed more than there was.)
   */
  ghost function Import(c: Codec, z: Compression.Zstd, f: Full, bytes: Bytes, trained: Trainings): (r: (Full, Result<Manifest>)) {
    if c.readManifest(bytes).None? then (f, Err(Malformed))
    else
      var m, n := c.readManifest(bytes).value.0, c.readManifest(bytes).value.1;
      if m.version != SNAPSHOT_VERSION || n > |bytes| then (f, Err(Malformed))
      else
        var parsed := ImportFrames(z, f, bytes, n, m.startHeight, m.endHeight, None, trained);
        if parsed.result.Err? then (parsed.full, Err(parsed.result.error))
        else
          var pos := parsed.result.value;
          if n <= pos && pos + 32 <= |bytes| && bytes[pos..pos + 32] == c.sha(c.manifestBytes(m) + bytes[n..pos])
          then (parsed.full, Ok(m))
          else (parsed.full, Err(Malformed))
  }

  // ---------------------------------------------------------------- the accepted streams

  /** Blocks at first, first+1, ..., each the child of the one before, with payloads short enough to frame. */
  ghost predicate LinkedPayloads(payloads: seq<Bytes>, blocks: seq<Block>, first: int, prev: Option<Hash>) {
    && |payloads| == |blocks|
    && (forall i | 0 <= i < |blocks| :: |payloads[i]| < U32_SIZE && blocks[i].Height() == first + i)
    && (blocks != [] && prev.Some? ==> blocks[0].header.parent == prev.value)
    && (forall i, j | 0 <= i < j < |blocks| && j == i + 1 :: blocks[j].header.parent == blocks[i].hash)
  }

  /**
   Each payload decodes to its block in the codec state in force when its turn comes: the blocks before it have been
   put by then, and one of them may have installed a dictionary.
   */
  ghost predicate DecodeInTurn(z: Compression.Zstd, f: Full, payloads: seq<Bytes>, blocks: seq<Block>, trained: Trainings)
    requires |payloads| == |blocks|
    decreases |blocks|
  {
    blocks == [] ||
    (&& Compression.DeserializeBlock(z, f.codec, payloads[0]) == Some(blocks[0])
     && DecodeInTurn(z, PutFull(z, f, blocks[0], true, trained(blocks[0].Height())).0, payloads[1..], blocks[1..], trained))
  }

  function Count(lo: int, hi: int): (r: nat) { if lo > hi then 0 else hi - lo + 1 }

  /**
   For a store and its codec state: a version-1 manifest, one linked frame per height, each decodable when its turn
   comes, and the hash of all of it; anything may follow.
   */
  ghost predicate IsSnapshot(
    c: Codec, z: Compression.Zstd, f: Full, trained: Trainings, m: Manifest, payloads: seq<Bytes>, blocks: seq<Block>, bytes: Bytes)
  {
    && m.version == SNAPSHOT_VERSION
    && |blocks| == Count(m.startHeight, m.endHeight)
    && LinkedPayloads(payloads, blocks, m.startHeight, None)
    && DecodeInTurn(z, f, payloads, blocks, trained)
    && var body := c.manifestBytes(m) + Frames(payloads);
       body + c.sha(body) <= bytes
  }

  /** `put_block` as canonical on each block in turn. */
  ghost function PutAll(s: Store, blocks: seq<Block>): (r: Store)
    decreases |blocks|
  {
    if blocks == [] then s else PutAll(Put(s, blocks[0], true).store, blocks[1..])
  }

  /** The same with payloads and training attempts. */
  ghost function PutAllFull(z: Compression.Zstd, f: Full, blocks: seq<Block>, trained: Trainings): (r: Full)
    decreases |blocks|
  {
    if blocks == [] then f
    else PutAllFull(z, PutFull(z, f, blocks[0], true, trained(blocks[0].Height())).0, blocks[1..], trained)
  }

  lemma {:induction false} PutAllFullStores(z: Compression.Zstd, f: Full, blocks: seq<Block>, trained: Trainings)
    ensures PutAllFull(z, f, blocks, trained).store == PutAll(f.store, blocks)
    decreases |blocks|
  {
    hide PutFull, Put;
    if blocks != [] {
      var h := blocks[0].Height();
      PutFullIsAStep(z, f, blocks[0], true, trained(h));
      PutAllFullStores(z, PutFull(z, f, blocks[0], true, trained(h)).0, blocks[1..], trained);
    }
  }

  /** No put of a block that is new at that point runs into a failing training attempt. */
  ghost predicate NeverFails(z: Compression.Zstd, f: Full, blocks: seq<Block>, trained: Trainings)
    decreases |blocks|
  {
    blocks == [] ||
    (var (next, put) := PutFull(z, f, blocks[0], true, trained(blocks[0].Height()));
     put.Ok? && NeverFails(z, next, blocks[1..], trained))
  }

  lemma {:induction false} FramesCons(payload: Bytes, rest: seq<Bytes>)
    ensures Frames([payload] + rest) == Frame(payload) + Frames(rest)
  {
    var all := [payload] + rest;
    if rest == [] {
      assert all[..0] == [];
      assert Frames(all) == [] + Frame(payload);
    } else {
      var front := rest[..|rest| - 1];
      assert all[..|all| - 1] == [payload] + front;
      FramesCons(payload, front);
    }
  }

  lemma PutFullAnswers(z: Compression.Zstd, f: Full, b: Block, trained: Option<Bytes>)
    ensures var (next, put) := PutFull(z, f, b, true, trained);
            && next.store.readOnly == f.store.readOnly
            && (!f.store.readOnly && put.Err? ==> put == Err(TrainingFailed))
  {
    hide Compression.AddRow, Compression.MaybeTrain, Compression.TrainingFails;
  }

  /** What a successful loop has read. */
  lemma {:induction false} FramesSound(
    z: Compression.Zstd, f: Full, bytes: Bytes, pos: nat, expected: int, end: int, prev: Option<Hash>, trained: Trainings)
    returns (payloads: seq<Bytes>, blocks: seq<Block>)
    requires ImportFrames(z, f, bytes, pos, expected, end, prev, trained).result.Ok? && pos <= |bytes|
    ensures var r := ImportFrames(z, f, bytes, pos, expected, end, prev, trained);
            && LinkedPayloads(payloads, blocks, expected, prev)
            && |payloads| == |blocks| == Count(expected, end)
            && DecodeInTurn(z, f, payloads, blocks, trained)
            && NeverFails(z, f, blocks, trained)
            && pos <= r.result.value <= |bytes|
            && bytes[pos..r.result.value] == Frames(payloads)
            && r.full == PutAllFull(z, f, blocks, trained)
    decreases end - expected
  {
    hide PutFull, FrameAt, Frame, Frames, LinkedPayloads, Compression.DeserializeBlock;
    if expected > end {
      payloads, blocks := [], [];
      NoFrames();
      NoPayloads(expected, prev);
    } else {
      var payload := FrameAt(bytes, pos).value;
      var b := Compression.DeserializeBlock(z, f.codec, payload).value;
      var next := pos + 4 + |payload|;
      var more, tail := FramesSound(z, PutFull(z, f, b, true, trained(expected)).0, bytes, next, expected + 1, end, Some(b.hash), trained);
      payloads, blocks := [payload] + more, [b] + tail;
      FramesCons(payload, more);
      var stop := ImportFrames(z, f, bytes, pos, expected, end, prev, trained).result.value;
      assert bytes[pos..stop] == bytes[pos..next] + bytes[next..stop];
      assert blocks[1..] == tail && payloads[1..] == more;
      LinkedCons(payload, b, more, tail, expected, prev);
    }
  }

  lemma NoPayloads(first: int, prev: Option<Hash>)
    ensures LinkedPayloads([], [], first, prev)
  {
  }

  lemma LinkedCons(payload: Bytes, b: Block, more: seq<Bytes>, tail: seq<Block>, first: int, prev: Option<Hash>)
    ensures LinkedPayloads([payload] + more, [b] + tail, first, prev) <==>
            && |payload| < U32_SIZE && !Misplaced(b, first, prev)
            && LinkedPayloads(more, tail, first + 1, Some(b.hash))
  {
    var payloads, blocks := [payload] + more, [b] + tail;
    assert forall i | 0 <= i < |more| :: payloads[i + 1] == more[i];
    assert forall i | 0 <= i < |tail| :: blocks[i + 1] == tail[i];
    if LinkedPayloads(payloads, blocks, first, prev) {
      forall i | 0 <= i < |tail| ensures |more[i]| < U32_SIZE && tail[i].Height() == first + 1 + i {
        assert payloads[i + 1] == more[i] && blocks[i + 1] == tail[i];
      }
      forall i, j | 0 <= i < j < |tail| && j == i + 1 ensures tail[j].header.parent == tail[i].hash {
        assert blocks[j + 1] == tail[j] && blocks[i + 1] == tail[i];
      }
      if tail != [] { assert blocks[1].header.parent == blocks[0].hash; }
    }
  }

  /** A linked run of frames is read to its end, unless a training attempt fails on the way. */
  lemma {:induction false} FramesComplete(
    z: Compression.Zstd, f: Full, bytes: Bytes, pos: nat, expected: int, end: int, prev: Option<Hash>,
    payloads: seq<Bytes>, blocks: seq<Block>, trained: Trainings)
    requires !f.store.readOnly && LinkedPayloads(payloads, blocks, expected, prev)
    requires |payloads| == |blocks| == Count(expected, end) && DecodeInTurn(z, f, payloads, blocks, trained)
    requires pos + |Frames(payloads)| <= |bytes| && bytes[pos..pos + |Frames(payloads)|] == Frames(payloads)
    ensures var r := ImportFrames(z, f, bytes, pos, expected, end, prev, trained);
            if NeverFails(z, f, blocks, trained) then r == Parsed(PutAllFull(z, f, blocks, trained), Ok(pos + |Frames(payloads)|))
            else r.result == Err(TrainingFailed)
    decreases end - expected
  {
    hide PutFull, FrameAt, Frame, Frames, LinkedPayloads, Compression.DeserializeBlock;
    if expected > end {
      assert blocks == [] && payloads == [];
      assert Frames(payloads) == [] by { NoFrames(); }
    } else {
      var payload, more := payloads[0], payloads[1..];
      var b, tail := blocks[0], blocks[1..];
      assert payloads == [payload] + more && blocks == [b] + tail;
      FramesCons(payload, more);
      LinkedCons(payload, b, more, tail, expected, prev);
      FrameLength(payload);
      SplitWindow(bytes, pos, Frame(payload), Frames(more));
      ReadBack(bytes, pos, payload);
      PutFullAnswers(z, f, b, trained(expected));
      FramesComplete(z, PutFull(z, f, b, true, trained(expected)).0, bytes, pos + 4 + |payload|, expected + 1, end,
                     Some(b.hash), more, tail, trained);
    }
  }

  lemma NoFrames()
    ensures Frames([]) == []
  {
  }

  lemma FrameLength(payload: Bytes)
    ensures |Frame(payload)| == 4 + |payload|
  {
  }

  /** A window that holds a then b holds a at its start and b right after. */
  lemma SplitWindow(bytes: Bytes, pos: nat, a: Bytes, b: Bytes)
    requires pos + |a + b| <= |bytes| && bytes[pos..pos + |a + b|] == a + b
    ensures bytes[pos..pos + |a|] == a
    ensures bytes[pos + |a|..pos + |a| + |b|] == b
  {
    var window := bytes[pos..pos + |a + b|];
    assert bytes[pos..pos + |a|] == window[..|a|];
    assert bytes[pos + |a|..pos + |a| + |b|] == window[|a|..];
  }

  lemma ReadBack(bytes: Bytes, pos: nat, payload: Bytes)
    requires |payload| < U32_SIZE && pos + 4 + |payload| <= |bytes|
    requires bytes[pos..pos + 4 + |payload|] == Frame(payload)
    ensures FrameAt(bytes, pos) == Some(payload)
  {
    hide LengthPrefix, ReadLength;
    SplitWindow(bytes, pos, LengthPrefix(|payload|), payload);
    LengthRoundTrip(|payload|, bytes[pos..pos + 4]);
  }

  /** A frame reads back as its payload exactly when the length fits the 32-bit prefix; export writes it regardless. */
  lemma FrameReadsBackExactlyBelow32Bits(payload: Bytes, rest: Bytes)
    ensures FrameAt(Frame(payload) + rest, 0) == Some(payload) <==> |payload| < U32_SIZE
  {
    var bytes := Frame(payload) + rest;
    if |payload| < U32_SIZE {
      assert bytes[0..4 + |payload|] == Frame(payload);
      ReadBack(bytes, 0, payload);
    }
  }

  /**
   Import soundness: for any byte stream and any store with any codec state, an accepted import means the stream is a
   version-1 manifest, frames that decode, each under the codec state its predecessors left, to blocks at start..=end
   with each parent hash the previous block's hash, and the hash of every preceding byte; and the store has had exactly
   those blocks put, in order, with no training attempt failing. The block count in the manifest plays no part.
   */
  lemma AcceptedStreamsAreSnapshots(c: Codec, z: Compression.Zstd, f: Full, bytes: Bytes, trained: Trainings)
    returns (payloads: seq<Bytes>, blocks: seq<Block>)
    requires Lawful(c) && Import(c, z, f, bytes, trained).1.Ok?
    ensures IsSnapshot(c, z, f, trained, Import(c, z, f, bytes, trained).1.value, payloads, blocks, bytes)
    ensures Import(c, z, f, bytes, trained).0 == PutAllFull(z, f, blocks, trained) && NeverFails(z, f, blocks, trained)
  {
    hide ImportFrames, LinkedPayloads, DecodeInTurn, NeverFails, Frames, PutAllFull;
    var m, n := c.readManifest(bytes).value.0, c.readManifest(bytes).value.1;
    payloads, blocks := FramesSound(z, f, bytes, n, m.startHeight, m.endHeight, None, trained);
    var pos := ImportFrames(z, f, bytes, n, m.startHeight, m.endHeight, None, trained).result.value;
    JoinWindows(bytes, n, pos);
    SameLengths(payloads, blocks, m.startHeight);
  }

  lemma SameLengths(payloads: seq<Bytes>, blocks: seq<Block>, first: int)
    requires LinkedPayloads(payloads, blocks, first, None)
    ensures |payloads| == |blocks|
  {
  }

  lemma JoinWindows(bytes: Bytes, n: nat, pos: nat)
    requires n <= pos && pos + 32 <= |bytes|
    ensures bytes[..n] + bytes[n..pos] + bytes[pos..pos + 32] <= bytes
  {
  }

  /**
   And conversely a writable store accepts every such stream, with any block count in the manifest, exactly when no
   training attempt fails after a block that was new to the store.
   */
  lemma SnapshotsAreAccepted(
    c: Codec, z: Compression.Zstd, f: Full, m: Manifest, payloads: seq<Bytes>, blocks: seq<Block>, bytes: Bytes, trained: Trainings)
    requires Lawful(c) && !f.store.readOnly && IsSnapshot(c, z, f, trained, m, payloads, blocks, bytes)
    ensures if NeverFails(z, f, blocks, trained) then Import(c, z, f, bytes, trained) == (PutAllFull(z, f, blocks, trained), Ok(m))
            else Import(c, z, f, bytes, trained).1 == Err(TrainingFailed)
  {
    hide ImportFrames, LinkedPayloads, DecodeInTurn, Frames, PutAllFull, NeverFails;
    SameLengths(payloads, blocks, m.startHeight);
    var head, frames := c.manifestBytes(m), Frames(payloads);
    var body := head + frames;
    var n, pos := |head|, |head| + |frames|;
    CutStream(bytes, head, frames, c.sha(body));
    assert c.readManifest(bytes) == Some((m, n));
    FramesComplete(z, f, bytes, n, m.startHeight, m.endHeight, None, payloads, blocks, trained);
  }

  /** The manifest's block count is never checked: whatever it claims, the stream around it is accepted. */
  lemma BlockCountIsNotChecked(
    c: Codec, z: Compression.Zstd, f: Full, m: Manifest, payloads: seq<Bytes>, blocks: seq<Block>, bytes: Bytes, claimed: U64,
    trained: Trainings)
    requires Lawful(c) && !f.store.readOnly && IsSnapshot(c, z, f, trained, m, payloads, blocks, bytes)
    requires NeverFails(z, f, blocks, trained)
    ensures var lie := m.(blockCount := claimed);
            var body := c.manifestBytes(lie) + Frames(payloads);
            Import(c, z, f, body + c.sha(body), trained).1 == Ok(lie)
  {
    hide Import, LinkedPayloads, DecodeInTurn, NeverFails, Frames;
    var lie := m.(blockCount := claimed);
    var body := c.manifestBytes(lie) + Frames(payloads);
    SameLengths(payloads, blocks, m.startHeight);
    SnapshotsAreAccepted(c, z, f, lie, payloads, blocks, body + c.sha(body), trained);
  }

  // ---------------------------------------------------------------- what a failed import has done

  /** No further frame can be taken here: the stream ends, the payload does not decode, or the block does not belong. */
  ghost predicate StopsHere(z: Compression.Zstd, f: Full, bytes: Bytes, pos: nat, expected: int, prev: Option<Hash>) {
    || FrameAt(bytes, pos).None?
    || Compression.DeserializeBlock(z, f.codec, FrameAt(bytes, pos).value).None?
    || Misplaced(Compression.DeserializeBlock(z, f.codec, FrameAt(bytes, pos).value).value, expected, prev)
  }

  function LastHash(blocks: seq<Block>, prev: Option<Hash>): (r: Option<Hash>) {
    if blocks == [] then prev else Some(blocks[|blocks| - 1].hash)
  }

  /** The frames a failing loop has taken, and why it stopped. */
  ghost predicate StoppedAfter(
    z: Compression.Zstd, f: Full, bytes: Bytes, pos: nat, expected: int, end: int, prev: Option<Hash>, trained: Trainings,
    payloads: seq<Bytes>, blocks: seq<Block>, r: Parsed)
  {
    var next := pos + |Frames(payloads)|;
    && LinkedPayloads(payloads, blocks, expected, prev) && |payloads| == |blocks| <= Count(expected, end)
    && DecodeInTurn(z, f, payloads, blocks, trained)
    && next <= |bytes| && bytes[pos..next] == Frames(payloads)
    && r.full == PutAllFull(z, f, blocks, trained)
    && if NeverFails(z, f, blocks, trained)
       then && r.result == Err(Malformed) && |blocks| < Count(expected, end)
            && StopsHere(z, r.full, bytes, next, expected + |blocks|, LastHash(blocks, prev))
       else && r.result == Err(if f.store.readOnly then ReadOnly else TrainingFailed)
            && NeverFails(z, f, blocks[..|blocks| - 1], trained)
  }

  lemma {:induction false} FramesStop(
    z: Compression.Zstd, f: Full, bytes: Bytes, pos: nat, expected: int, end: int, prev: Option<Hash>, trained: Trainings)
    returns (payloads: seq<Bytes>, blocks: seq<Block>)
    requires ImportFrames(z, f, bytes, pos, expected, end, prev, trained).result.Err? && pos <= |bytes|
    ensures StoppedAfter(z, f, bytes, pos, expected, end, prev, trained, payloads, blocks,
                         ImportFrames(z, f, bytes, pos, expected, end, prev, trained))
    decreases end - expected
  {
    hide PutFull, FrameAt, Frame, Frames, LinkedPayloads, StoppedAfter, Compression.DeserializeBlock;
    if StopsHere(z, f, bytes, pos, expected, prev) {
      payloads, blocks := [], [];
      NothingTaken(z, f, bytes, pos, expected, end, prev, trained);
    } else {
      var payload := FrameAt(bytes, pos).value;
      var b := Compression.DeserializeBlock(z, f.codec, payload).value;
      var next := pos + 4 + |payload|;
      var (after, put) := PutFull(z, f, b, true, trained(expected));
      if put.Err? {
        payloads, blocks := [payload], [b];
        OneTaken(z, f, bytes, pos, expected, end, prev, trained, payload, b);
      } else {
        var more, tail := FramesStop(z, after, bytes, next, expected + 1, end, Some(b.hash), trained);
        payloads, blocks := [payload] + more, [b] + tail;
        MoreTaken(z, f, bytes, pos, expected, end, prev, trained, payload, b, more, tail);
      }
    }
  }

  lemma NothingTaken(
    z: Compression.Zstd, f: Full, bytes: Bytes, pos: nat, expected: int, end: int, prev: Option<Hash>, trained: Trainings)
    requires expected <= end && pos <= |bytes| && StopsHere(z, f, bytes, pos, expected, prev)
    ensures StoppedAfter(z, f, bytes, pos, expected, end, prev, trained, [], [],
                         ImportFrames(z, f, bytes, pos, expected, end, prev, trained))
  {
    hide PutFull, FrameAt, Compression.DeserializeBlock;
  }

  lemma OneTaken(
    z: Compression.Zstd, f: Full, bytes: Bytes, pos: nat, expected: int, end: int, prev: Option<Hash>, trained: Trainings,
    payload: Bytes, b: Block)
    requires expected <= end && FrameAt(bytes, pos) == Some(payload)
    requires Compression.DeserializeBlock(z, f.codec, payload) == Some(b) && !Misplaced(b, expected, prev)
    requires PutFull(z, f, b, true, trained(expected)).1.Err?
    ensures StoppedAfter(z, f, bytes, pos, expected, end, prev, trained, [payload], [b],
                         ImportFrames(z, f, bytes, pos, expected, end, prev, trained))
  {
    hide PutFull, Frame, Frames, LinkedPayloads, Compression.DeserializeBlock;
    assert [payload] + [] == [payload] && [b] + [] == [b];
    FramesCons(payload, []);
    NoFrames();
    FrameLength(payload);
    NoPayloads(expected + 1, Some(b.hash));
    LinkedCons(payload, b, [], [], expected, prev);
    PutFullAnswers(z, f, b, trained(expected));
    PutError(z, f, b, trained(expected));
    var payloads, blocks := [payload], [b];
    assert payloads[1..] == [] && blocks[1..] == [] && blocks[..|blocks| - 1] == [];
    var after := PutFull(z, f, b, true, trained(expected)).0;
    assert PutAllFull(z, f, blocks, trained) == PutAllFull(z, after, [], trained);
    assert DecodeInTurn(z, after, [], [], trained);
    assert !NeverFails(z, f, blocks, trained);
    assert Frames([payload] + []) == Frame(payload) + [];
    assert bytes[pos..pos + |Frames(payloads)|] == Frames(payloads);
  }

  lemma PutError(z: Compression.Zstd, f: Full, b: Block, trained: Option<Bytes>)
    ensures var (after, put) := PutFull(z, f, b, true, trained);
            && after.store.readOnly == f.store.readOnly
            && (put.Err? ==> put == Err(if f.store.readOnly then ReadOnly else TrainingFailed))
  {
    hide Compression.AddRow, Compression.MaybeTrain, Compression.TrainingFails;
  }

  lemma MoreTaken(
    z: Compression.Zstd, f: Full, bytes: Bytes, pos: nat, expected: int, end: int, prev: Option<Hash>, trained: Trainings,
    payload: Bytes, b: Block, more: seq<Bytes>, tail: seq<Block>)
    requires expected <= end && FrameAt(bytes, pos) == Some(payload)
    requires Compression.DeserializeBlock(z, f.codec, payload) == Some(b) && !Misplaced(b, expected, prev)
    requires PutFull(z, f, b, true, trained(expected)).1.Ok?
    requires var after, next := PutFull(z, f, b, true, trained(expected)).0, pos + 4 + |payload|;
             StoppedAfter(z, after, bytes, next, expected + 1, end, Some(b.hash), trained, more, tail,
                          ImportFrames(z, after, bytes, next, expected + 1, end, Some(b.hash), trained))
    ensures StoppedAfter(z, f, bytes, pos, expected, end, prev, trained, [payload] + more, [b] + tail,
                         ImportFrames(z, f, bytes, pos, expected, end, prev, trained))
  {
    hide PutFull, Frame, Frames, LinkedPayloads, Compression.DeserializeBlock, StopsHere;
    var payloads, blocks := [payload] + more, [b] + tail;
    var next := pos + 4 + |payload|;
    var stop := next + |Frames(more)|;
    FramesCons(payload, more);
    FrameLength(payload);
    LinkedCons(payload, b, more, tail, expected, prev);
    PutError(z, f, b, trained(expected));
    assert bytes[pos..stop] == bytes[pos..next] + bytes[next..stop];
    assert blocks[1..] == tail && payloads[1..] == more;
    if tail != [] {
      assert blocks[..|blocks| - 1] == [b] + tail[..|tail| - 1];
      assert blocks[..|blocks| - 1][1..] == tail[..|tail| - 1];
    }
  }

  /** The stream starts with a manifest of the version the store reads. */
  ghost predicate Announced(c: Codec, bytes: Bytes) {
    c.readManifest(bytes).Some? && c.readManifest(bytes).value.0.version == 1
  }

  /**
   What a refused import leaves: without a version-1 manifest nothing has been stored; otherwise exactly the linked
   frames up to the first that cannot be taken are stored, or up to the put that reported an error, or all of them when
   only the checksum is missing or wrong. Nothing is taken back.
   */
  lemma RefusedImportsKeepWhatTheyRead(c: Codec, z: Compression.Zstd, f: Full, bytes: Bytes, trained: Trainings)
    returns (payloads: seq<Bytes>, blocks: seq<Block>)
    requires Lawful(c) && Import(c, z, f, bytes, trained).1.Err?
    ensures !Announced(c, bytes) ==> Import(c, z, f, bytes, trained) == (f, Err(Malformed))
    ensures Announced(c, bytes) ==>
              var (after, r) := Import(c, z, f, bytes, trained);
              var (m, n) := c.readManifest(bytes).value;
              var body := c.manifestBytes(m) + Frames(payloads);
              if |blocks| == Count(m.startHeight, m.endHeight) && NeverFails(z, f, blocks, trained)
              then && LinkedPayloads(payloads, blocks, m.startHeight, None) && DecodeInTurn(z, f, payloads, blocks, trained)
                   && body <= bytes && !(body + c.sha(body) <= bytes)
                   && after == PutAllFull(z, f, blocks, trained) && r == Err(Malformed)
              else StoppedAfter(z, f, bytes, n, m.startHeight, m.endHeight, None, trained, payloads, blocks,
                                Parsed(after, Err(r.error)))
  {
    hide ImportFrames, LinkedPayloads, DecodeInTurn, NeverFails, Frames, PutAllFull, StopsHere;
    payloads, blocks := [], [];
    if Announced(c, bytes) {
      var (m, n) := c.readManifest(bytes).value;
      var r := ImportFrames(z, f, bytes, n, m.startHeight, m.endHeight, None, trained);
      if r.result.Err? {
        payloads, blocks := FramesStop(z, f, bytes, n, m.startHeight, m.endHeight, None, trained);
      } else {
        payloads, blocks := FramesSound(z, f, bytes, n, m.startHeight, m.endHeight, None, trained);
        WrongTrailer(bytes, n, r.result.value, c.sha(c.manifestBytes(m) + Frames(payloads)));
        SameLengths(payloads, blocks, m.startHeight);
      }
    }
  }

  lemma WrongTrailer(bytes: Bytes, n: nat, pos: nat, trailer: Hash)
    requires n <= pos <= |bytes|
    ensures bytes[..n] + bytes[n..pos] <= bytes
    ensures bytes[..n] + bytes[n..pos] + trailer <= bytes <==> pos + 32 <= |bytes| && bytes[pos..pos + 32] == trailer
  {
    var body := bytes[..n] + bytes[n..pos];
    assert body == bytes[..pos];
    if pos + 32 <= |bytes| && bytes[pos..pos + 32] == trailer {
      assert body + trailer == bytes[..pos + 32];
    }
    if body + trailer <= bytes {
      assert bytes[..pos + 32][pos..] == (body + trailer)[pos..] == trailer;
    }
  }

  lemma CutStream(bytes: Bytes, head: Bytes, frames: Bytes, trailer: Hash)
    requires head + frames + trailer <= bytes
    ensures var n, pos := |head|, |head| + |frames|;
            && bytes == head + bytes[n..]
            && bytes[n..pos] == frames
            && bytes[pos..pos + 32] == trailer
  {
    var all := head + frames + trailer;
    assert bytes[..|all|] == all;
    assert bytes[|head|..|head| + |frames|] == all[|head|..|head| + |frames|];
    assert bytes[|head| + |frames|..|all|] == all[|head| + |frames|..];
    assert bytes[..|head|] == all[..|head|];
  }

  // ---------------------------------------------------------------- export

  datatype Exported = Exported(store: Store, written: Bytes, error: Option<Error>)

  /** Frames for heights lo, ..., hi-1: look the hash up, read the raw CF_BLOCKS payload, write it length-prefixed. */
  ghost function ExportFrames(s: Store, payloads: map<Hash, Bytes>, lo: nat, hi: nat): (r: Exported)
    requires hi <= SLOT_LIMIT
    ensures r.store == s.(cache := r.store.cache)
    decreases hi - lo
  {
    if hi <= lo then Exported(s, [], None)
    else
      var before := ExportFrames(s, payloads, lo, hi - 1);
      if before.error.Some? then before
      else
        var x := Resolve(before.store, hi - 1);
        var after := Looked(before.store, hi - 1);
        if x.None? then Exported(after, before.written, Some(Malformed))
        else if x.value !in payloads then Exported(after, before.written, Some(BlockNotFound(x.value)))
        else Exported(after, before.written + Frame(payloads[x.value]), None)
  }

  /** The manifest an export of start..=end writes, before the checksum is known. */
  function Placeholder(start: Height, end: Height, stateRoot: Hash): (r: Manifest) {
    Manifest(SNAPSHOT_VERSION, start, end, (if start <= end then end - start else 0) + 1, stateRoot, ZERO)
  }

  /** `export_snapshot`: what is written, and the manifest with its checksum or the error. */
  ghost function Export(c: Codec, s: Store, payloads: map<Hash, Bytes>, start: Height, end: Height)
    : (r: (Store, Bytes, Result<Manifest>))
  {
    var x, found := Resolve(s, end), Looked(s, end);
    if x.None? || x.value !in s.db.headers then (found, [], Err(Malformed))
    else
      var m := Placeholder(start, end, s.db.headers[x.value].stateRoot);
      var frames := ExportFrames(found, payloads, start, end + 1);
      var body := c.manifestBytes(m) + frames.written;
      if frames.error.Some? then (frames.store, body, Err(frames.error.value))
      else (frames.store, body + c.sha(body), Ok(m.(checksum := c.sha(body))))
  }

  /** `export_snapshot`, step by step. */
  method ExportSnapshot(handle: PayloadStore, c: Codec, start: Height, end: Height)
    returns (written: Bytes, r: Result<Manifest>)
    modifies handle.store`cache
    ensures (handle.store.View(), written, r) == Export(c, old(handle.View()).store, handle.codec.rows, start, end)
    ensures handle.codec.View() == old(handle.codec.View())
  {
    hide Resolve, Looked, ExportFrames, Frame;
    var store, payloads := handle.store, handle.codec.rows;
    written := [];
    var top := store.GetHashByHeight(end);
    if top.None? || top.value !in store.db.headers { return written, Err(Malformed); }
    var count := (if start <= end then end - start else 0) + 1;
    var manifest := Manifest(SNAPSHOT_VERSION, start, end, count, store.db.headers[top.value].stateRoot, ZERO);
    var head := c.manifestBytes(manifest);
    ghost var found := store.View();
    var frames, error := WriteFrames(store, payloads, start, end);
    if error.Some? { return head + frames, Err(error.value); }
    var checksum := c.sha(head + frames);
    return head + frames + checksum, Ok(manifest.(checksum := checksum));
  }

  /** The height loop of an export. */
  method WriteFrames(store: BlockStore, payloads: map<Hash, Bytes>, start: Height, end: Height)
    returns (frames: Bytes, error: Option<Error>)
    modifies store`cache
    ensures Exported(store.View(), frames, error) == ExportFrames(old(store.View()), payloads, start, end + 1)
  {
    hide Resolve, Looked, Frame, ExportFrames;
    frames, error := [], None;
    ghost var found := store.View();
    NoFramesExported(found, payloads, start, end + 1);
    if start > end { return; }
    NoFramesExported(found, payloads, start, start);
    for h := start to end + 1
      invariant ExportFrames(found, payloads, start, h) == Exported(store.View(), frames, None)
    {
      ExportStep(found, payloads, start, h);
      var x := store.GetHashByHeight(h);
      if x.None? {
        ExportStops(found, payloads, start, h + 1, end + 1);
        return frames, Some(Malformed);
      }
      if x.value !in payloads {
        ExportStops(found, payloads, start, h + 1, end + 1);
        return frames, Some(BlockNotFound(x.value));
      }
      frames := frames + Frame(payloads[x.value]);
    }
  }

  lemma NoFramesExported(s: Store, payloads: map<Hash, Bytes>, lo: nat, hi: nat)
    requires hi <= SLOT_LIMIT
    ensures hi <= lo ==> ExportFrames(s, payloads, lo, hi) == Exported(s, [], None)
  {
  }

  lemma ExportStep(s: Store, payloads: map<Hash, Bytes>, lo: nat, h: Height)
    requires lo <= h && ExportFrames(s, payloads, lo, h).error.None?
    ensures var before := ExportFrames(s, payloads, lo, h);
            var x, after := Resolve(before.store, h), Looked(before.store, h);
            ExportFrames(s, payloads, lo, h + 1) ==
            if x.None? then Exported(after, before.written, Some(Malformed))
            else if x.value !in payloads then Exported(after, before.written, Some(BlockNotFound(x.value)))
            else Exported(after, before.written + Frame(payloads[x.value]), None)
  {
  }

  lemma {:induction false} ExportStops(s: Store, payloads: map<Hash, Bytes>, lo: nat, mid: nat, hi: nat)
    requires mid <= hi <= SLOT_LIMIT && ExportFrames(s, payloads, lo, mid).error.Some?
    ensures ExportFrames(s, payloads, lo, hi) == ExportFrames(s, payloads, lo, mid)
    decreases hi
  {
    hide Resolve, Looked, Frame;
    if mid < hi { ExportStops(s, payloads, lo, mid, hi - 1); }
  }

  /** `import_snapshot`, step by step: the hasher sees the re-serialized manifest and every frame byte read. */
  method ImportSnapshot(handle: PayloadStore, c: Codec, bytes: Bytes, trained: Trainings) returns (r: Result<Manifest>)
    modifies handle.store.Repr(), handle.codec
    ensures fresh(handle.store.Repr() - old(handle.store.Repr()))
    ensures (handle.View(), r) == Import(c, handle.z, old(handle.View()), bytes, trained)
  {
    hide PutFull, FrameAt, Compression.DeserializeBlock;
    var z := handle.z;
    var read := c.readManifest(bytes);
    if read.None? { return Err(Malformed); }
    var (manifest, n) := read.value;
    if manifest.version != SNAPSHOT_VERSION || n > |bytes| { return Err(Malformed); }
    var hashed := c.manifestBytes(manifest);
    var pos := n;
    var prev: Option<Hash> := None;
    var expected: int := manifest.startHeight;
    ghost var whole := ImportFrames(z, handle.View(), bytes, n, manifest.startHeight, manifest.endHeight, None, trained);
    while expected <= manifest.endHeight
      invariant fresh(handle.store.Repr() - old(handle.store.Repr()))
      invariant n <= pos <= |bytes|
      invariant hashed == c.manifestBytes(manifest) + bytes[n..pos]
      invariant ImportFrames(z, handle.View(), bytes, pos, expected, manifest.endHeight, prev, trained) == whole
    {
      var payload := FrameAt(bytes, pos);
      if payload.None? { return Err(Malformed); }
      var next := pos + 4 + |payload.value|;
      hashed := hashed + bytes[pos..next];
      assert bytes[n..next] == bytes[n..pos] + bytes[pos..next];
      var block := handle.codec.Decode(z, payload.value);
      if block.None? { return Err(Malformed); }
      if Misplaced(block.value, expected, prev) { return Err(Malformed); }
      prev := Some(block.value.hash);
      var put := handle.PutBlock(block.value, true, trained(expected));
      if put.Err? { return Err(put.error); }
      pos := next;
      expected := expected + 1;
    }
    if pos + 32 > |bytes| || bytes[pos..pos + 32] != c.sha(hashed) { return Err(Malformed); }
    return Ok(manifest);
  }

  // ---------------------------------------------------------------- round trip

  /** Raw payloads of the canonical blocks at lo, ..., hi-1. */
  ghost function PayloadList(db: Db, payloads: map<Hash, Bytes>, lo: nat, hi: nat): (r: seq<Bytes>)
    requires lo <= hi && forall h: Height | lo <= h < hi :: h in db.canonical && db.canonical[h] in payloads
    requires hi <= SLOT_LIMIT
    ensures |r| == hi - lo
  {
    seq(hi - lo, i requires 0 <= i < hi - lo => payloads[db.canonical[lo + i]])
  }

  ghost function BlockList(db: Db, lo: nat, hi: nat): (r: seq<Block>)
    requires lo <= hi <= SLOT_LIMIT && forall h: Height | lo <= h < hi :: h in db.canonical && db.canonical[h] in db.blocks
    ensures |r| == hi - lo
  {
    seq(hi - lo, i requires 0 <= i < hi - lo => db.blocks[db.canonical[lo + i]])
  }

  /** CF_BLOCKS holds a payload for each canonical block of the range, short enough to frame. */
  ghost predicate Framed(db: Db, payloads: map<Hash, Bytes>, lo: nat, hi: nat) {
    forall h: Height | lo <= h < hi && h in db.canonical ::
      && db.canonical[h] in payloads && db.canonical[h] in db.blocks
      && |payloads[db.canonical[h]]| < U32_SIZE
  }

  /** The canonical rows lo..hi-1 all exist. */
  ghost predicate Covered(db: Db, lo: nat, hi: nat) {
    FloorOf(db) <= lo <= hi <= SLOT_LIMIT && forall h: Height | lo <= h < hi :: h in db.canonical
  }

  lemma {:induction false} ExportedFrames(s: Store, payloads: map<Hash, Bytes>, lo: nat, hi: nat)
    requires Coherent(s) && Covered(s.db, lo, hi) && Framed(s.db, payloads, lo, hi)
    ensures var r := ExportFrames(s, payloads, lo, hi);
            Coherent(r.store) && r.error.None? && r.written == Frames(PayloadList(s.db, payloads, lo, hi))
    decreases hi
  {
    hide Coherent, Resolve, Looked, Frame, ExportFrames;
    NoFramesExported(s, payloads, lo, lo);
    if hi > lo {
      var h: Height := hi - 1;
      ExportedFrames(s, payloads, lo, h);
      ExportStep(s, payloads, lo, h);
      var before := ExportFrames(s, payloads, lo, h).store;
      assert before.db == s.db;
      LookupIsVisible(before, h);
      LookedCoherent(before, h);
      assert Resolve(before, h) == Some(s.db.canonical[h]);
      var list := PayloadList(s.db, payloads, lo, hi);
      assert list[..hi - lo - 1] == PayloadList(s.db, payloads, lo, h);
      assert list[hi - lo - 1] == payloads[s.db.canonical[h]];
    }
  }

  lemma ChainBlocksLink(db: Db, payloads: map<Hash, Bytes>, lo: nat, hi: nat)
    requires Chain(db) && Covered(db, lo, hi) && Framed(db, payloads, lo, hi)
    ensures LinkedPayloads(PayloadList(db, payloads, lo, hi), BlockList(db, lo, hi), lo, None)
    ensures DistinctBlocks(BlockList(db, lo, hi))
  {
    var blocks := BlockList(db, lo, hi);
    forall i | 0 <= i < |blocks|
      ensures blocks[i] == db.blocks[db.canonical[lo + i]] && blocks[i].Height() == lo + i && blocks[i].hash == db.canonical[lo + i]
    {
      ChainBlock(db, lo + i);
    }
    forall i, j | 0 <= i < j < |blocks| && j == i + 1 ensures blocks[j].header.parent == blocks[i].hash {
      assert Next(lo + i, lo + j);
      ChainBlock(db, lo + j);
    }
  }

  lemma ChainBlock(db: Db, h: Height)
    requires Chain(db) && h in db.canonical
    ensures var x := db.canonical[h];
            x in db.blocks && db.blocks[x].hash == x && db.blocks[x].Height() == h && db.blocks[x].header == db.headers[x]
  {
  }

  ghost predicate DistinctBlocks(blocks: seq<Block>) {
    forall i, j | 0 <= i < j < |blocks| :: blocks[i].hash != blocks[j].hash && blocks[i].Height() != blocks[j].Height()
  }

  /** Every stored body and canonical row survives further puts at other heights. */
  ghost predicate Grown(before: Db, after: Db) {
    && (forall x | x in before.blocks :: Row(after.blocks, x) == Some(before.blocks[x]))
    && (forall h | h in before.canonical :: Row(after.canonical, h) == Some(before.canonical[h]))
  }

  ghost predicate Holds(db: Db, b: Block) {
    Row(db.blocks, b.hash) == Some(b) && Row(db.canonical, b.Height()) == Some(b.hash)
  }

  lemma PutOne(s: Store, b: Block)
    requires Coherent(s) && (s.capacity > 0 || s.cache == map[]) && !s.readOnly
    requires b.hash !in s.db.blocks && b.Height() !in s.db.canonical
    ensures var put := Put(s, b, true).store;
            && Coherent(put) && put.floor == s.floor && put.tip == s.tip
            && (put.capacity > 0 || put.cache == map[]) && !put.readOnly
            && Grown(s.db, put.db) && Holds(put.db, b)
            && put.db.blocks.Keys == s.db.blocks.Keys + {b.hash}
            && put.db.canonical.Keys == s.db.canonical.Keys + {b.Height()}
  {
    hide CacheAgrees, BinAgrees, Remember, ExtendWrite;
    NothingCached(s.db.canonical[b.Height() := b.hash], s.floor, b.Height(), b.hash);
    PutCoherent(s, b, true);
  }

  lemma NothingCached(rows: Rows, floor: Height, h: Height, x: Hash)
    ensures CacheAgrees(map[], rows, floor) && Remember(map[], 0, h, x) == map[]
  {
  }

  /** Putting new, distinct blocks stores each one and makes it canonical at its height; nothing else changes. */
  lemma {:induction false} PutAllStores(s: Store, blocks: seq<Block>)
    requires Coherent(s) && (s.capacity > 0 || s.cache == map[]) && !s.readOnly && DistinctBlocks(blocks)
    requires forall i | 0 <= i < |blocks| :: blocks[i].hash !in s.db.blocks && blocks[i].Height() !in s.db.canonical
    ensures var r := PutAll(s, blocks);
            && Coherent(r) && r.floor == s.floor && r.tip == s.tip
            && Grown(s.db, r.db)
            && (forall i | 0 <= i < |blocks| :: Holds(r.db, blocks[i]))
            && (forall h | h in r.db.canonical && h !in s.db.canonical :: exists i | 0 <= i < |blocks| :: blocks[i].Height() == h)
    decreases |blocks|
  {
    hide Coherent, Put;
    if blocks != [] {
      var b, tail := blocks[0], blocks[1..];
      var put := Put(s, b, true).store;
      PutOne(s, b);
      assert forall i | 0 <= i < |tail| :: tail[i] == blocks[i + 1];
      PutAllStores(put, tail);
      var r := PutAll(put, tail);
      assert PutAll(s, blocks) == r;
      assert Holds(r.db, b);
      forall i | 0 <= i < |blocks| ensures Holds(r.db, blocks[i]) {
        if i > 0 { assert blocks[i] == tail[i - 1]; }
      }
      forall h | h in r.db.canonical && h !in s.db.canonical
        ensures exists i | 0 <= i < |blocks| :: blocks[i].Height() == h
      {
        if h in put.db.canonical {
          assert blocks[0].Height() == h;
        } else {
          var i :| 0 <= i < |tail| && tail[i].Height() == h;
          assert blocks[i + 1].Height() == h;
        }
      }
    }
  }

  /** A chain whose rows include start..=end. */
  ghost predicate Spans(s: Store, start: Height, end: Height) {
    ChainOk(s) && s.floor <= start <= end <= s.tip.value.height
  }

  /** What an export writes, as frames of the chain's payloads around a manifest. */
  lemma ExportWrites(c: Codec, s: Store, payloads: map<Hash, Bytes>, start: Height, end: Height)
    requires Spans(s, start, end) && Framed(s.db, payloads, start, end + 1)
    ensures Covered(s.db, start, end + 1)
    ensures var (_, bytes, r) := Export(c, s, payloads, start, end);
            r.Ok? &&
            var m := r.value.(checksum := ZERO);
            var body := c.manifestBytes(m) + Frames(PayloadList(s.db, payloads, start, end + 1));
            && m.version == SNAPSHOT_VERSION && m.startHeight == start && m.endHeight == end
            && bytes == body + c.sha(body)
  {
    hide CacheAgrees, BinAgrees, Resolve, Looked, ExportFrames, Frames, Framed;
    var db := s.db;
    assert Covered(db, start, end + 1);
    assert Framed(db, payloads, start, end + 1);
    LookupIsVisible(s, end);
    LookedCoherent(s, end);
    ExportedFrames(Looked(s, end), payloads, start, end + 1);
  }

  // ---------------------------------------------------------------- what an export says about the chain

  /** A height an export can write: it has a visible row and that block has a payload. */
  ghost predicate Exportable(db: Db, payloads: map<Hash, Bytes>, h: Height) {
    Visible(db, h).Some? && Visible(db, h).value in payloads
  }

  /** The error at a height that cannot be exported. */
  ghost function ExportError(db: Db, h: Height): (r: Error) {
    if Visible(db, h).Some? then BlockNotFound(Visible(db, h).value) else Malformed
  }

  /** The height loop stops at the first height that cannot be exported, and only there. */
  lemma {:induction false} FramesStopAtFirstGap(s: Store, payloads: map<Hash, Bytes>, lo: nat, hi: nat)
    requires Coherent(s) && hi <= SLOT_LIMIT
    ensures Coherent(ExportFrames(s, payloads, lo, hi).store)
    ensures ExportFrames(s, payloads, lo, hi).error.None? <==> forall h: Height | lo <= h < hi :: Exportable(s.db, payloads, h)
    ensures forall h: Height | lo <= h < hi && !Exportable(s.db, payloads, h)
              && (forall k: Height | lo <= k < h :: Exportable(s.db, payloads, k)) ::
              ExportFrames(s, payloads, lo, hi).error == Some(ExportError(s.db, h))
    decreases hi - lo
  {
    hide Coherent, Resolve, Looked, Visible, Frame;
    if lo < hi {
      FramesStopAtFirstGap(s, payloads, lo, hi - 1);
      var before := ExportFrames(s, payloads, lo, hi - 1);
      LookupIsVisible(before.store, hi - 1);
      LookedCoherent(before.store, hi - 1);
      SameDbIsVisible(before.store.db, s.db, hi - 1);
      var last: Height := hi - 1;
      var after := ExportFrames(s, payloads, lo, hi);
      if before.error.Some? {
        assert exists h: Height :: lo <= h < last && !Exportable(s.db, payloads, h);
        assert after == before;
      } else {
        assert after.error.None? <==> Exportable(s.db, payloads, last);
      }
    }
  }

  lemma SameDbIsVisible(a: Db, b: Db, h: Height)
    requires a == b
    ensures Visible(a, h) == Visible(b, h)
  {
  }

  /**
   An export succeeds exactly when the end height has a stored header and every height of the range has a row and a
   payload; without an end nothing is written, and otherwise the first height that cannot be exported names the error.
   */
  lemma ExportFailsExactly(c: Codec, s: Store, payloads: map<Hash, Bytes>, start: Height, end: Height)
    requires Coherent(s)
    ensures var (after, bytes, r) := Export(c, s, payloads, start, end);
            var ends := Visible(s.db, end).Some? && Visible(s.db, end).value in s.db.headers;
            && after == s.(cache := after.cache)
            && (r.Ok? <==> ends && forall h: Height | start <= h <= end :: Exportable(s.db, payloads, h))
            && (!ends ==> bytes == [] && r == Err(Malformed))
            && (ends ==> forall h: Height | start <= h <= end && !Exportable(s.db, payloads, h)
                           && (forall k: Height | start <= k < h :: Exportable(s.db, payloads, k)) ::
                           r == Err(ExportError(s.db, h)))
  {
    hide Coherent, Resolve, Visible, Exportable, ExportError, ExportFrames;
    LookupIsVisible(s, end);
    LookedCoherent(s, end);
    FramesStopAtFirstGap(Looked(s, end), payloads, start, end + 1);
  }

  /**
   The manifest of a successful export: version 1, the range asked for, the state root in the header of the end block,
   and the checksum, which is the last 32 bytes written and the hash of all the others; in front of the frames stands
   the same manifest with a zero checksum. The block count is that of the range, except that an empty range counts one.
   */
  lemma ExportedManifest(c: Codec, s: Store, payloads: map<Hash, Bytes>, start: Height, end: Height)
    requires Coherent(s) && Export(c, s, payloads, start, end).2.Ok?
    ensures Visible(s.db, end).Some? && Visible(s.db, end).value in s.db.headers
    ensures var (_, bytes, r) := Export(c, s, payloads, start, end);
            var m := r.value;
            && m.version == 1 && m.startHeight == start && m.endHeight == end
            && (start <= end ==> m.blockCount == end - start + 1)
            && (start > end ==> m.blockCount == 1)
            && m.stateRoot == s.db.headers[Visible(s.db, end).value].stateRoot
            && |bytes| >= 32 && bytes[|bytes| - 32..] == m.checksum == c.sha(bytes[..|bytes| - 32])
            && c.manifestBytes(m.(checksum := ZERO)) <= bytes
  {
    hide Coherent, Visible, ExportFrames;
    LookupIsVisible(s, end);
    var (_, bytes, r) := Export(c, s, payloads, start, end);
    var body := bytes[..|bytes| - 32];
    assert bytes == body + r.value.checksum;
  }

  /** The payloads of heights that can be exported. */
  ghost function RawPayloads(db: Db, payloads: map<Hash, Bytes>, lo: nat, hi: nat): (r: seq<Bytes>)
    requires lo <= hi <= SLOT_LIMIT && forall h: Height | lo <= h < hi :: Exportable(db, payloads, h)
  {
    seq(hi - lo, i requires 0 <= i < hi - lo => assert Exportable(db, payloads, lo + i); payloads[Visible(db, lo + i).value])
  }

  lemma {:induction false} FramesUpToTheGap(s: Store, payloads: map<Hash, Bytes>, lo: nat, gap: nat, hi: nat)
    requires Coherent(s) && lo <= gap <= hi <= SLOT_LIMIT
    requires forall h: Height | lo <= h < gap :: Exportable(s.db, payloads, h)
    requires gap < hi ==> !Exportable(s.db, payloads, gap)
    ensures ExportFrames(s, payloads, lo, hi).written == Frames(RawPayloads(s.db, payloads, lo, gap))
    decreases hi
  {
    hide Coherent, Resolve, Looked, Visible, Frame, ExportFrames;
    NoFramesExported(s, payloads, lo, lo);
    FramesStopAtFirstGap(s, payloads, lo, hi);
    if lo < gap == hi {
      var h: Height := hi - 1;
      FramesUpToTheGap(s, payloads, lo, h, h);
      FramesStopAtFirstGap(s, payloads, lo, h);
      ExportStep(s, payloads, lo, h);
      var before := ExportFrames(s, payloads, lo, h).store;
      LookupIsVisible(before, h);
      SameDbIsVisible(before.db, s.db, h);
      var list := RawPayloads(s.db, payloads, lo, hi);
      assert list[..hi - lo - 1] == RawPayloads(s.db, payloads, lo, h);
      assert list[hi - lo - 1] == payloads[Visible(s.db, h).value];
    } else if gap < hi {
      FramesUpToTheGap(s, payloads, lo, gap, gap);
      FramesStopAtFirstGap(s, payloads, lo, gap);
      ExportStep(s, payloads, lo, gap);
      FramesStopAtFirstGap(s, payloads, lo, gap + 1);
      var before := ExportFrames(s, payloads, lo, gap).store;
      LookupIsVisible(before, gap);
      SameDbIsVisible(before.db, s.db, gap);
      ExportStops(s, payloads, lo, gap + 1, hi);
    }
  }

  /**
   What an export of a range writes, to the first height that cannot be exported or to the end: a version-1 manifest
   with a zero checksum, the frames below that height, and, when there is no such height, the hash of all that.
   */
  lemma ExportWritesUpToTheGap(c: Codec, s: Store, payloads: map<Hash, Bytes>, start: Height, end: Height, gap: nat)
    requires Coherent(s) && Visible(s.db, end).Some? && Visible(s.db, end).value in s.db.headers
    requires start <= end && start <= gap <= end + 1 && forall h: Height | start <= h < gap :: Exportable(s.db, payloads, h)
    requires gap <= end ==> !Exportable(s.db, payloads, gap)
    ensures var m := Manifest(1, start, end, end - start + 1, s.db.headers[Visible(s.db, end).value].stateRoot, ZERO);
            var body := c.manifestBytes(m) + Frames(RawPayloads(s.db, payloads, start, gap));
            Export(c, s, payloads, start, end).1 == if gap <= end then body else body + c.sha(body)
  {
    hide CacheAgrees, BinAgrees, Resolve, Visible, Exportable, ExportFrames, RawPayloads, Frames;
    LookupIsVisible(s, end);
    LookedCoherent(s, end);
    FramesUpToTheGap(Looked(s, end), payloads, start, gap, end + 1);
    FramesStopAtFirstGap(Looked(s, end), payloads, start, end + 1);
  }

  /** Over a chain: the count is the number of blocks written, and the state root is that of the last of them. */
  lemma ExportDescribesTheChain(c: Codec, s: Store, payloads: map<Hash, Bytes>, start: Height, end: Height)
    requires Spans(s, start, end) && Framed(s.db, payloads, start, end + 1)
    ensures Covered(s.db, start, end + 1)
    ensures var (_, bytes, r) := Export(c, s, payloads, start, end);
            var blocks := BlockList(s.db, start, end + 1);
            && r.Ok?
            && r.value.blockCount == |blocks|
            && r.value.stateRoot == blocks[|blocks| - 1].header.stateRoot
            && r.value.checksum == bytes[|bytes| - 32..] == c.sha(bytes[..|bytes| - 32])
            && bytes == c.manifestBytes(r.value.(checksum := ZERO))
                        + Frames(PayloadList(s.db, payloads, start, end + 1)) + r.value.checksum
  {
    hide Export, CacheAgrees, BinAgrees, RowsLinked, Frames;
    ExportWrites(c, s, payloads, start, end);
    ExportedManifest(c, s, payloads, start, end);
    ChainBlock(s.db, end);
    SpannedEnd(s, start, end);
    var (_, bytes, r) := Export(c, s, payloads, start, end);
    var body := c.manifestBytes(r.value.(checksum := ZERO)) + Frames(PayloadList(s.db, payloads, start, end + 1));
    assert bytes == body + c.sha(body);
    assert bytes[..|bytes| - 32] == body;
  }

  lemma SpannedEnd(s: Store, start: Height, end: Height)
    requires Spans(s, start, end)
    ensures end in s.db.canonical && Visible(s.db, end) == Some(s.db.canonical[end])
  {
  }

  // ---------------------------------------------------------------- the importer's codec state on the way

  lemma PutFullContinues(z: Compression.Zstd, f: Full, b: Block, trained: Option<Bytes>)
    requires Compression.Settled(f.codec) && trained != Some([])
    ensures Compression.Continues(f.codec, PutFull(z, f, b, true, trained).0.codec)
  {
    hide Put, Compression.SerializeBlock;
  }

  /** Payloads a portable writer wrote decode in turn, whatever the importer trains on the way. */
  lemma {:induction false} WrittenDecodeInTurn(
    z: Compression.Zstd, writer: Compression.State, f: Full, payloads: seq<Bytes>, blocks: seq<Block>, trained: Trainings)
    requires Compression.Lawful(z) && Compression.Settled(f.codec) && Compression.Portable(writer, f.codec)
    requires |payloads| == |blocks| && forall h :: trained(h) != Some([])
    requires forall i | 0 <= i < |blocks| :: Compression.Written(z, writer, payloads[i], blocks[i])
    ensures DecodeInTurn(z, f, payloads, blocks, trained)
    decreases |blocks|
  {
    hide Compression.Lawful, Compression.Written, Compression.DeserializeBlock, PutFull;
    if blocks != [] {
      var h := blocks[0].Height();
      Compression.WrittenDecodes(z, writer, f.codec, payloads[0], blocks[0]);
      PutFullContinues(z, f, blocks[0], trained(h));
      WrittenDecodeInTurn(z, writer, PutFull(z, f, blocks[0], true, trained(h)).0, payloads[1..], blocks[1..], trained);
    }
  }

  /** A put of a new block adds one row; it fails exactly when a training was due and failed. */
  lemma NewPut(z: Compression.Zstd, f: Full, b: Block, trained: Option<Bytes>)
    requires Compression.Settled(f.codec) && SameHashes(f) && !f.store.readOnly && b.hash !in f.store.db.blocks
    requires trained != Some([])
    ensures var (next, put) := PutFull(z, f, b, true, trained);
            var due := Compression.Wanting(f.codec) && Compression.RowsToSpare(f.codec) == 0;
            && Compression.Settled(next.codec) && SameHashes(next) && !next.store.readOnly
            && next.store.db.blocks.Keys == f.store.db.blocks.Keys + {b.hash}
            && |next.codec.rows| == |f.codec.rows| + 1
            && (put.Ok? <==> !due || trained.Some?)
            && (Compression.Wanting(next.codec) <==> Compression.Wanting(f.codec) && (!due || trained.None?))
  {
    hide Remember, ExtendWrite, Compression.SerializeBlock;
    assert b.hash !in f.codec.rows.Keys;
    PutFullKeepsHashes(z, f, b, true, trained);
    assert PutFull(z, f, b, true, trained).0.codec.rows.Keys == f.codec.rows.Keys + {b.hash};
  }

  /** The put at which a training falls due, if the list gets that far. */
  ghost predicate TrainsThrough(codec: Compression.State, blocks: seq<Block>, trained: Trainings) {
    var k := Compression.RowsToSpare(codec);
    !Compression.Wanting(codec) || |blocks| <= k || trained(blocks[k].Height()).Some?
  }

  /** Putting new, distinct blocks fails somewhere exactly when one training falls due and fails. */
  lemma {:induction false} FailsExactlyWhenDue(z: Compression.Zstd, f: Full, blocks: seq<Block>, trained: Trainings)
    requires Compression.Settled(f.codec) && SameHashes(f) && !f.store.readOnly && DistinctBlocks(blocks)
    requires forall h :: trained(h) != Some([])
    requires forall i | 0 <= i < |blocks| :: blocks[i].hash !in f.store.db.blocks
    ensures NeverFails(z, f, blocks, trained) <==> TrainsThrough(f.codec, blocks, trained)
    decreases |blocks|
  {
    hide PutFull, Compression.Settled, Compression.Wanting, SameHashes;
    if blocks != [] {
      var b, tail := blocks[0], blocks[1..];
      NewPut(z, f, b, trained(b.Height()));
      var (next, put) := PutFull(z, f, b, true, trained(b.Height()));
      assert forall i | 0 <= i < |tail| :: tail[i] == blocks[i + 1];
      forall i | 0 <= i < |tail| ensures tail[i].hash !in next.store.db.blocks {
        assert blocks[i + 1].hash != b.hash;
        assert tail[i].hash !in next.store.db.blocks.Keys;
      }
      FailsExactlyWhenDue(z, next, tail, trained);
      var k := Compression.RowsToSpare(f.codec);
      if k > 0 && k < |blocks| { assert tail[k - 1] == blocks[k]; }
    }
  }

  /** The payloads of a stretch of a chain, in a store whose payloads mirror its blocks. */
  lemma StretchIsWritten(z: Compression.Zstd, e: Full, start: Height, end: Height, i: nat)
    requires MirrorsOk(z, e) && Chain(e.store.db) && Covered(e.store.db, start, end + 1) && start <= end && i <= end - start
    requires Framed(e.store.db, e.codec.rows, start, end + 1)
    ensures Compression.Written(z, e.codec, PayloadList(e.store.db, e.codec.rows, start, end + 1)[i],
                                BlockList(e.store.db, start, end + 1)[i])
  {
    hide Compression.Written, RowsLinked, Paired;
    var h: Height := start + i;
    var x := e.store.db.canonical[h];
    assert x in e.store.db.blocks;
  }

  lemma MirroredFrames(z: Compression.Zstd, e: Full, lo: nat, hi: nat)
    requires MirrorsOk(z, e) && Chain(e.store.db)
    requires forall x | x in e.codec.rows :: |e.codec.rows[x]| < U32_SIZE
    ensures Framed(e.store.db, e.codec.rows, lo, hi)
  {
    hide Compression.Written;
    var db := e.store.db;
    forall h: Height | lo <= h < hi && h in db.canonical
      ensures db.canonical[h] in e.codec.rows && db.canonical[h] in db.blocks
    {
      ChainBlock(db, h);
      assert db.canonical[h] in e.codec.rows.Keys;
    }
  }

  /** An empty writable store with any codec state that holds no rows. */
  ghost function Importer(onDisk: Option<seq<Byte>>, capacity: nat, codec: Compression.State): (r: Full) {
    Full(Open(EMPTY_DB, onDisk, true, capacity), codec)
  }

  ghost predicate ReadyToRead(writer: Compression.State, codec: Compression.State) {
    codec.rows == map[] && Compression.Settled(codec) && Compression.Portable(writer, codec)
  }

  /** The export of a chain is a snapshot for every importer that can read the writer's payloads. */
  lemma ExportIsSnapshot(
    c: Codec, z: Compression.Zstd, e: Full, start: Height, end: Height, f: Full, trained: Trainings)
    requires Compression.Lawful(z) && MirrorsOk(z, e) && Spans(e.store, start, end)
    requires Framed(e.store.db, e.codec.rows, start, end + 1)
    requires Compression.Settled(f.codec) && Compression.Portable(e.codec, f.codec) && forall h :: trained(h) != Some([])
    ensures Covered(e.store.db, start, end + 1)
    ensures var (_, bytes, r) := Export(c, e.store, e.codec.rows, start, end);
            && r.Ok?
            && IsSnapshot(c, z, f, trained, r.value.(checksum := ZERO), PayloadList(e.store.db, e.codec.rows, start, end + 1),
                          BlockList(e.store.db, start, end + 1), bytes)
  {
    hide Coherent, MirrorsOk, Export, Frames, LinkedPayloads, DecodeInTurn, Compression.Lawful, Compression.Written,
      Compression.Settled, Compression.Portable, RowsLinked, Paired;
    var db, rows := e.store.db, e.codec.rows;
    ExportWrites(c, e.store, rows, start, end);
    ChainBlocksLink(db, rows, start, end + 1);
    var payloads, blocks := PayloadList(db, rows, start, end + 1), BlockList(db, start, end + 1);
    forall i | 0 <= i < |blocks| ensures Compression.Written(z, e.codec, payloads[i], blocks[i]) {
      StretchIsWritten(z, e, start, end, i);
    }
    WrittenDecodeInTurn(z, e.codec, f, payloads, blocks, trained);
  }

  /** What the importer ends up with. */
  ghost predicate Reproduces(e: Store, imported: Store, start: Height, end: Height, h: Height) {
    && imported.tip.None?
    && Resolve(imported, h) == (if start <= h <= end then Resolve(e, h) else None)
    && (start <= h <= end ==>
          && Resolve(e, h).Some?
          && Row(imported.db.blocks, Resolve(e, h).value) == Row(e.db.blocks, Resolve(e, h).value))
  }

  /**
   Round trip: the bytes exported from a chain import into an empty store whose codec can read the exporter's payloads
   (the exporter uses no dictionary, or the importer has the same one), even when the importer trains a dictionary of
   its own midway. The import is turned down exactly when that one training falls due and fails. Otherwise the importer
   holds exactly the exported heights, each with the same hash and the same block (and still no tip), and the manifest
   read back is the exported one except for the placeholder checksum.
   */
  lemma SnapshotRoundTrip(
    c: Codec, z: Compression.Zstd, e: Full, start: Height, end: Height,
    onDisk: Option<seq<Byte>>, capacity: nat, codec: Compression.State, trained: Trainings, h: Height)
    requires Lawful(c) && Compression.Lawful(z) && forall k :: trained(k) != Some([])
    requires MirrorsOk(z, e) && Spans(e.store, start, end) && Framed(e.store.db, e.codec.rows, start, end + 1)
    requires ReadyToRead(e.codec, codec)
    ensures var (_, bytes, exported) := Export(c, e.store, e.codec.rows, start, end);
            var (imported, result) := Import(c, z, Importer(onDisk, capacity, codec), bytes, trained);
            && exported.Ok?
            && (if FailsMidway(codec, start, end, trained) then result == Err(TrainingFailed)
                else result == Ok(exported.value.(checksum := ZERO)) && Reproduces(e.store, imported.store, start, end, h))
  {
    hide Coherent, Chain, MirrorsOk, Export, Import, IsSnapshot, OpenSynced, Compression.Lawful, Compression.Portable, Lawful,
      Reproduces, Framed, FailsMidway;
    var f := Importer(onDisk, capacity, codec);
    var (_, bytes, exported) := Export(c, e.store, e.codec.rows, start, end);
    ExportIsSnapshot(c, z, e, start, end, f, trained);
    StretchImports(c, z, e, start, end, onDisk, capacity, codec, trained, exported.value.(checksum := ZERO), bytes, h);
  }

  lemma StretchImports(
    c: Codec, z: Compression.Zstd, e: Full, start: Height, end: Height, onDisk: Option<seq<Byte>>, capacity: nat,
    codec: Compression.State, trained: Trainings, m: Manifest, bytes: Bytes, h: Height)
    requires Lawful(c) && Spans(e.store, start, end) && Covered(e.store.db, start, end + 1)
    requires Framed(e.store.db, e.codec.rows, start, end + 1)
    requires Compression.Settled(codec) && codec.rows == map[] && forall k :: trained(k) != Some([])
    requires IsSnapshot(c, z, Importer(onDisk, capacity, codec), trained, m, PayloadList(e.store.db, e.codec.rows, start, end + 1),
                        BlockList(e.store.db, start, end + 1), bytes)
    ensures var (imported, result) := Import(c, z, Importer(onDisk, capacity, codec), bytes, trained);
            if FailsMidway(codec, start, end, trained) then result == Err(TrainingFailed)
            else result == Ok(m) && Reproduces(e.store, imported.store, start, end, h)
  {
    hide Coherent, Chain, Import, PutAll, PutAllFull, NeverFails, IsSnapshot, OpenSynced, Lawful, Reproduces, FailsMidway;
    var db, f := e.store.db, Importer(onDisk, capacity, codec);
    var payloads, blocks := PayloadList(db, e.codec.rows, start, end + 1), BlockList(db, start, end + 1);
    SnapshotsAreAccepted(c, z, f, m, payloads, blocks, bytes, trained);
    ImportTrainsThrough(z, db, e.codec.rows, start, end, f, trained);
    PutAllFullStores(z, f, blocks, trained);
    ImportedChain(e.store, e.codec.rows, start, end, onDisk, capacity, h);
  }

  /** The importer calls for a dictionary, gets to its thousandth block, and the training after that one fails. */
  ghost predicate FailsMidway(codec: Compression.State, start: Height, end: Height, trained: Trainings) {
    && Compression.Wanting(codec)
    && end - start + 1 >= Compression.DICT_TRAINING_THRESHOLD
    && trained(start + Compression.DICT_TRAINING_THRESHOLD - 1).None?
  }

  /** Genuine blocks within the bound of a codec that uses dictionaries. */
  ghost predicate Storable(z: Compression.Zstd, codec: Compression.State, blocks: seq<Block>) {
    forall i | 0 <= i < |blocks| :: z.genuine(blocks[i]) && (codec.useDict ==> |z.serialize(blocks[i])| <= codec.cap)
  }

  lemma {:induction false} PutAllFullMirrors(z: Compression.Zstd, f: Full, blocks: seq<Block>, trained: Trainings)
    requires MirrorsOk(z, f) && Storable(z, f.codec, blocks) && forall h :: trained(h) != Some([])
    ensures MirrorsOk(z, PutAllFull(z, f, blocks, trained))
    decreases |blocks|
  {
    hide PutFull, Mirrors;
    if blocks != [] {
      var b, tail := blocks[0], blocks[1..];
      var next := PutFull(z, f, b, true, trained(b.Height())).0;
      PutFullMirrors(z, f, b, true, trained(b.Height()));
      PutFullContinues(z, f, b, trained(b.Height()));
      assert forall i | 0 <= i < |tail| :: tail[i] == blocks[i + 1];
      PutAllFullMirrors(z, next, tail, trained);
    }
  }

  /**
   The imported payloads are re-encoded on the way, from some block on with the importer's own dictionary; they all
   decode to their blocks in the state the import ends in, if the exported blocks fit the importer's bound.
   */
  lemma ImportedPayloadsStayReadable(
    c: Codec, z: Compression.Zstd, e: Full, start: Height, end: Height,
    onDisk: Option<seq<Byte>>, capacity: nat, codec: Compression.State, trained: Trainings)
    requires Lawful(c) && Compression.Lawful(z) && forall k :: trained(k) != Some([])
    requires MirrorsOk(z, e) && Spans(e.store, start, end) && Framed(e.store.db, e.codec.rows, start, end + 1)
    requires ReadyToRead(e.codec, codec)
    requires codec.useDict ==> forall x | x in e.store.db.blocks :: |z.serialize(e.store.db.blocks[x])| <= codec.cap
    ensures var (_, bytes, _) := Export(c, e.store, e.codec.rows, start, end);
            var (imported, result) := Import(c, z, Importer(onDisk, capacity, codec), bytes, trained);
            result.Ok? ==> MirrorsOk(z, imported)
  {
    hide Coherent, Chain, MirrorsOk, Export, Import, IsSnapshot, OpenSynced, Compression.Lawful, Compression.Portable, Lawful,
      Storable, PutAllFull, NeverFails;
    var f, db := Importer(onDisk, capacity, codec), e.store.db;
    var (_, bytes, exported) := Export(c, e.store, e.codec.rows, start, end);
    ExportIsSnapshot(c, z, e, start, end, f, trained);
    var payloads, blocks := PayloadList(db, e.codec.rows, start, end + 1), BlockList(db, start, end + 1);
    SnapshotsAreAccepted(c, z, f, exported.value.(checksum := ZERO), payloads, blocks, bytes, trained);
    StretchIsStorable(z, e, start, end, codec);
    assert MirrorsOk(z, f) by { NothingMirrors(z, onDisk, capacity, codec); }
    PutAllFullMirrors(z, f, blocks, trained);
  }

  lemma NothingMirrors(z: Compression.Zstd, onDisk: Option<seq<Byte>>, capacity: nat, codec: Compression.State)
    requires codec.rows == map[] && Compression.Settled(codec)
    ensures MirrorsOk(z, Importer(onDisk, capacity, codec))
  {
  }

  lemma StretchIsStorable(z: Compression.Zstd, e: Full, start: Height, end: Height, codec: Compression.State)
    requires MirrorsOk(z, e) && Chain(e.store.db) && Covered(e.store.db, start, end + 1) && start <= end
    requires Framed(e.store.db, e.codec.rows, start, end + 1)
    requires codec.useDict ==> forall x | x in e.store.db.blocks :: |z.serialize(e.store.db.blocks[x])| <= codec.cap
    ensures Storable(z, codec, BlockList(e.store.db, start, end + 1))
  {
    hide Chain, MirrorsOk;
    var db := e.store.db;
    var blocks := BlockList(db, start, end + 1);
    forall i | 0 <= i < |blocks|
      ensures z.genuine(blocks[i]) && (codec.useDict ==> |z.serialize(blocks[i])| <= codec.cap)
    {
      StretchIsWritten(z, e, start, end, i);
      ChainBlock(db, start + i);
      assert blocks[i] == db.blocks[db.canonical[start + i]];
    }
  }

  /** For a fresh importer the training that matters is the one after its thousandth block. */
  lemma ImportTrainsThrough(
    z: Compression.Zstd, db: Db, payloads: map<Hash, Bytes>, start: Height, end: Height, f: Full, trained: Trainings)
    requires Chain(db) && Covered(db, start, end + 1) && start <= end && Framed(db, payloads, start, end + 1)
    requires Compression.Settled(f.codec) && f.codec.rows == map[] && f.store.db.blocks == map[] && !f.store.readOnly
    requires forall k :: trained(k) != Some([])
    ensures NeverFails(z, f, BlockList(db, start, end + 1), trained) <==> !FailsMidway(f.codec, start, end, trained)
  {
    hide Chain, NeverFails, DistinctBlocks, LinkedPayloads, TrainsThrough;
    var blocks := BlockList(db, start, end + 1);
    ChainBlocksLink(db, payloads, start, end + 1);
    FailsExactlyWhenDue(z, f, blocks, trained);
    StretchTrainsThrough(f.codec, db, start, end, trained);
  }

  lemma StretchTrainsThrough(codec: Compression.State, db: Db, start: Height, end: Height, trained: Trainings)
    requires Chain(db) && Covered(db, start, end + 1) && start <= end && codec.rows == map[]
    requires forall h: Height | start <= h <= end :: db.canonical[h] in db.blocks
    ensures TrainsThrough(codec, BlockList(db, start, end + 1), trained) <==> !FailsMidway(codec, start, end, trained)
  {
    hide Chain, Compression.Wanting;
    var blocks, k := BlockList(db, start, end + 1), Compression.RowsToSpare(codec);
    if k < |blocks| {
      ChainBlock(db, start + k);
      assert blocks[k] == db.blocks[db.canonical[start + k]];
    }
  }

  /** What an empty store answers once the blocks of a stretch of a chain have been put into it. */
  lemma ImportedChain(
    s: Store, payloads: map<Hash, Bytes>, start: Height, end: Height, onDisk: Option<seq<Byte>>, capacity: nat, h: Height)
    requires Spans(s, start, end) && Covered(s.db, start, end + 1) && Framed(s.db, payloads, start, end + 1)
    ensures Reproduces(s, PutAll(Open(EMPTY_DB, onDisk, true, capacity), BlockList(s.db, start, end + 1)), start, end, h)
  {
    hide CacheAgrees, BinAgrees, Resolve, PutAll, LinkedPayloads, OpenSynced, RowsLinked, Paired, DistinctBlocks;
    var db := s.db;
    var blocks := BlockList(db, start, end + 1);
    var empty := Open(EMPTY_DB, onDisk, true, capacity);
    ChainBlocksLink(db, payloads, start, end + 1);
    OpenCoherent(EMPTY_DB, onDisk, true, capacity);
    PutAllStores(empty, blocks);
    var after := PutAll(empty, blocks);
    LookupIsVisible(after, h);
    LookupIsVisible(s, h);
    HeldRows(db, start, end, blocks, after.db, h);
  }

  /** A database that holds exactly the blocks of a stretch of a chain has exactly its rows. */
  lemma HeldRows(db: Db, start: Height, end: Height, blocks: seq<Block>, after: Db, h: Height)
    requires Chain(db) && Covered(db, start, end + 1) && start <= end
    requires forall k: Height | start <= k <= end :: db.canonical[k] in db.blocks
    requires blocks == BlockList(db, start, end + 1)
    requires forall i | 0 <= i < |blocks| :: Holds(after, blocks[i])
    requires forall k | k in after.canonical :: exists i | 0 <= i < |blocks| :: blocks[i].Height() == k
    ensures Row(after.canonical, h) == (if start <= h <= end then Row(db.canonical, h) else None)
    ensures start <= h <= end ==> Row(after.blocks, db.canonical[h]) == Row(db.blocks, db.canonical[h])
  {
    hide Chain;
    if start <= h <= end {
      ChainBlock(db, h);
      assert blocks[h - start] == db.blocks[db.canonical[h]];
      assert Holds(after, blocks[h - start]);
    } else if h in after.canonical {
      var i :| 0 <= i < |blocks| && blocks[i].Height() == h;
      ChainBlock(db, start + i);
    }
  }

  /**
   What a store exports after any run that leaves a chain imports into a fresh store that can read it: always when the
   exporter uses no dictionary, otherwise when the importer has the same one. No assumption is made about the payloads
   beyond their 32-bit length, nor about what the importer trains on the way; the one training that can turn the import
   down is the one that falls due.
   */
  lemma SnapshotOfAnyRunImports(
    c: Codec, z: Compression.Zstd, f0: Full, ops: seq<FullOp>, start: Height, end: Height,
    onDisk: Option<seq<Byte>>, capacity: nat, codec: Compression.State, trained: Trainings, h: Height)
    requires Lawful(c) && Compression.Lawful(z) && MirrorsOk(z, f0) && SaneRun(z, f0, ops)
    requires var e := FullRun(z, f0, ops);
             && Spans(e.store, start, end) && ReadyToRead(e.codec, codec)
             && forall x | x in e.codec.rows :: |e.codec.rows[x]| < U32_SIZE
    requires forall k :: trained(k) != Some([])
    ensures var e := FullRun(z, f0, ops);
            var (_, bytes, exported) := Export(c, e.store, e.codec.rows, start, end);
            var (imported, result) := Import(c, z, Importer(onDisk, capacity, codec), bytes, trained);
            && exported.Ok?
            && (if FailsMidway(codec, start, end, trained) then result == Err(TrainingFailed)
                else result == Ok(exported.value.(checksum := ZERO)) && Reproduces(e.store, imported.store, start, end, h))
  {
    hide FullRun, SaneRun, MirrorsOk, Compression.Lawful, Lawful, Export, Import, Coherent, RowsLinked, Paired, OpenSynced,
      ReadyToRead, Reproduces, Framed, FailsMidway;
    var e := FullRun(z, f0, ops);
    FullRunMirrors(z, f0, ops);
    MirroredFrames(z, e, start, end + 1);
    SnapshotRoundTrip(c, z, e, start, end, onDisk, capacity, codec, trained, h);
  }
}
