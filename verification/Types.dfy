/** Values shared by every part of the store: bytes, hashes, heights, blocks, the chain tip and the error cases. */
module ChainTypes {

  type Byte = b: int | 0 <= b < 256

  /** A 64-bit unsigned integer (also `usize` on the supported targets). */
  const U64_SIZE: nat := 0x1_0000_0000_0000_0000

  type U64 = x: int | 0 <= x < U64_SIZE

  /** The first height whose slot does not fit in a 64-bit byte offset: 2^59 - 1. */
  const SLOT_LIMIT: nat := 0x7FF_FFFF_FFFF_FFFF

  /** A height that `canonical.bin` can hold. */
  type Height = h: nat | h < SLOT_LIMIT

  /** A header hash (`Bytes32`). */
  type Hash = s: seq<Byte> | |s| == 32 witness seq(32, _ => 0)

  /** The all-zero hash, which `canonical.bin` cannot tell from a gap. */
  const ZERO: Hash := [0, 0, 0, 0, 0, 0, 0, 0, 0, 0, 0, 0, 0, 0, 0, 0, 0, 0, 0, 0, 0, 0, 0, 0, 0, 0, 0, 0, 0, 0, 0, 0]

  datatype Option<+T> = None | Some(value: T)

  /** The header fields the store reads. */
  datatype Header = Header(height: Height, parent: Hash, stateRoot: Hash)

  /** A block. `hash` stands for the digest of its header; the store never recomputes it, so nothing here forces it to be one. */
  datatype Block = Block(hash: Hash, header: Header, body: seq<Byte>) {
    function Height(): Height { header.height }
  }

  datatype ChainTip = ChainTip(hash: Hash, height: Height)

  datatype Error =
    | ReadOnly
    | AlreadyInitialized
    | GenesisHeight(height: Height)
    | NoTip
    | RollbackAboveTip(target: Height, tip: Height)
    | RollbackBelowMin(target: Height, min: nat)
    | EmptyReorgChain
    | BlockNotInStore(hash: Hash)
    | BlockNotFound(hash: Hash)
    | Malformed
    | TrainingFailed

  datatype Result<+T> = Ok(value: T) | Err(error: Error)

  /** The row a finite map holds at a key, if any. */
  function Row<K, V>(m: map<K, V>, k: K): (r: Option<V>) {
    if k in m then Some(m[k]) else None
  }
}
