/**
 * The values the indexer handles: fixed-width integers and byte strings, the
 * decoded `UserOperationEvent` record and the log envelope a node delivers.
 */
module Events {
  import opened Wrappers
  import opened Digits

  type uint8 = x: nat | x < 0x100

  /** Rust's `u64` (block heights). */
  type U64 = x: nat | x < 0x1_0000_0000_0000_0000

  /** A 256-bit unsigned integer (`U256`). */
  type U256 = x: nat | x < TWO_256

  /** A 32-byte hash (`H256`): a topic slot or a user operation hash. */
  type H256 = s: seq<uint8> | |s| == 32 witness seq(32, _ => 0)

  /** A 20-byte account address (`Address`, that is `H160`). */
  type Address = s: seq<uint8> | |s| == 20 witness seq(20, _ => 0)

  /** One emission of `UserOperationEvent` by the entry point contract. */
  datatype UserOperationEvent = UserOperationEvent(
    userOpHash: H256,
    sender: Address,
    paymaster: Address,
    nonce: U256,
    success: bool,
    actualGasCost: U256,
    actualGasUsed: U256)

  /**
   * A log as the node returns it: the topic slots (topic 0 is the event
   * signature hash), the non-indexed payload, and the height of the block
   * that holds it when the node knows it.
   */
  datatype Log = Log(topics: seq<H256>, data: seq<uint8>, blockNumber: Option<U64>)

  /** The unsigned big-endian value of a byte string. */
  function BigEndian(bytes: seq<uint8>): (r: nat)
    ensures r < Pow(256, |bytes|)
  {
    FromDigits(bytes, 256)
  }

  /** The `k`-byte big-endian encoding of `n`, left-padded with zero bytes. */
  function ToBigEndian(n: nat, k: nat): (bytes: seq<uint8>)
    ensures |bytes| == k
  {
    ToDigits(n, 256, k)
  }

  /** A value that fits in `k` bytes survives encoding and decoding. */
  lemma BigEndianOfToBigEndian(n: nat, k: nat)
    requires n < Pow(256, k)
    ensures BigEndian(ToBigEndian(n, k)) == n
  {
    FromDigitsToDigits(n, 256, k);
  }

  /** Byte strings of one width are determined by their big-endian value. */
  lemma BigEndianInjective(a: seq<uint8>, b: seq<uint8>)
    requires |a| == |b|
    ensures BigEndian(a) == BigEndian(b) <==> a == b
  {
    if BigEndian(a) == BigEndian(b) {
      FromDigitsInjective(a, b, 256);
    }
  }

  lemma {:induction false} ToBigEndianOfBigEndian(bytes: seq<uint8>)
    ensures ToBigEndian(BigEndian(bytes), |bytes|) == bytes
  {
    ToDigitsFromDigits(bytes, 256);
  }
}
