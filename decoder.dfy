/**
 * The hand-written decoder of `UserOperationEvent` logs, following the Events
 * section and the formal specification of the encoding in the Solidity
 * Contract ABI Specification: the three indexed fields sit in topics 1 to 3,
 * the four static non-indexed fields in four left-padded 32-byte big-endian
 * words of the payload.
 */
module Decoder {
  import opened Wrappers
  import opened Digits
  import opened Events

  /** `ethers::abi::Error::InvalidData`, the one error the decoder returns. */
  datatype AbiError = InvalidData

  /** The 32-byte payload word at byte offset `at`, read as a big-endian `uint256`. */
  function WordAt(data: seq<uint8>, at: nat): (v: U256)
    requires at + 32 <= |data|
  {
    WordBound();
    BigEndian(data[at..at + 32])
  }

  /** The word read at `at` is the `uint256` whose encoding is exactly those 32 bytes. */
  lemma WordAtEncodes(data: seq<uint8>, at: nat)
    requires at + 32 <= |data|
    ensures EncodeWord(WordAt(data, at)) == data[at..at + 32]
  {
    ReencodeWord(data[at..at + 32]);
  }

  /**
   * `Address::from(H256)`: the last (low-order) 20 bytes of a topic. The
   * conversion loses nothing exactly when the first 12 bytes are zero, that
   * is when the topic is the padded address.
   */
  function AddressOf(topic: H256): (a: Address)
    ensures a == topic[12..]
    ensures PadAddress(a) == topic <==> forall i :: 0 <= i < 12 ==> topic[i] == 0
  {
    assert topic == topic[..12] + topic[12..];
    topic[12..]
  }

  /**
   * `decode_user_operation_event`: a log is accepted exactly when it has four
   * topics, a 128-byte payload and a known block height; the fields are then
   * read at their fixed ABI positions and the log's height is passed along.
   */
  function DecodeUserOperationEvent(log: Log): (r: Result<(UserOperationEvent, U64), AbiError>)
    ensures r.Success? <==> |log.topics| == 4 && |log.data| == 128 && log.blockNumber.Some?
    ensures r.Failure? ==> r.error == InvalidData
    ensures r.Success? ==>
      var (e, height) := r.value;
      && height == log.blockNumber.value
      && e.userOpHash == log.topics[1]
      && e.sender == log.topics[2][12..]
      && e.paymaster == log.topics[3][12..]
      && e.nonce == BigEndian(log.data[..32])
      && (e.success <==> log.data[63] != 0)
      && e.actualGasCost == BigEndian(log.data[64..96])
      && e.actualGasUsed == BigEndian(log.data[96..128])
  {
    if |log.topics| != 4 then Failure(InvalidData)
    else
      var userOpHash := log.topics[1];
      var sender := AddressOf(log.topics[2]);
      var paymaster := AddressOf(log.topics[3]);
      var data := log.data;
      if |data| != 128 then Failure(InvalidData)
      else
        var nonce := WordAt(data, 0);
        var success := data[63] != 0;
        var actualGasCost := WordAt(data, 64);
        var actualGasUsed := WordAt(data, 96);
        match log.blockNumber
        case None => Failure(InvalidData)
        case Some(height) =>
          Success((UserOperationEvent(userOpHash, sender, paymaster, nonce, success,
                                      actualGasCost, actualGasUsed), height))
  }

  // ---------------------------------------------------------------------------
  // The encoding the decoder inverts.

  /** A static `uint256` (or `bool`) as one ABI word: 32 big-endian bytes. */
  function EncodeWord(n: U256): (w: seq<uint8>)
    ensures |w| == 32
  {
    ToBigEndian(n, 32)
  }

  /** An encoded word reads back as its value. */
  lemma WordOfEncodeWord(n: U256)
    ensures BigEndian(EncodeWord(n)) == n
  {
    WordBound();
    BigEndianOfToBigEndian(n, 32);
  }

  /** An `address` as an indexed topic: twelve zero bytes, then the address. */
  function PadAddress(a: Address): (t: H256)
  {
    seq(12, _ => 0) + a
  }

  /**
   * The log the contract emits for `e` in block `height`, with `signature`
   * (the event's topic 0) left opaque.
   */
  function EncodeUserOperationEvent(signature: H256, e: UserOperationEvent, height: U64): (log: Log)
  {
    Log(EncodeTopics(signature, e), EncodePayload(e), Some(height))
  }

  /** The indexed fields: the signature, the hash and the two padded addresses. */
  function EncodeTopics(signature: H256, e: UserOperationEvent): (topics: seq<H256>)
  {
    [signature, e.userOpHash, PadAddress(e.sender), PadAddress(e.paymaster)]
  }

  /** The non-indexed fields: four words, `success` as the word 0 or 1. */
  function EncodePayload(e: UserOperationEvent): (data: seq<uint8>)
  {
    EncodeWord(e.nonce) + EncodeWord(if e.success then 1 else 0)
      + EncodeWord(e.actualGasCost) + EncodeWord(e.actualGasUsed)
  }

  /** Decoding inverts encoding, whatever the signature topic. */
  lemma DecodeEncoded(signature: H256, e: UserOperationEvent, height: U64)
    ensures DecodeUserOperationEvent(EncodeUserOperationEvent(signature, e, height)) == Success((e, height))
  {
    var log := EncodeUserOperationEvent(signature, e, height);
    EncodedFields(signature, e, height);
    var r := DecodeUserOperationEvent(log);
    assert r.Success?;
    var d := r.value.0;
    assert d.sender == e.sender && d.paymaster == e.paymaster;
    assert d.success == e.success;
  }

  /** Each field of `e` sits where the decoder reads it in the encoding. */
  lemma EncodedFields(signature: H256, e: UserOperationEvent, height: U64)
    ensures var log := EncodeUserOperationEvent(signature, e, height);
      && |log.topics| == 4 && |log.data| == 128 && log.blockNumber == Some(height)
      && log.topics[1] == e.userOpHash
      && log.topics[2][12..] == e.sender && log.topics[3][12..] == e.paymaster
      && BigEndian(log.data[..32]) == e.nonce
      && (log.data[63] != 0 <==> e.success)
      && BigEndian(log.data[64..96]) == e.actualGasCost
      && BigEndian(log.data[96..128]) == e.actualGasUsed
  {
    var flag: U256 := if e.success then 1 else 0;
    var w0, w1 := EncodeWord(e.nonce), EncodeWord(flag);
    var w2, w3 := EncodeWord(e.actualGasCost), EncodeWord(e.actualGasUsed);
    LastByte(flag);
    WordsOf(w0, w1, w2, w3);
    WordOfEncodeWord(e.nonce);
    WordOfEncodeWord(e.actualGasCost);
    WordOfEncodeWord(e.actualGasUsed);
  }

  /** Where the four words of a 128-byte payload lie. */
  lemma WordsOf(w0: seq<uint8>, w1: seq<uint8>, w2: seq<uint8>, w3: seq<uint8>)
    requires |w0| == |w1| == |w2| == |w3| == 32
    ensures var d := w0 + w1 + w2 + w3;
      && |d| == 128
      && d[..32] == w0 && d[32..64] == w1 && d[64..96] == w2 && d[96..128] == w3
      && d[63] == w1[31]
  {
  }

  /** A value below 256 is the last byte of its word. */
  lemma LastByte(n: U256)
    requires n < 256
    ensures EncodeWord(n)[31] == n
  {
    assert n % 256 == n;
  }

  /**
   * A log in the form the contract emits: the address topics carry zero
   * padding and the `success` word is exactly 0 or 1.
   */
  predicate Canonical(log: Log)
    requires |log.topics| == 4 && |log.data| == 128
  {
    && (forall i :: 0 <= i < 12 ==> log.topics[2][i] == 0 && log.topics[3][i] == 0)
    && (forall i :: 32 <= i < 63 ==> log.data[i] == 0)
    && log.data[63] <= 1
  }

  /** Every canonical log the decoder accepts is the encoding of what it decodes. */
  lemma EncodeDecoded(log: Log)
    requires DecodeUserOperationEvent(log).Success?
    requires Canonical(log)
    ensures
      var (e, height) := DecodeUserOperationEvent(log).value;
      EncodeUserOperationEvent(log.topics[0], e, height) == log
  {
    EncodeDecodedPayload(log);
    EncodeDecodedTopics(log);
  }

  /** The topic half of `EncodeDecoded`: the zero padding of the addresses is restored. */
  lemma EncodeDecodedTopics(log: Log)
    requires DecodeUserOperationEvent(log).Success?
    requires Canonical(log)
    ensures EncodeTopics(log.topics[0], DecodeUserOperationEvent(log).value.0) == log.topics
  {
    var e := DecodeUserOperationEvent(log).value.0;
    var ts := log.topics;
    assert PadAddress(e.sender) == ts[2];
    assert PadAddress(e.paymaster) == ts[3];
    assert ts == [ts[0], ts[1], ts[2], ts[3]];
  }

  /** The payload half of `EncodeDecoded`: each word re-encodes to itself. */
  lemma EncodeDecodedPayload(log: Log)
    requires DecodeUserOperationEvent(log).Success?
    requires Canonical(log)
    ensures EncodePayload(DecodeUserOperationEvent(log).value.0) == log.data
  {
    ReencodePayload(log.data);
  }

  /** A canonical 128-byte payload is the encoding of the four values it holds. */
  lemma ReencodePayload(d: seq<uint8>)
    requires |d| == 128 && d[63] <= 1
    requires forall i :: 32 <= i < 63 ==> d[i] == 0
    ensures EncodeWord(WordAt(d, 0)) + EncodeWord(if d[63] != 0 then 1 else 0)
      + EncodeWord(WordAt(d, 64)) + EncodeWord(WordAt(d, 96)) == d
  {
    var w0, w1, w2, w3 := d[..32], d[32..64], d[64..96], d[96..128];
    assert d == w0 + w1 + w2 + w3;
    assert EncodeWord(WordAt(d, 0)) == w0 by {
      ReencodeWord(w0);
    }
    var flag: U256 := if d[63] != 0 then 1 else 0;
    assert flag == w1[31];
    assert BigEndian(w1) == flag by {
      PaddedByte(w1);
    }
    assert EncodeWord(flag) == w1 by {
      ReencodeWord(w1);
    }
    assert EncodeWord(WordAt(d, 64)) == w2 by {
      ReencodeWord(w2);
    }
    assert EncodeWord(WordAt(d, 96)) == w3 by {
      ReencodeWord(w3);
    }
  }

  /** Every 32-byte word is the encoding of its value. */
  lemma ReencodeWord(w: seq<uint8>)
    requires |w| == 32
    ensures BigEndian(w) < TWO_256 && EncodeWord(BigEndian(w)) == w
  {
    WordBound();
    ToBigEndianOfBigEndian(w);
  }

  /** A word that is zero but for its last byte has that byte as its value. */
  lemma {:induction false} PaddedByte(w: seq<uint8>)
    requires |w| > 0 && forall i :: 0 <= i < |w| - 1 ==> w[i] == 0
    ensures BigEndian(w) == w[|w| - 1]
  {
    var k := |w|;
    assert BigEndian(w) == BigEndian(w[..k - 1]) * 256 + w[k - 1];
    if k > 1 {
      PaddedByte(w[..k - 1]);
    }
  }

  /**
   * Only the low byte of the `success` word matters: two logs that differ
   * only in payload bytes 32 to 62 decode alike.
   */
  lemma SuccessIgnoresPadding(log: Log, other: Log)
    requires other.topics == log.topics && other.blockNumber == log.blockNumber
    requires |other.data| == |log.data|
    requires forall i :: 0 <= i < |log.data| && !(32 <= i < 63) ==> other.data[i] == log.data[i]
    ensures DecodeUserOperationEvent(other) == DecodeUserOperationEvent(log)
  {
    if |log.data| == 128 {
      assert other.data[..32] == log.data[..32];
      assert other.data[64..96] == log.data[64..96];
      assert other.data[96..128] == log.data[96..128];
    }
  }
}
