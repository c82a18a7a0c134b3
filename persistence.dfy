/**
 * `save_event_to_db`: one conditional insert into the
 * `user_operation_events` table, whose uniqueness constraint is the pair
 * (`user_op_hash`, `nonce`) of key texts. The table is a map from that pair to
 * the row; the database may refuse a write, which the caller is told of.
 */
module Persistence {
  import opened Wrappers
  import opened Events
  import opened Formatting

  const TWO_63: nat := 0x8000_0000_0000_0000
  const TWO_64: nat := 0x1_0000_0000_0000_0000
  const TWO_128: nat := 0x1_0000_0000_0000_0000_0000_0000_0000_0000

  /** Rust's `i64`, the type bound to the `BIGINT` columns. */
  type I64 = x: int | -0x8000_0000_0000_0000 <= x < 0x8000_0000_0000_0000

  /**
   * Rust's `x as i64` for an unsigned `x`: the low 64 bits of `x`, read as a
   * two's-complement number. It agrees with `x` modulo 2^64, which in the
   * range of `i64` pins it down, and it is `x` itself below 2^63.
   */
  function AsI64(x: nat): (r: I64)
    ensures r % TWO_64 == x % TWO_64
    ensures x < TWO_64 ==> r % TWO_64 == x
    ensures x < TWO_63 ==> r == x
  {
    var low := x % TWO_64;
    if low < TWO_63 then low else low - TWO_64
  }

  /** Only one `i64` has given low 64 bits, so `AsI64` is the only such conversion. */
  lemma AsI64Unique(x: nat, r: I64)
    requires r % TWO_64 == x % TWO_64
    ensures r == AsI64(x)
  {
  }

  /** Gas figures of 2^63 wei or more are stored as negative numbers. */
  lemma AsI64Wraps(x: nat)
    requires TWO_63 <= x < TWO_64
    ensures AsI64(x) == x - TWO_64 && AsI64(x) < 0
  {
  }

  /**
   * `U256::as_u128` panics above 2^128 - 1, so the gas columns can be
   * written only for events whose gas figures fit in 128 bits.
   */
  predicate Storable(e: UserOperationEvent) {
    e.actualGasCost < TWO_128 && e.actualGasUsed < TWO_128
  }

  /** One row of `user_operation_events`. */
  datatype Row = Row(
    userOpHash: string,
    sender: string,
    paymaster: string,
    nonce: string,
    success: bool,
    actualGasCost: I64,
    actualGasUsed: I64,
    blockNumber: I64)

  /** The uniqueness constraint: (`user_op_hash`, `nonce`). */
  type Key = (string, string)

  /**
   * The key of an event: the texts of its hash and of its nonce, each `0x`
   * and 64 lowercase hexadecimal digits.
   */
  function KeyOf(e: UserOperationEvent): (k: Key)
    ensures |k.0| == 66 && k.0[..2] == "0x" && AllLowerHex(k.0[2..])
    ensures |k.1| == 66 && k.1[..2] == "0x" && AllLowerHex(k.1[2..])
  {
    (DebugHex(e.userOpHash), NonceText(e.nonce))
  }

  /** Two events share a key exactly when they share hash and nonce. */
  lemma KeyOfInjective(a: UserOperationEvent, b: UserOperationEvent)
    ensures KeyOf(a) == KeyOf(b) <==> a.userOpHash == b.userOpHash && a.nonce == b.nonce
  {
    DebugHexInjective(a.userOpHash, b.userOpHash);
    NonceTextInjective(a.nonce, b.nonce);
  }

  /** The row written for `e` found in block `blockNumber`; its key columns carry the key. */
  function RowOf(e: UserOperationEvent, blockNumber: U64): (row: Row)
    requires Storable(e)
    ensures (row.userOpHash, row.nonce) == KeyOf(e)
  {
    Row(DebugHex(e.userOpHash), DebugHex(e.sender), DebugHex(e.paymaster), NonceText(e.nonce),
        e.success, AsI64(e.actualGasCost), AsI64(e.actualGasUsed), AsI64(blockNumber))
  }

  /**
   * What a stored row says about its event: the nonce reads back exactly,
   * and each integer column keeps the low 64 bits of its figure (so all of
   * the block height, and all of a gas figure below 2^63).
   */
  lemma RowColumns(e: UserOperationEvent, blockNumber: U64)
    requires Storable(e)
    ensures var row := RowOf(e, blockNumber);
      && ParseNonceText(row.nonce) == Some(e.nonce)
      && row.success == e.success
      && row.actualGasCost % TWO_64 == e.actualGasCost % TWO_64
      && row.actualGasUsed % TWO_64 == e.actualGasUsed % TWO_64
      && (e.actualGasCost < TWO_63 ==> row.actualGasCost == e.actualGasCost)
      && (e.actualGasUsed < TWO_63 ==> row.actualGasUsed == e.actualGasUsed)
      && row.blockNumber % TWO_64 == blockNumber
      && (blockNumber < TWO_63 ==> row.blockNumber == blockNumber)
  {
    ParseNonceTextOfNonceText(e.nonce);
  }

  /** Every row is stored under the key its own key columns spell. */
  predicate Keyed(rows: map<Key, Row>) {
    forall k :: k in rows ==> k == (rows[k].userOpHash, rows[k].nonce)
  }

  /**
   * `INSERT ... ON CONFLICT (user_op_hash, nonce) DO NOTHING`: the key of `e`
   * is present afterwards, rows already stored never change, and a row is
   * added exactly when the key was absent.
   */
  function InsertIfAbsent(rows: map<Key, Row>, e: UserOperationEvent, blockNumber: U64): (r: map<Key, Row>)
    requires Storable(e)
    ensures r.Keys == rows.Keys + {KeyOf(e)}
    ensures forall k :: k in rows ==> r[k] == rows[k]
    ensures KeyOf(e) !in rows ==> r[KeyOf(e)] == RowOf(e, blockNumber)
    ensures |r| == if KeyOf(e) in rows then |rows| else |rows| + 1
    ensures Keyed(rows) ==> Keyed(r)
  {
    var key := KeyOf(e);
    if key in rows then rows
    else
      var row := RowOf(e, blockNumber);
      assert key == (row.userOpHash, row.nonce);
      rows[key := row]
  }

  /** Saving the same event again, from whatever block, changes nothing. */
  lemma InsertIfAbsentIdempotent(rows: map<Key, Row>, e: UserOperationEvent, b1: U64, b2: U64)
    requires Storable(e)
    ensures InsertIfAbsent(InsertIfAbsent(rows, e, b1), e, b2) == InsertIfAbsent(rows, e, b1)
  {
  }

  /** A storage failure reported by the database driver. */
  datatype DbError = DbError

  /** The `user_operation_events` table behind the connection pool. */
  class EventTable {
    var rows: map<Key, Row>

    /**
     * The uniqueness constraint on (`user_op_hash`, `nonce`), held as an
     * invariant: every row sits under the key its own key columns spell.
     */
    ghost predicate Valid()
      reads this
    {
      Keyed(rows)
    }

    constructor ()
      ensures Valid() && rows == map[]
    {
      rows := map[];
    }

    /**
     * `save_event_to_db`: formats the columns and runs the conditional
     * insert. When the database fails the statement (`writeFails`) the error
     * is returned and nothing is written; otherwise the call succeeds, for a
     * duplicate too.
     */
    method SaveEventToDb(event: UserOperationEvent, blockNumber: U64, writeFails: bool)
      returns (r: Outcome<DbError>)
      requires Valid() && Storable(event)
      modifies this
      ensures Valid()
      ensures r.Fail? <==> writeFails
      ensures rows == if writeFails then old(rows) else InsertIfAbsent(old(rows), event, blockNumber)
    {
      var userOpHash := DebugHex(event.userOpHash);
      var sender := DebugHex(event.sender);
      var paymaster := DebugHex(event.paymaster);
      var nonce := NonceText(event.nonce);
      if writeFails {
        return Fail(DbError);
      }
      var key := (userOpHash, nonce);
      if key !in rows {
        rows := rows[key := Row(userOpHash, sender, paymaster, nonce, event.success,
                                AsI64(event.actualGasCost), AsI64(event.actualGasUsed),
                                AsI64(blockNumber))];
      }
      return Pass;
    }
  }
}
