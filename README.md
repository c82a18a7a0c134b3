# user_op_indexer, modelled in Dafny

The indexer follows the `UserOperationEvent` logs of an ERC-4337 entry point contract and stores them in the Postgres table `user_operation_events`. This project models the three parts of `src/main.rs` that do the work, with the node and the database abstracted away:

- **Decoding** (`decode_user_operation_event`): a log is a topic list, a payload and an optional block height. The decoder accepts the log exactly when it has four topics, a 128-byte payload and a known height. It reads the hash from topic 1 and the two addresses from the low 20 bytes of topics 2 and 3. It reads `nonce`, `actualGasCost` and `actualGasUsed` as big-endian 32-byte words, and `success` from payload byte 63. The model also states the contract's encoding, following the Events section and the formal specification of the encoding in the Solidity Contract ABI Specification. It proves that decoding inverts that encoding, and that every canonical accepted log is such an encoding.
- **Persistence** (`save_event_to_db`): the table is a map from the key `(user_op_hash text, nonce text)` to the row. The text columns are rendered the way the source renders them: the nonce as `0x` plus 64 zero-padded lowercase hex digits, and hashes and addresses in their `{:?}` form. The integer columns use Rust's `as i64`, which keeps the low 64 bits as a two's-complement number. The insert is `ON CONFLICT DO NOTHING`. `EventTable` is a class whose `SaveEventToDb` method updates its `rows` field.
- **Ingestion** (`index_events`): a backfill over blocks `[from, latest]`, then a subscription from `latest + 1`. Each log is decoded. A log that does not decode is reported and skipped. The first failed write ends the run with its error. `IngestLogs` is the loop; it is proved to leave the table equal to `IngestAll`, a fold of conditional inserts over the logs it processed. Lemmas about `IngestAll` state what the run guarantees: undecodable logs leave no trace, stored rows never change, redelivered logs change nothing, and the two phases compose.

Modules: `Wrappers` (Option/Result/Outcome), `Digits` (big-endian numerals in any base), `Events` (the log and event records, `uint256` words), `Decoder`, `Formatting` (the key texts), `Persistence`, `Indexer`.

Two facts about the source shape the model:
- Every rejection by the decoder returns the single error `InvalidData` (src/main.rs:126, 139, 151), so the model has one error value.
- Saving a duplicate returns the same `Ok(())` as an insert (src/main.rs:183, 201), so `SaveEventToDb` reports both as `Pass`.

## Model

| member | source | states |
|---|---|---|
| Decoder.DecodeUserOperationEvent | src/main.rs:122-167 | accepts exactly the logs with 4 topics, a 128-byte payload and a block height, and otherwise fails with `InvalidData`; on success: the hash is topic 1, the addresses are the last 20 bytes of topics 2 and 3, the nonce and gas figures are the big-endian values of payload bytes 0..32, 64..96 and 96..128, `success` holds iff byte 63 is non-zero, and the height is the log's |
| Decoder.DecodeEncoded | src/main.rs:122-167 | decoding the ABI encoding of any event at any height gives back that event and height, whatever topic 0 is |
| Decoder.EncodeDecoded | src/main.rs:122-167 | every accepted log with zero address padding and a 0/1 `success` word is the ABI encoding of what it decodes to |
| Decoder.WordAt | src/main.rs:143-146 | `U256::from_big_endian` of the 32 payload bytes at the offset (definition only; its meaning is `WordAtEncodes`) |
| Decoder.WordAtEncodes | src/main.rs:143-146 | the word read at an offset is the `uint256` whose 32-byte big-endian encoding is exactly the payload bytes there |
| Decoder.AddressOf | src/main.rs:131-132 | `Address::from(H256)` keeps the last 20 bytes of the topic; padding that address again gives back the topic exactly when the topic's first 12 bytes are zero |
| Decoder.SuccessIgnoresPadding | src/main.rs:144 | payload bytes 32 to 62 have no influence on the decoded result |
| Events.BigEndian | src/main.rs:143-146 | the big-endian value of `n` bytes is below 256^n, so a 32-byte word is a `uint256` |
| Events.BigEndianInjective | src/main.rs:143-146 | two byte strings of equal length have the same big-endian value iff they are equal |
| Events.ToBigEndianOfBigEndian | src/main.rs:143-146 | a byte string is the fixed-width big-endian encoding of its own value |
| Formatting.NonceText | src/main.rs:177 | the nonce text is 66 characters: `0x` then 64 lowercase hex digits |
| Formatting.LowerHex | src/main.rs:177 | `{:064x}` and the other fixed-width renderings: exactly `width` lowercase hexadecimal digits (that the digits spell the value, most significant first, is `LowerHexDigits` and `ParseLowerHex`) |
| Formatting.ParseLowerHex | src/main.rs:177 | zero-padded lowercase hex text of a value that fits the width reads back as that value |
| Formatting.ParseNonceTextOfNonceText | src/main.rs:177 | parsing the nonce text yields the nonce |
| Formatting.NonceTextOfParseNonceText | src/main.rs:177 | every text that parses as a nonce is the nonce text of a `uint256`, namely the one it parses to |
| Formatting.NonceTextInjective | src/main.rs:177 | two nonces have the same text iff they are equal |
| Formatting.DebugHex | src/main.rs:174-176 | the `{:?}` text of an `H256` or `Address` is `0x` then two lowercase hex digits per byte |
| Formatting.DebugHexInjective | src/main.rs:174-176 | two byte strings of equal width have the same `{:?}` text iff they are equal |
| Persistence.AsI64 | src/main.rs:190-192 | `x as i64` agrees with `x` modulo 2^64, and equals `x` below 2^63 |
| Persistence.AsI64Unique | src/main.rs:190-192 | `AsI64(x)` is the only `i64` with the low 64 bits of `x` |
| Persistence.AsI64Wraps | src/main.rs:190-192 | a figure in [2^63, 2^64) is stored as the negative number `x - 2^64` |
| Persistence.KeyOf | src/main.rs:174-183 | the `ON CONFLICT (user_op_hash, nonce)` key of an event: both texts are 66 characters, `0x` then 64 lowercase hex digits |
| Persistence.Storable | src/main.rs:190-191 | the events whose gas figures `as_u128` accepts: both below 2^128 (definition only; a precondition of saving) |
| Persistence.KeyOfInjective | src/main.rs:183 | two events collide on the uniqueness key iff they have the same hash and nonce |
| Persistence.RowOf | src/main.rs:179-195 | the row's key columns are the event's key |
| Persistence.RowColumns | src/main.rs:174-192 | the stored nonce text parses back to the nonce, `success` is kept, and the gas and block columns keep the low 64 bits of their figures (all of the block height, and all of a gas figure below 2^63) |
| Persistence.InsertIfAbsent | src/main.rs:179-195 | the event's key is present afterwards; stored rows never change; a row is added, holding the event's columns, exactly when the key was absent; every row stays under its own key |
| Persistence.InsertIfAbsentIdempotent | src/main.rs:183 | saving the same event a second time, from any block, leaves the table as the first save left it |
| Persistence.EventTable.SaveEventToDb | src/main.rs:169-202 | the call fails iff the database fails the statement, and then nothing is written; otherwise the table becomes `InsertIfAbsent` of the old table, for a duplicate too |
| Indexer.BackfillFilter | src/main.rs:70-78 | the historical query covers exactly the blocks `from` to `latest` |
| Indexer.LiveFilter | src/main.rs:96-103 | the subscription covers exactly the blocks after `latest` |
| Indexer.PhasesPartitionBlocks | src/main.rs:76-101 | from `from` on, every block is covered by exactly one of the two filters, and no earlier block by the backfill |
| Indexer.Ingest | src/main.rs:82-90 | one log adds the key of its event if it decodes and nothing otherwise; stored rows never change |
| Indexer.IngestAll | src/main.rs:80-116 | the table after both loops' successful passes: a left fold of `Ingest` over the logs in order (definition only; its properties are the `IngestAll…` lemmas below and the contracts of `IngestLogs` and `IndexEvents`) |
| Indexer.IngestAllKeys | src/main.rs:80-91 | after a pass over logs, the keys are the old ones plus the keys of the logs that decode |
| Indexer.IngestAllKeeps | src/main.rs:80-91 | a stored row is still present, unchanged, after any pass over logs |
| Indexer.IngestAllKeyed | src/main.rs:80-91 | every row stays under the key its own columns spell |
| Indexer.IngestAllAppend | src/main.rs:80-116 | a pass over the backfill logs and then the live logs is a pass over their concatenation |
| Indexer.SkipUndecodable | src/main.rs:87-89 | a log that does not decode leaves the table as if it had never arrived |
| Indexer.IngestAllStored | src/main.rs:183 | logs whose keys are all stored already leave the table unchanged |
| Indexer.Redelivery | src/main.rs:183 | after a pass over some logs, delivering any of them again changes nothing |
| Indexer.IngestAllIdempotent | src/main.rs:183 | running the same logs twice gives the table running them once gives |
| Indexer.EndToEndScenario | src/main.rs:56-119 | an operation in block 100 delivered by both phases leaves one row under its key, with its nonce, outcome, gas figures and block |
| Indexer.IngestLogs | src/main.rs:80-91 | logs are processed in order; on success no write failed and the table is `IngestAll` of all the logs; otherwise the error names the first failed write, no earlier write failed, and the table is `IngestAll` of the logs before it |
| Indexer.IndexEvents | src/main.rs:56-119 | the backfill query is `[from, latest]`; a backfill write failure ends the run before the subscription opens; otherwise the subscription starts at `latest + 1`, and the run either fails at the first failed live write or ends when the stream does, with the table the fold of all backfill logs and then the live logs processed |

## Left out

- The node: `Provider::connect`, `get_block_number`, `get_logs` and `subscribe_logs` are network I/O. The chain head, the historical logs and the logs the subscription delivers are inputs to `IndexEvents`.
- Failures of those node calls (the `?` after `get_block_number`, `get_logs` and `subscribe_logs`) abort the run before or between the phases. They are not modelled, because they are node errors, not decisions of the core.
- The contract address and topic 0 of the filters (the keccak-256 hash of the event signature): the hash is a foreign function. `Filter` keeps only the block range, and the decoder, like the source, never inspects topic 0.
- Postgres and sqlx: the connection pool, the `SELECT 1` check, SQL text and the schema. The table is the `rows` map.
- Configuration and `main`: reading `RPC_URL`, `DATABASE_URL` and `START_BLOCK`, and the startup checks.
- `println!`/`eprintln!` reports, including the report of each skipped log. They are telemetry only.
- The tokio runtime and `Arc`. The loops are sequential, so there is no concurrency to model.
- The `EthEvent` derive. The hand-written decoder does not use it.
- Persistence.EventTable.SaveEventToDb: a failed statement is modelled as writing nothing. The source only propagates the error; a single-statement insert is atomic in Postgres.
- Persistence.EventTable.SaveEventToDb: the `as_u128` panic for gas figures of 2^128 or more is a precondition (`Storable`), not a modelled crash. `IndexEvents` therefore requires every decodable log to be storable.
- Indexer.IndexEvents: the live stream is a finite sequence of the logs delivered before it ends. An unending stream and a stream that ends because the connection dropped are not distinguished from a clean end.
- Indexer.LiveFilter: the start block `latest + 1` is computed on unbounded integers. It does not model the u64 overflow when `latest` is `u64::MAX`, because no chain reaches that height.
- Formatting.DebugHex: the `{:?}` output of `H256` and `Address` is modelled as the full lowercase hex of the bytes, which is an injective rendering. The exact library formatting is not part of this model.
