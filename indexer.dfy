/**
 * `index_events`: backfill the logs of blocks [from, latest], then follow the
 * live subscription from block latest + 1. Each log is decoded; a log that
 * does not decode is reported and skipped, and the first failed write ends
 * the run with its error.
 *
 * The node is abstracted away: the chain head, the answer to the historical
 * query and the logs the subscription delivers before it ends are inputs, as
 * is, per log, whether the database fails that log's write.
 */
module Indexer {
  import opened Wrappers
  import opened Events
  import opened Decoder
  import opened Formatting
  import opened Persistence

  /** A log filter's block range; the contract address and topic 0 are fixed. */
  datatype Filter = Filter(fromBlock: nat, toBlock: Option<nat>)

  predicate Covers(f: Filter, block: nat) {
    f.fromBlock <= block && (f.toBlock.None? || block <= f.toBlock.value)
  }

  /** The historical query: exactly the blocks from `from` to `latest`. */
  function BackfillFilter(from: U64, latest: U64): (f: Filter)
    ensures forall b: nat :: Covers(f, b) <==> from <= b <= latest
  {
    Filter(from, Some(latest))
  }

  /** The subscription: every block after `latest`. */
  function LiveFilter(latest: U64): (f: Filter)
    ensures forall b: nat :: Covers(f, b) <==> latest < b
  {
    Filter(latest + 1, None)
  }

  /**
   * The two phases leave no gap and do not overlap: from `from` on, every
   * block is covered by exactly one of the two filters.
   */
  lemma PhasesPartitionBlocks(from: U64, latest: U64, b: nat)
    ensures from <= b ==> (Covers(BackfillFilter(from, latest), b) <==> !Covers(LiveFilter(latest), b))
    ensures b < from ==> !Covers(BackfillFilter(from, latest), b)
  {
  }

  /** A log that, if it decodes, can be written without `as_u128` panicking. */
  predicate Ingestible(log: Log) {
    DecodeUserOperationEvent(log).Success? ==> Storable(DecodeUserOperationEvent(log).value.0)
  }

  predicate AllIngestible(logs: seq<Log>) {
    forall i {:trigger Ingestible(logs[i])} :: 0 <= i < |logs| ==> Ingestible(logs[i])
  }

  /** The key a log is stored under, if it decodes. */
  function DecodedKey(log: Log): (keys: set<Key>)
  {
    match DecodeUserOperationEvent(log)
    case Success((event, _)) => {KeyOf(event)}
    case Failure(_) => {}
  }

  /** The keys of the logs that decode. */
  function DecodedKeys(logs: seq<Log>): (keys: set<Key>)
  {
    if logs == [] then {} else DecodedKeys(logs[..|logs| - 1]) + DecodedKey(logs[|logs| - 1])
  }

  /**
   * The table after a successful pass over one log: an insert if it
   * decodes, nothing otherwise.
   */
  function Ingest(rows: map<Key, Row>, log: Log): (r: map<Key, Row>)
    requires Ingestible(log)
    ensures r.Keys == rows.Keys + DecodedKey(log)
    ensures forall k :: k in rows ==> r[k] == rows[k]
    ensures Keyed(rows) ==> Keyed(r)
  {
    match DecodeUserOperationEvent(log)
    case Success((event, blockNumber)) => InsertIfAbsent(rows, event, blockNumber)
    case Failure(_) => rows
  }

  /**
   * The table after successful passes over `logs` in order: what both loops
   * of the run compute.
   */
  function IngestAll(rows: map<Key, Row>, logs: seq<Log>): (r: map<Key, Row>)
    requires AllIngestible(logs)
    decreases |logs|
  {
    if logs == [] then rows
    else
      PrefixIngestible(logs, |logs| - 1);
      var previous := IngestAll(rows, logs[..|logs| - 1]);
      var last := logs[|logs| - 1];
      assert Ingestible(last);
      Ingest(previous, last)
  }

  /** The keys after a pass are the old ones plus those of the logs that decode. */
  lemma {:induction false} IngestAllKeys(rows: map<Key, Row>, logs: seq<Log>)
    requires AllIngestible(logs)
    ensures IngestAll(rows, logs).Keys == rows.Keys + DecodedKeys(logs)
    decreases |logs|
  {
    if logs != [] {
      var init, last := logs[..|logs| - 1], logs[|logs| - 1];
      PrefixIngestible(logs, |logs| - 1);
      IngestAllKeys(rows, init);
      var previous := IngestAll(rows, init);
      var after := IngestAll(rows, logs);
      assert after.Keys == previous.Keys + DecodedKey(last) by {
        assert Ingestible(last);
        assert after == Ingest(previous, last);
      }
      UnionStep(after.Keys, previous.Keys, rows.Keys, DecodedKeys(init), DecodedKey(last), DecodedKeys(logs));
    }
  }

  lemma UnionStep(after: set<Key>, previous: set<Key>, start: set<Key>, seen: set<Key>, key: set<Key>, all: set<Key>)
    requires after == previous + key && previous == start + seen && all == seen + key
    ensures after == start + all
  {
  }

  /** A row once stored is never changed by later logs. */
  lemma {:induction false} IngestAllKeeps(rows: map<Key, Row>, logs: seq<Log>, k: Key)
    requires AllIngestible(logs) && k in rows
    ensures k in IngestAll(rows, logs) && IngestAll(rows, logs)[k] == rows[k]
    decreases |logs|
  {
    if logs != [] {
      var init, last := logs[..|logs| - 1], logs[|logs| - 1];
      PrefixIngestible(logs, |logs| - 1);
      assert Ingestible(last);
      IngestAllKeeps(rows, init, k);
      assert IngestAll(rows, logs) == Ingest(IngestAll(rows, init), last);
    }
  }

  /** A table in which every row sits under its own key stays so. */
  lemma {:induction false} IngestAllKeyed(rows: map<Key, Row>, logs: seq<Log>)
    requires AllIngestible(logs) && Keyed(rows)
    ensures Keyed(IngestAll(rows, logs))
    decreases |logs|
  {
    if logs != [] {
      PrefixIngestible(logs, |logs| - 1);
      IngestAllKeyed(rows, logs[..|logs| - 1]);
    }
  }

  /** A prefix of logs that can all be written can all be written. */
  lemma PrefixIngestible(logs: seq<Log>, n: nat)
    requires AllIngestible(logs) && n <= |logs|
    ensures AllIngestible(logs[..n])
  {
    assert forall i :: 0 <= i < n ==> logs[..n][i] == logs[i];
  }

  /** Concatenating logs that can all be written gives logs that can all be written. */
  lemma AppendIngestible(a: seq<Log>, b: seq<Log>)
    requires AllIngestible(a) && AllIngestible(b)
    ensures AllIngestible(a + b)
  {
    assert forall i :: 0 <= i < |a + b| ==> (a + b)[i] == if i < |a| then a[i] else b[i - |a|];
  }

  /** Passing over `a` then `b` is passing over `a + b`. */
  lemma {:induction false} IngestAllAppend(rows: map<Key, Row>, a: seq<Log>, b: seq<Log>)
    requires AllIngestible(a) && AllIngestible(b)
    ensures AllIngestible(a + b)
    ensures IngestAll(rows, a + b) == IngestAll(IngestAll(rows, a), b)
    decreases |b|
  {
    AppendIngestible(a, b);
    if b == [] {
      assert a + b == a;
    } else {
      var n := |b|;
      var init := b[..n - 1];
      PrefixIngestible(b, n - 1);
      var last := b[n - 1];
      assert Ingestible(last);
      assert (a + b)[..|a + b| - 1] == a + init;
      assert (a + b)[|a + b| - 1] == last;
      IngestAllAppend(rows, a, init);
      assert IngestAll(rows, a + b) == Ingest(IngestAll(rows, a + init), last);
    }
  }

  /** A log that does not decode leaves no trace: it is as if it never came. */
  lemma SkipUndecodable(rows: map<Key, Row>, a: seq<Log>, bad: Log, b: seq<Log>)
    requires AllIngestible(a) && AllIngestible(b)
    requires DecodeUserOperationEvent(bad).Failure?
    ensures AllIngestible(a + [bad] + b)
    ensures IngestAll(rows, a + [bad] + b) == IngestAll(rows, a + b)
  {
    IngestAllAppend(rows, a + [bad], b);
    IngestAllAppend(rows, a, b);
    assert (a + [bad])[..|a|] == a;
  }

  /** Passing over logs whose keys are all stored already changes nothing. */
  lemma {:induction false} IngestAllStored(rows: map<Key, Row>, logs: seq<Log>)
    requires AllIngestible(logs)
    requires DecodedKeys(logs) <= rows.Keys
    ensures IngestAll(rows, logs) == rows
    decreases |logs|
  {
    if logs != [] {
      var init, last := logs[..|logs| - 1], logs[|logs| - 1];
      PrefixIngestible(logs, |logs| - 1);
      assert Ingestible(last);
      IngestAllStored(rows, init);
      assert IngestAll(rows, logs) == Ingest(rows, last);
    }
  }

  /** The keys of a sub-collection of logs are among the keys of the whole. */
  lemma {:induction false} DecodedKeysSubset(a: seq<Log>, b: seq<Log>)
    requires forall log :: log in b ==> log in a
    ensures DecodedKeys(b) <= DecodedKeys(a)
    decreases |b|
  {
    if b != [] {
      var last := b[|b| - 1];
      DecodedKeysSubset(a, b[..|b| - 1]);
      assert last in a;
      var i :| 0 <= i < |a| && a[i] == last;
      DecodedKeysHas(a, i);
    }
  }

  /** The key of any one log is among the keys of the logs. */
  lemma {:induction false} DecodedKeysHas(logs: seq<Log>, i: nat)
    requires i < |logs|
    ensures DecodedKey(logs[i]) <= DecodedKeys(logs)
    decreases |logs|
  {
    if i < |logs| - 1 {
      DecodedKeysHas(logs[..|logs| - 1], i);
      assert logs[..|logs| - 1][i] == logs[i];
    }
  }

  /**
   * Redelivery is harmless: after a pass over `a`, a pass over any logs
   * already in `a` (a boundary block seen by both phases, a replayed
   * backfill) leaves the table as it is.
   */
  lemma Redelivery(rows: map<Key, Row>, a: seq<Log>, b: seq<Log>)
    requires AllIngestible(a) && AllIngestible(b)
    requires forall log :: log in b ==> log in a
    ensures IngestAll(IngestAll(rows, a), b) == IngestAll(rows, a)
  {
    DecodedKeysSubset(a, b);
    IngestAllKeys(rows, a);
    IngestAllStored(IngestAll(rows, a), b);
  }

  /** In particular, running the same logs twice is running them once. */
  lemma IngestAllIdempotent(rows: map<Key, Row>, logs: seq<Log>)
    requires AllIngestible(logs)
    ensures IngestAll(IngestAll(rows, logs), logs) == IngestAll(rows, logs)
  {
    Redelivery(rows, logs, logs);
  }

  /**
   * One operation emitted in block 100 (nonce 2, successful, gas cost 50000,
   * gas used 42000) and delivered twice, by the backfill and again by the
   * subscription, leaves exactly one row, under the operation's key, that
   * records its outcome and its block.
   */
  lemma EndToEndScenario(signature: H256, hash: H256, sender: Address, paymaster: Address)
    ensures
      var e := UserOperationEvent(hash, sender, paymaster, 2, true, 50000, 42000);
      var log := EncodeUserOperationEvent(signature, e, 100);
      && AllIngestible([log, log])
      && var table := IngestAll(map[], [log, log]);
      && table.Keys == {KeyOf(e)}
      && table[KeyOf(e)].success
      && ParseNonceText(table[KeyOf(e)].nonce) == Some(2)
      && table[KeyOf(e)].actualGasCost == 50000
      && table[KeyOf(e)].actualGasUsed == 42000
      && table[KeyOf(e)].blockNumber == 100
  {
    var e := UserOperationEvent(hash, sender, paymaster, 2, true, 50000, 42000);
    var log := EncodeUserOperationEvent(signature, e, 100);
    DecodeEncoded(signature, e, 100);
    assert Ingestible(log);
    assert AllIngestible([log]);
    assert [log, log] == [log] + [log];
    IngestAllAppend(map[], [log], [log]);
    IngestAllIdempotent(map[], [log]);
    var table := IngestAll(map[], [log]);
    assert table == InsertIfAbsent(map[], e, 100) by {
      assert [log][..0] == [];
    }
    RowColumns(e, 100);
  }

  /** Whether the write of log `i` is attempted and fails. */
  predicate WriteFails(logs: seq<Log>, writeFails: seq<bool>, i: nat)
    requires |writeFails| == |logs| && i < |logs|
  {
    DecodeUserOperationEvent(logs[i]).Success? && writeFails[i]
  }

  /** No write among the first `n` logs fails. */
  predicate NoWriteFailsBefore(logs: seq<Log>, writeFails: seq<bool>, n: nat)
    requires |writeFails| == |logs| && n <= |logs|
  {
    forall i :: 0 <= i < n ==> !WriteFails(logs, writeFails, i)
  }

  /** The first failed write: the log it was for, and the database's error. */
  datatype SaveFailure = SaveFailure(index: nat, error: DbError)

  /**
   * One phase's loop: every log is decoded in order; a log that decodes is
   * saved, one that does not is skipped, and the first failed save stops
   * the loop with its error.
   */
  method IngestLogs(table: EventTable, logs: seq<Log>, writeFails: seq<bool>)
    returns (r: Outcome<SaveFailure>)
    requires table.Valid() && |writeFails| == |logs| && AllIngestible(logs)
    modifies table
    ensures table.Valid()
    ensures r.Pass? ==>
      && NoWriteFailsBefore(logs, writeFails, |logs|)
      && table.rows == IngestAll(old(table.rows), logs)
    ensures r.Fail? ==>
      && r.error.index < |logs|
      && WriteFails(logs, writeFails, r.error.index)
      && NoWriteFailsBefore(logs, writeFails, r.error.index)
      && table.rows == IngestAll(old(table.rows), logs[..r.error.index])
  {
    for i := 0 to |logs|
      invariant table.Valid()
      invariant NoWriteFailsBefore(logs, writeFails, i)
      invariant table.rows == IngestAll(old(table.rows), logs[..i])
    {
      assert logs[..i + 1][..i] == logs[..i];
      assert Ingestible(logs[i]);
      match DecodeUserOperationEvent(logs[i])
      case Success((event, blockNumber)) =>
        var saved := table.SaveEventToDb(event, blockNumber, writeFails[i]);
        if saved.Fail? {
          return Fail(SaveFailure(i, saved.error));
        }
      case Failure(_) =>
    }
    assert logs[..|logs|] == logs;
    return Pass;
  }

  datatype Phase = Backfill | Live

  /** Why a run stopped other than by the end of the live stream. */
  datatype RunError = RunError(phase: Phase, index: nat, error: DbError)

  /**
   * `index_events`. The run queries [from, latest], ingests the answer
   * `historical`, then subscribes from latest + 1 and ingests `live` until
   * the stream ends. A failed write ends the run at once: a backfill failure
   * leaves the subscription unopened.
   */
  method IndexEvents(
    table: EventTable, fromBlockNumber: U64, latestBlockNumber: U64,
    historical: seq<Log>, historicalWriteFails: seq<bool>,
    live: seq<Log>, liveWriteFails: seq<bool>)
    returns (r: Outcome<RunError>, backfill: Filter, subscription: Option<Filter>)
    requires table.Valid()
    requires |historicalWriteFails| == |historical| && |liveWriteFails| == |live|
    requires AllIngestible(historical) && AllIngestible(live)
    modifies table
    ensures table.Valid()
    ensures backfill == BackfillFilter(fromBlockNumber, latestBlockNumber)
    ensures r.Fail? && r.error.phase == Backfill ==>
      && subscription == None
      && var i := r.error.index;
      && i < |historical| && WriteFails(historical, historicalWriteFails, i)
      && NoWriteFailsBefore(historical, historicalWriteFails, i)
      && table.rows == IngestAll(old(table.rows), historical[..i])
    ensures !(r.Fail? && r.error.phase == Backfill) ==>
      && NoWriteFailsBefore(historical, historicalWriteFails, |historical|)
      && subscription == Some(LiveFilter(latestBlockNumber))
    ensures r.Fail? && r.error.phase == Live ==>
      && var j := r.error.index;
      && j < |live| && WriteFails(live, liveWriteFails, j)
      && NoWriteFailsBefore(live, liveWriteFails, j)
      && table.rows == IngestAll(IngestAll(old(table.rows), historical), live[..j])
    ensures r.Pass? ==>
      && NoWriteFailsBefore(live, liveWriteFails, |live|)
      && table.rows == IngestAll(IngestAll(old(table.rows), historical), live)
  {
    backfill := BackfillFilter(fromBlockNumber, latestBlockNumber);
    subscription := None;
    var historicalResult := IngestLogs(table, historical, historicalWriteFails);
    if historicalResult.Fail? {
      var failure := historicalResult.error;
      return Fail(RunError(Backfill, failure.index, failure.error)), backfill, subscription;
    }
    subscription := Some(LiveFilter(latestBlockNumber));
    var liveResult := IngestLogs(table, live, liveWriteFails);
    if liveResult.Fail? {
      var failure := liveResult.error;
      return Fail(RunError(Live, failure.index, failure.error)), backfill, subscription;
    }
    return Pass, backfill, subscription;
  }
}
