/**
 * From history rows to a window: one receipt per transaction, and how far the proof reaches
 * (packages/adapters/src/tron.ts, the second half of `readIncomingTransfers`).
 */
module TronWindow {
  import opened Sequences
  import opened TronChain
  import opened TronNetwork
  import opened TronPages
  import opened TronReader

  datatype TxReason = ReceiptUnavailable | TimeDiffers | HasMalformedLog | ListedTransferMissing | NoAnswer

  /** What one transaction of the history came to. */
  datatype Resolved =
    | Proven(hash: Hash, firstTs: int, blockNumber: int, transfers: seq<Transfer>)
    | Unproven(hash: Hash, firstTs: int, why: TxReason)

  datatype Reason =
    | EdgesUnavailable
    | TimesBackwards
    | Stopped(why: StopReason)
    | BadTransaction(hash: Hash, reason: TxReason)

  datatype Window = Window(transfers: seq<Transfer>, complete: bool, completeThrough: int, reason: Option<Reason>,
                           pages: nat, requests: nat)

  // ---- one transaction ----------------------------------------------------------------------------------------

  /** The earliest time the history gives a transaction. */
  function FirstTs(listed: seq<Row>): (ts: int)
    requires listed != []
    ensures exists k :: 0 <= k < |listed| && listed[k].timestamp == ts
    ensures forall k :: 0 <= k < |listed| ==> ts <= listed[k].timestamp
  {
    if |listed| == 1 then listed[0].timestamp
    else
      var rest := FirstTs(listed[1..]);
      assert forall k :: 1 <= k < |listed| ==> listed[k] == listed[1..][k - 1];
      if listed[0].timestamp < rest then listed[0].timestamp else rest
  }

  /** The Transfer logs of the contract into the address. */
  function Mine(logs: seq<DecodedLog>, contract: Account, address: Account): seq<Transfer> {
    if logs == [] then []
    else if logs[0].IsTransfer? && logs[0].transfer.contract == contract && logs[0].transfer.to == address
    then [logs[0].transfer] + Mine(logs[1..], contract, address)
    else Mine(logs[1..], contract, address)
  }

  function Positive(ts: seq<Transfer>): seq<Transfer> {
    if ts == [] then [] else if ts[0].amount > 0 then [ts[0]] + Positive(ts[1..]) else Positive(ts[1..])
  }

  predicate Backed(row: Row, mine: seq<Transfer>) {
    exists k :: 0 <= k < |mine| && mine[k].from == row.from && mine[k].amount == row.value
  }

  /** The verdict on one transaction, from the rows that list it and the evidence of its receipt. */
  function Verdict(hash: Hash, listed: seq<Row>, e: Option<Evidence>, address: Account, contract: Account): Resolved
    requires listed != []
  {
    var ts := FirstTs(listed);
    if e.None? || e.value.Unusable? then Unproven(hash, ts, NoAnswer)
    else if e.value.NotFound? then Unproven(hash, ts, ReceiptUnavailable)
    else if e.value.blockTime != ts then Unproven(hash, ts, TimeDiffers)
    else if !e.value.success then Proven(hash, ts, e.value.blockNumber, [])
    else if Malformed in e.value.logs then Unproven(hash, ts, HasMalformedLog)
    else
      var mine := Mine(e.value.logs, contract, address);
      if forall k :: 0 <= k < |listed| ==> Backed(listed[k], mine)
      then Proven(hash, ts, e.value.blockNumber, Positive(mine))
      else Unproven(hash, ts, ListedTransferMissing)
  }

  lemma {:induction false} MineMembers(logs: seq<DecodedLog>, contract: Account, address: Account, x: Transfer)
    ensures x in Positive(Mine(logs, contract, address)) <==>
              x.amount > 0 && x.contract == contract && x.to == address && IsTransfer(x) in logs
  {
    if logs != [] {
      MineMembers(logs[1..], contract, address, x);
      var mine := Mine(logs, contract, address);
      assert logs == [logs[0]] + logs[1..];
      if logs[0].IsTransfer? && mine == [logs[0].transfer] + Mine(logs[1..], contract, address) {
        assert mine[1..] == Mine(logs[1..], contract, address);
      }
    }
  }

  /** Decoded logs keep their positions, so what is reported of a receipt is in log order. */
  /** The receipt bears a transfer like this row of the history. */
  ghost predicate Bears(logs: seq<DecodedLog>, row: Row, address: Account, contract: Account) {
    exists l :: && 0 <= l < |logs| && logs[l].IsTransfer? && logs[l].transfer.contract == contract
                && logs[l].transfer.to == address && logs[l].transfer.from == row.from
                && logs[l].transfer.amount == row.value
  }

  lemma {:induction false} MineAre(logs: seq<DecodedLog>, contract: Account, address: Account, x: Transfer)
    ensures x in Mine(logs, contract, address) <==> x.contract == contract && x.to == address && IsTransfer(x) in logs
  {
    if logs != [] {
      MineAre(logs[1..], contract, address, x);
      assert logs == [logs[0]] + logs[1..];
    }
  }

  lemma {:induction false} BackedIs(logs: seq<DecodedLog>, row: Row, address: Account, contract: Account)
    ensures Backed(row, Mine(logs, contract, address)) <==> Bears(logs, row, address, contract)
  {
    hide Mine;
    var mine := Mine(logs, contract, address);
    if k :| 0 <= k < |mine| && mine[k].from == row.from && mine[k].amount == row.value {
      MineAre(logs, contract, address, mine[k]);
    }
    if l :| && 0 <= l < |logs| && logs[l].IsTransfer? && logs[l].transfer.contract == contract
            && logs[l].transfer.to == address && logs[l].transfer.from == row.from
            && logs[l].transfer.amount == row.value {
      MineAre(logs, contract, address, logs[l].transfer);
    }
  }

  /**
   * Which verdict is given, and why: a transaction is proven by a receipt of the history's own time that failed, or
   * that has no malformed log and bears every transfer the history lists.
   */
  lemma VerdictMeaning(hash: Hash, listed: seq<Row>, e: Option<Evidence>, address: Account, contract: Account)
    requires listed != []
    ensures var v, ts := Verdict(hash, listed, e, address, contract), FirstTs(listed);
            var found := e.Some? && e.value.Found?;
            var whole := found && e.value.blockTime == ts && (e.value.success ==> Malformed !in e.value.logs);
            && v.hash == hash && v.firstTs == ts
            && (v.Proven? <==> whole && (e.value.success ==>
                                  forall row :: row in listed ==> Bears(e.value.logs, row, address, contract)))
            && (v.Proven? ==> v.blockNumber == e.value.blockNumber)
            && (v.Unproven? ==>
                  v.why == if !found then if e == Some(NotFound) then ReceiptUnavailable else NoAnswer
                           else if e.value.blockTime != ts then TimeDiffers
                           else if !whole then HasMalformedLog
                           else ListedTransferMissing)
  {
    hide Mine, Backed, Bears, FirstTs;
    if e.Some? && e.value.Found? {
      forall row | row in listed
        ensures Backed(row, Mine(e.value.logs, contract, address)) <==> Bears(e.value.logs, row, address, contract)
      {
        BackedIs(e.value.logs, row, address, contract);
      }
      assert forall k :: 0 <= k < |listed| ==> listed[k] in listed;
    }
  }

  ghost predicate LogOrder(ts: seq<Transfer>) {
    forall j, k :: 0 <= j < k < |ts| ==> ts[j].logIndex < ts[k].logIndex
  }

  lemma {:induction false} MineInLogOrder(logs: seq<DecodedLog>, contract: Account, address: Account, from: nat)
    requires forall i :: 0 <= i < |logs| && logs[i].IsTransfer? ==> logs[i].transfer.logIndex == from + i
    ensures LogOrder(Positive(Mine(logs, contract, address)))
    ensures forall x :: x in Positive(Mine(logs, contract, address)) ==> x.logIndex >= from
  {
    if logs != [] {
      MineInLogOrder(logs[1..], contract, address, from + 1);
      var mine, rest := Mine(logs, contract, address), Mine(logs[1..], contract, address);
      if mine != rest {
        assert mine == [logs[0].transfer] + rest && mine[1..] == rest;
        var out, later := Positive(mine), Positive(rest);
        if logs[0].transfer.amount > 0 {
          assert out == [logs[0].transfer] + later;
          forall j, k | 0 <= j < k < |out|
            ensures out[j].logIndex < out[k].logIndex
          {
            assert later[k - 1] in later;
          }
        }
      }
    }
  }

  // ---- what an honest receipt proves ----------------------------------------------------------------------------

  /** The verdict is about a transaction of the chain and lists exactly its incoming transfers, in log order. */
  ghost predicate Exact(chain: Chain, contract: Account, address: Account, r: Resolved) {
    r.Proven? ==> exists i, a :: InBlock(chain, i, a) && ExactAt(chain, contract, address, r, i, a)
  }

  ghost predicate ExactAt(chain: Chain, contract: Account, address: Account, r: Resolved, i: int, a: int)
    requires r.Proven? && InBlock(chain, i, a)
  {
    && chain[i].txs[a].hash == r.hash && chain[i].time == r.firstTs && r.blockNumber == i
    && (forall l :: Incoming(chain, contract, address, i, a, l) ==> RecordAt(chain, i, a, l) in r.transfers)
    && (forall x ::
          x in r.transfers ==> exists l :: Incoming(chain, contract, address, i, a, l) && x == RecordAt(chain, i, a, l))
    && LogOrder(r.transfers)
  }

  lemma VerdictIsExact(chain: Chain, info: Info, hash: Hash, listed: seq<Row>, address: Account, contract: Account)
    requires listed != [] && TrueInfo(chain, info, hash) && address < ACCOUNTS
    ensures Exact(chain, contract, address, Verdict(hash, listed, Some(ParseTransactionInfo(info, hash)), address,
                                                    contract))
  {
    var e := ParseTransactionInfo(info, hash);
    var r := Verdict(hash, listed, Some(e), address, contract);
    if r.Proven? {
      var i, a :| InBlock(chain, i, a) && chain[i].txs[a].hash == hash && InfoAt(chain, i, a, info);
      if e.success { LogsAreExact(chain, contract, address, i, a, r, e.logs); }
      assert ExactAt(chain, contract, address, r, i, a);
    }
  }

  lemma LogsAreExact(chain: Chain, contract: Account, address: Account, i: int, a: int, r: Resolved,
                     logs: seq<DecodedLog>)
    requires InBlock(chain, i, a) && chain[i].txs[a].success && r.Proven? && r.hash == chain[i].txs[a].hash
    requires r.blockNumber == i && r.firstTs == chain[i].time
    requires logs == DecodeLogs(chain[i].txs[a].logs, r.hash, i, chain[i].time, true) && Malformed !in logs
    requires r.transfers == Positive(Mine(logs, contract, address)) && address < ACCOUNTS
    ensures ExactAt(chain, contract, address, r, i, a)
  {
    var raws := chain[i].txs[a].logs;
    forall l | Incoming(chain, contract, address, i, a, l)
      ensures RecordAt(chain, i, a, l) in r.transfers
    {
      assert logs[l] != Malformed;
      assert logs[l] == IsTransfer(RecordAt(chain, i, a, l));
      MineMembers(logs, contract, address, RecordAt(chain, i, a, l));
    }
    forall x | x in r.transfers
      ensures exists l :: Incoming(chain, contract, address, i, a, l) && x == RecordAt(chain, i, a, l)
    {
      MineMembers(logs, contract, address, x);
      var l :| 0 <= l < |logs| && logs[l] == IsTransfer(x);
      assert Incoming(chain, contract, address, i, a, l) && x == RecordAt(chain, i, a, l);
    }
    MineInLogOrder(logs, contract, address, 0);
  }

  // ---- grouping -----------------------------------------------------------------------------------------------

  function RowsFor(rows: seq<Row>, hash: Hash): seq<Row> {
    if rows == [] then []
    else if Last(rows).hash == hash then RowsFor(rows[..|rows| - 1], hash) + [Last(rows)]
    else RowsFor(rows[..|rows| - 1], hash)
  }

  lemma {:induction false} RowsForMembers(rows: seq<Row>, hash: Hash, row: Row)
    ensures row in RowsFor(rows, hash) <==> row in rows && row.hash == hash
  {
    if rows != [] {
      RowsForMembers(rows[..|rows| - 1], hash, row);
      assert rows == rows[..|rows| - 1] + [Last(rows)];
    }
  }

  /** The history by transaction, in the order in which transactions first appear. */
  method GroupByTx(rows: seq<Row>) returns (hashes: seq<Hash>, byTx: map<Hash, seq<Row>>)
    ensures Distinct(hashes) && forall h :: h in hashes <==> h in byTx
    ensures forall h :: h in byTx ==> byTx[h] == RowsFor(rows, h) && byTx[h] != []
    ensures forall row :: row in rows ==> row.hash in byTx
  {
    hashes, byTx := [], map[];
    for k := 0 to |rows|
      invariant Distinct(hashes) && forall h :: h in hashes <==> h in byTx
      invariant forall h :: h in byTx ==> byTx[h] == RowsFor(rows[..k], h) && byTx[h] != []
      invariant forall h :: h !in byTx ==> RowsFor(rows[..k], h) == []
      invariant forall j :: 0 <= j < k ==> rows[j].hash in byTx
    {
      var row := rows[k];
      assert rows[..k + 1][..k] == rows[..k] && Last(rows[..k + 1]) == row;
      if row.hash in byTx {
        byTx := byTx[row.hash := byTx[row.hash] + [row]];
      } else {
        hashes := hashes + [row.hash];
        byTx := byTx[row.hash := [row]];
      }
    }
    assert rows[..|rows|] == rows;
  }

  // ---- how far the proof reaches --------------------------------------------------------------------------------

  /**
   * Earlier than everything that could not be proved: than where the pages stopped, and than every unproven
   * transaction.
   */
  ghost predicate BelowHorizon(ts: int, limit: Option<int>, resolved: seq<Resolved>) {
    && (limit.Some? ==> ts < limit.value)
    && forall k :: 0 <= k < |resolved| && resolved[k].Unproven? ==> ts < resolved[k].firstTs
  }

  predicate InWindow(r: Resolved, sinceBlock: int, untilBlock: int) {
    r.Proven? && sinceBlock <= r.blockNumber <= untilBlock
  }

  /** The loop that lowers the horizon to the earliest unproven transaction, and says what set it. */
  method FindHorizon(limit: Option<int>, stopped: Option<StopReason>, resolved: seq<Resolved>)
      returns (horizon: Option<int>, reason: Option<Reason>)
    requires limit.Some? <==> stopped.Some?
    ensures horizon.None? <==> stopped.None? && forall k :: 0 <= k < |resolved| ==> resolved[k].Proven?
    ensures forall ts :: (horizon.Some? ==> ts < horizon.value) <==> BelowHorizon(ts, limit, resolved)
    ensures reason.Some? <==> horizon.Some?
    ensures reason.Some? && !reason.value.BadTransaction? ==>
              stopped.Some? && reason.value == Stopped(stopped.value) && horizon == limit
    ensures reason.Some? && reason.value.BadTransaction? ==>
              (limit.Some? ==> horizon.value < limit.value) &&
              exists k ::
                  0 <= k < |resolved| && resolved[k].Unproven? && resolved[k].hash == reason.value.hash
                  && resolved[k].firstTs == horizon.value && resolved[k].why == reason.value.reason
  {
    horizon, reason := limit, if stopped.Some? then Some(Stopped(stopped.value)) else None;
    for j := 0 to |resolved|
      invariant horizon.None? <==> stopped.None? && forall k :: 0 <= k < j ==> resolved[k].Proven?
      invariant limit.Some? ==> horizon.Some? && horizon.value <= limit.value
      invariant forall k ::
                  0 <= k < j && resolved[k].Unproven? ==> horizon.Some? && horizon.value <= resolved[k].firstTs
      invariant horizon.Some? ==>
                  horizon == limit
                  || exists k :: 0 <= k < j && resolved[k].Unproven? && resolved[k].firstTs == horizon.value
      invariant reason.Some? <==> horizon.Some?
      invariant reason.Some? && !reason.value.BadTransaction? ==>
                  stopped.Some? && reason.value == Stopped(stopped.value) && horizon == limit
      invariant reason.Some? && reason.value.BadTransaction? ==>
                  (limit.Some? ==> horizon.value < limit.value) &&
                  exists k ::
                      0 <= k < j && resolved[k].Unproven? && resolved[k].hash == reason.value.hash
                      && resolved[k].firstTs == horizon.value && resolved[k].why == reason.value.reason
    {
      if resolved[j].Unproven? && (horizon.None? || resolved[j].firstTs < horizon.value) {
        horizon, reason := Some(resolved[j].firstTs), Some(BadTransaction(resolved[j].hash, resolved[j].why));
      }
    }
  }

  /** The highest block proven below the horizon. */
  ghost predicate ProvenThrough(through: int, sinceBlock: int, untilBlock: int, limit: Option<int>,
                                resolved: seq<Resolved>, n: nat) {
    && through >= sinceBlock - 1
    && (forall k ::
          0 <= k < n && k < |resolved| && InWindow(resolved[k], sinceBlock, untilBlock)
          && BelowHorizon(resolved[k].firstTs, limit, resolved) ==>
          resolved[k].blockNumber <= through)
    && (through >= sinceBlock ==>
          exists k ::
              0 <= k < |resolved| && InWindow(resolved[k], sinceBlock, untilBlock)
              && BelowHorizon(resolved[k].firstTs, limit, resolved)
                      && resolved[k].blockNumber == through)
  }

  /** The transfers of every proven transaction of the window among the first `n`, transaction by transaction. */
  function Collected(resolved: seq<Resolved>, sinceBlock: int, untilBlock: int, n: nat): seq<Transfer>
    requires n <= |resolved|
  {
    if n == 0 then []
    else Collected(resolved, sinceBlock, untilBlock, n - 1)
         + if InWindow(resolved[n - 1], sinceBlock, untilBlock) then resolved[n - 1].transfers else []
  }

  method Collect(sinceBlock: int, untilBlock: int, horizon: Option<int>, ghost limit: Option<int>,
                 resolved: seq<Resolved>)
      returns (transfers: seq<Transfer>, through: int)
    requires forall ts :: (horizon.Some? ==> ts < horizon.value) <==> BelowHorizon(ts, limit, resolved)
    ensures transfers == Collected(resolved, sinceBlock, untilBlock, |resolved|)
    ensures ProvenThrough(through, sinceBlock, untilBlock, limit, resolved, |resolved|)
  {
    hide BelowHorizon;
    transfers, through := [], sinceBlock - 1;
    for j := 0 to |resolved|
      invariant transfers == Collected(resolved, sinceBlock, untilBlock, j)
      invariant ProvenThrough(through, sinceBlock, untilBlock, limit, resolved, j)
    {
      var r := resolved[j];
      if r.Proven? && sinceBlock <= r.blockNumber <= untilBlock {
        transfers := transfers + r.transfers;
        if (horizon.None? || r.firstTs < horizon.value) && r.blockNumber > through { through := r.blockNumber; }
      }
    }
  }

  /** The order a window lists its transfers in: by block, then transaction id, then log position. */
  predicate TransferBefore(a: Transfer, b: Transfer) {
    if a.blockNumber != b.blockNumber then a.blockNumber < b.blockNumber
    else if a.txHash != b.txHash then a.txHash < b.txHash
    else a.logIndex < b.logIndex
  }

  lemma TransferOrder()
    ensures StrictWeakOrder(TransferBefore)
  {
  }

  ghost predicate NoRepeats(ts: seq<Transfer>) {
    forall j, k :: 0 <= j < k < |ts| ==> ts[j].txHash != ts[k].txHash || ts[j].logIndex != ts[k].logIndex
  }

  lemma {:induction false} CollectedMembers(resolved: seq<Resolved>, sinceBlock: int, untilBlock: int, n: nat,
                                            x: Transfer)
    requires n <= |resolved|
    ensures x in Collected(resolved, sinceBlock, untilBlock, n) <==>
              exists k :: 0 <= k < n && InWindow(resolved[k], sinceBlock, untilBlock) && x in resolved[k].transfers
  {
    if n > 0 { CollectedMembers(resolved, sinceBlock, untilBlock, n - 1, x); }
  }

  /** Verdicts on different transactions never list the same log twice between them. */
  /** By block, then transaction id, then log position, each once. */
  ghost predicate InOrder(ts: seq<Transfer>) {
    forall j, k :: 0 <= j < k < |ts| ==>
      ts[j].blockNumber < ts[k].blockNumber
      || (ts[j].blockNumber == ts[k].blockNumber
          && (ts[j].txHash < ts[k].txHash || (ts[j].txHash == ts[k].txHash && ts[j].logIndex < ts[k].logIndex)))
  }

  lemma {:induction false} CollectedNoRepeats(chain: Chain, contract: Account, address: Account,
                                              resolved: seq<Resolved>, sinceBlock: int, untilBlock: int, n: nat)
    requires n <= |resolved| && DistinctTxs(resolved)
    requires forall k :: 0 <= k < |resolved| ==> Exact(chain, contract, address, resolved[k])
    ensures NoRepeats(Collected(resolved, sinceBlock, untilBlock, n))
  {
    if n > 0 {
      CollectedNoRepeats(chain, contract, address, resolved, sinceBlock, untilBlock, n - 1);
      var before, r := Collected(resolved, sinceBlock, untilBlock, n - 1), resolved[n - 1];
      if InWindow(r, sinceBlock, untilBlock) {
        var i, a :| InBlock(chain, i, a) && ExactAt(chain, contract, address, r, i, a);
        forall x, y | x in before && y in r.transfers
          ensures x.txHash != y.txHash
        {
          CollectedMembers(resolved, sinceBlock, untilBlock, n - 1, x);
          var k :| 0 <= k < n - 1 && InWindow(resolved[k], sinceBlock, untilBlock) && x in resolved[k].transfers;
          CarriesItsHash(chain, contract, address, resolved[k], x);
          CarriesItsHash(chain, contract, address, r, y);
        }
        AppendNoRepeats(before, r.transfers);
      }
    }
  }

  ghost predicate DistinctTxs(resolved: seq<Resolved>) {
    forall j, k :: 0 <= j < k < |resolved| ==> resolved[j].hash != resolved[k].hash
  }

  lemma CarriesItsHash(chain: Chain, contract: Account, address: Account, r: Resolved, x: Transfer)
    requires r.Proven? && Exact(chain, contract, address, r) && x in r.transfers
    ensures x.txHash == r.hash
  {
  }

  lemma AppendNoRepeats(a: seq<Transfer>, b: seq<Transfer>)
    requires NoRepeats(a) && LogOrder(b) && forall x, y :: x in a && y in b ==> x.txHash != y.txHash
    ensures NoRepeats(a + b)
  {
  }

  lemma NoRepeatsByMultiset(a: seq<Transfer>, b: seq<Transfer>)
    requires multiset(a) == multiset(b) && NoRepeats(a)
    ensures NoRepeats(b)
  {
    SameMultiset(a, b);
    DistinctByMultiset(a, b);
    forall j, k | 0 <= j < k < |b|
      ensures b[j].txHash != b[k].txHash || b[j].logIndex != b[k].logIndex
    {
      assert b[j] in a && b[k] in a && b[j] != b[k];
    }
  }

  // ---- the whole read -------------------------------------------------------------------------------------------

  datatype WindowQuery = WindowQuery(address: Account, contract: Account, sinceBlock: int, untilBlock: int)

  /** `Refused` is the empty or negative window; `Crashed` the type error described at `ReadPages`. */
  datatype WindowResult = Read(window: Window) | Refused | Crashed

  /**
   * What a window says is so: its transfers are incoming transfers of the chain, in its blocks, each once and in
   * order, and up to the block it vouches for none is missing.
   */
  ghost predicate Sound(chain: Chain, q: WindowQuery, w: Window) {
    && q.sinceBlock - 1 <= w.completeThrough <= q.untilBlock
    && (w.complete ==> w.completeThrough == q.untilBlock && w.reason.None?)
    && (forall x :: x in w.transfers ==> Genuine(chain, q, x))
    && (forall i, a, l :: Incoming(chain, q.contract, q.address, i, a, l) && q.sinceBlock <= i <= w.completeThrough ==>
          RecordAt(chain, i, a, l) in w.transfers)
    && InOrder(w.transfers)
  }

  ghost predicate Genuine(chain: Chain, q: WindowQuery, x: Transfer) {
    exists i, a, l ::
        Incoming(chain, q.contract, q.address, i, a, l) && q.sinceBlock <= i <= q.untilBlock
        && x == RecordAt(chain, i, a, l)
  }

  method ResolveAll(p: HttpProvider, hashes: seq<Hash>, byTx: map<Hash, seq<Row>>, address: Account, contract: Account,
                    ghost t: Truth)
      returns (resolved: seq<Resolved>)
    requires Distinct(hashes) && forall h :: h in hashes ==> h in byTx && byTx[h] != []
    modifies p`requests, p`ticks
    ensures old(p.requests) <= p.requests <= old(p.requests) + Budget(p.settings, |hashes|)
    ensures |resolved| == |hashes| && DistinctTxs(resolved)
    ensures forall k ::
              0 <= k < |hashes| ==> resolved[k].hash == hashes[k] && resolved[k].firstTs == FirstTs(byTx[hashes[k]])
    ensures HonestWorld(p.world, p.settings, t) && address < ACCOUNTS ==>
              forall k :: 0 <= k < |hashes| ==> Exact(t.chain, contract, address, resolved[k])
    ensures HonestWorld(p.world, p.settings, t) && Forthcoming(p.world, p.settings, t) ==>
              forall k ::
                  0 <= k < |hashes| && AllTrue(t.chain, byTx[hashes[k]], hashes[k], address, contract) ==>
                      resolved[k].Proven?
  {
    hide Budget, HonestWorld, Forthcoming, Exact, ParseTransactionInfo, AllTrue;
    resolved := [];
    NoCalls(p.settings);
    for k := 0 to |hashes|
      invariant old(p.requests) <= p.requests <= old(p.requests) + Budget(p.settings, k)
      invariant |resolved| == k
      invariant forall j ::
                  0 <= j < k ==> resolved[j].hash == hashes[j] && resolved[j].firstTs == FirstTs(byTx[hashes[j]])
      invariant HonestWorld(p.world, p.settings, t) && address < ACCOUNTS ==>
                  forall j :: 0 <= j < k ==> Exact(t.chain, contract, address, resolved[j])
      invariant HonestWorld(p.world, p.settings, t) && Forthcoming(p.world, p.settings, t) ==>
                  forall j ::
                      0 <= j < k && AllTrue(t.chain, byTx[hashes[j]], hashes[j], address, contract) ==>
                          resolved[j].Proven?
    {
      var h := hashes[k];
      var body := p.Call(GetInfo(h), true);
      OneMoreCall(p.settings, k, |hashes|);
      var e := if body.Some? && body.value.InfoBody? then Some(ParseTransactionInfo(body.value.info, h)) else None;
      var r := Verdict(h, byTx[h], e, address, contract);
      if HonestWorld(p.world, p.settings, t) && address < ACCOUNTS {
        HonestVerdict(p.world, p.settings, t, p.requests - 1, h, byTx[h], body, address, contract);
      }
      if HonestWorld(p.world, p.settings, t) && Forthcoming(p.world, p.settings, t)
        && AllTrue(t.chain, byTx[h], h, address, contract) {
        ForthcomingVerdict(p.world, p.settings, t, p.requests - 1, h, byTx[h], body, address, contract);
      }
      resolved := resolved + [r];
    }
  }

  /**
   * A row that is what it says: its transaction is on the chain at its time, reads well, and if it executed has this
   * transfer.
   */
  ghost predicate TrueRow(chain: Chain, row: Row, address: Account, contract: Account) {
    exists i, a :: InBlock(chain, i, a) && TrueRowAt(chain, row, address, contract, i, a)
  }

  ghost predicate TrueRowAt(chain: Chain, row: Row, address: Account, contract: Account, i: int, a: int)
    requires InBlock(chain, i, a)
  {
    var tx := chain[i].txs[a];
    && i >= 1 && tx.hash == row.hash && chain[i].time == row.timestamp && chain[i].time >= 1
    && (tx.success ==>
          var logs := DecodeLogs(tx.logs, tx.hash, i, chain[i].time, true);
          && Malformed !in logs
          && exists l :: 0 <= l < |logs| && logs[l].IsTransfer? && Matches(logs[l].transfer, row, address, contract))
  }

  predicate Matches(x: Transfer, row: Row, address: Account, contract: Account) {
    x.contract == contract && x.to == address && x.from == row.from && x.amount == row.value
  }

  ghost predicate AllTrue(chain: Chain, listed: seq<Row>, hash: Hash, address: Account, contract: Account) {
    forall k :: 0 <= k < |listed| ==> listed[k].hash == hash && TrueRow(chain, listed[k], address, contract)
  }

  lemma {:induction false} MineHas(logs: seq<DecodedLog>, contract: Account, address: Account, l: nat)
    requires l < |logs| && logs[l].IsTransfer? && logs[l].transfer.contract == contract
             && logs[l].transfer.to == address
    ensures logs[l].transfer in Mine(logs, contract, address)
  {
    if l > 0 {
      MineHas(logs[1..], contract, address, l - 1);
      assert logs[1..][l - 1] == logs[l];
    }
  }

  /** With true rows and the receipt in hand, a transaction is proved. */
  lemma TrueRowsAreProven(chain: Chain, info: Info, hash: Hash, listed: seq<Row>, address: Account, contract: Account)
    requires ValidChain(chain) && listed != [] && TrueInfo(chain, info, hash)
             && AllTrue(chain, listed, hash, address, contract)
    requires info.Info? && info.result.Some?
    ensures Verdict(hash, listed, Some(ParseTransactionInfo(info, hash)), address, contract).Proven?
  {
    var i, a :| InBlock(chain, i, a) && chain[i].txs[a].hash == hash && InfoAt(chain, i, a, info);
    forall k | 0 <= k < |listed|
      ensures TrueRowAt(chain, listed[k], address, contract, i, a)
    {
      assert TrueRow(chain, listed[k], address, contract);
      var i', a' :| InBlock(chain, i', a') && TrueRowAt(chain, listed[k], address, contract, i', a');
      assert i' == i && a' == a;
    }
    assert TrueRowAt(chain, listed[0], address, contract, i, a);
    var ts := FirstTs(listed);
    assert ts == chain[i].time;
    var e := ParseTransactionInfo(info, hash);
    assert e.Found? && e.blockTime == ts;
    if e.success {
      var mine := Mine(e.logs, contract, address);
      forall k | 0 <= k < |listed|
        ensures Backed(listed[k], mine)
      {
        assert TrueRowAt(chain, listed[k], address, contract, i, a);
        var l :| 0 <= l < |e.logs| && e.logs[l].IsTransfer?
          && Matches(e.logs[l].transfer, listed[k], address, contract);
        MineHas(e.logs, contract, address, l);
        var m :| 0 <= m < |mine| && mine[m] == e.logs[l].transfer;
        assert mine[m].from == listed[k].from && mine[m].amount == listed[k].value;
      }
    }
  }

  lemma ForthcomingVerdict(w: World, s: Settings, t: Truth, n: nat, h: Hash, listed: seq<Row>, body: Option<Body>,
                           address: Account, contract: Account)
    requires HonestWorld(w, s, t) && Forthcoming(w, s, t) && listed != []
             && AllTrue(t.chain, listed, h, address, contract)
    requires body == if w.net(GetInfo(h), n).Answer? then Some(w.net(GetInfo(h), n).body) else None
    ensures var e := if body.Some? && body.value.InfoBody? then Some(ParseTransactionInfo(body.value.info, h))
                     else None;
            Verdict(h, listed, e, address, contract).Proven?
  {
    assert GivesInfo(t.chain, h, w.net(GetInfo(h), n));
    assert HonestBody(t.chain, t.index, t.at, true, s.pageSize, GetInfo(h), w.net(GetInfo(h), n).body);
    assert listed[0].hash == h && TrueRow(t.chain, listed[0], address, contract);
    TrueRowsAreProven(t.chain, body.value.info, h, listed, address, contract);
  }

  lemma HonestVerdict(w: World, s: Settings, t: Truth, n: nat, h: Hash, listed: seq<Row>, body: Option<Body>,
                      address: Account, contract: Account)
    requires HonestWorld(w, s, t) && address < ACCOUNTS && listed != []
    requires body == if w.net(GetInfo(h), n).Answer? then Some(w.net(GetInfo(h), n).body) else None
    ensures var e := if body.Some? && body.value.InfoBody? then Some(ParseTransactionInfo(body.value.info, h))
                     else None;
            Exact(t.chain, contract, address, Verdict(h, listed, e, address, contract))
  {
    if body.Some? && body.value.InfoBody? {
      assert HonestBody(t.chain, t.index, t.at, true, s.pageSize, GetInfo(h), w.net(GetInfo(h), n).body);
      VerdictIsExact(t.chain, body.value.info, h, listed, address, contract);
    }
  }

  /** The window's edges as times, or why there are none. */
  method WindowEdges(p: HttpProvider, q: WindowQuery, ghost t: Truth) returns (edges: Option<(int, int)>, why: Reason)
    requires 0 <= q.sinceBlock <= q.untilBlock
    modifies p
    ensures old(p.requests) <= p.requests <= old(p.requests) + Budget(p.settings, 2)
    ensures HonestWorld(p.world, p.settings, t) && old(p.CacheTrue(t.chain)) ==>
              p.CacheTrue(t.chain) && (edges.Some? ==> 0 <= edges.value.0 && Edges(t, q, edges.value.0, edges.value.1))
    ensures HonestWorld(p.world, p.settings, t) && old(p.CacheTrue(t.chain)) && Forthcoming(p.world, p.settings, t) ==>
              (1 <= q.untilBlock < |t.chain| ==> edges.Some?)
    ensures why.EdgesUnavailable? || why.TimesBackwards?
    ensures edges.Some? ==> edges.value.0 <= edges.value.1
  {
    edges, why := None, EdgesUnavailable;
    if HonestWorld(p.world, p.settings, t) { LaterThanTheFirst(t.chain); }
    var fromTs := Some(0);
    if q.sinceBlock != 0 { fromTs := p.BlockTimestamp(q.sinceBlock, t); }
    if fromTs.None? { return; }
    var toTs := p.BlockTimestamp(q.untilBlock, t);
    if toTs.None? { return; }
    if toTs.value < fromTs.value { return None, TimesBackwards; }
    edges := Some((fromTs.value, toTs.value));
  }

  lemma LaterThanTheFirst(chain: Chain)
    requires ValidChain(chain)
    ensures forall b :: 1 <= b < |chain| ==> chain[b].time >= 1
  {
    forall b | 1 <= b < |chain|
      ensures chain[b].time >= 1
    {
      assert chain[0].time < chain[b].time;
    }
  }

  /** What a window reports as its reason: where the pages stopped, or the earliest unproven transaction before that. */
  ghost predicate SetsTheHorizon(limit: Option<int>, stopped: Option<StopReason>, resolved: seq<Resolved>,
                                 reason: Reason) {
    match reason
    case Stopped(why) =>
      && stopped == Some(why) && limit.Some?
      && forall k :: 0 <= k < |resolved| && resolved[k].Unproven? ==> limit.value <= resolved[k].firstTs
    case BadTransaction(hash, why) =>
      exists k :: && 0 <= k < |resolved| && resolved[k] == Unproven(hash, resolved[k].firstTs, why)
                  && (limit.Some? ==> resolved[k].firstTs < limit.value)
                  && forall j :: 0 <= j < |resolved| && resolved[j].Unproven? ==>
                      resolved[k].firstTs <= resolved[j].firstTs
    case _ => false
  }

  lemma ReasonSets(limit: Option<int>, stopped: Option<StopReason>, resolved: seq<Resolved>, horizon: Option<int>,
                   reason: Reason)
    requires horizon.Some? && forall ts :: ts < horizon.value <==> BelowHorizon(ts, limit, resolved)
    requires !reason.BadTransaction? ==>
               stopped.Some? && reason == Stopped(stopped.value) && horizon == limit
    requires reason.BadTransaction? ==>
               && (limit.Some? ==> horizon.value < limit.value)
               && exists k ::
                   && 0 <= k < |resolved| && resolved[k].Unproven? && resolved[k].hash == reason.hash
                   && resolved[k].firstTs == horizon.value && resolved[k].why == reason.reason
    ensures SetsTheHorizon(limit, stopped, resolved, reason)
  {
    assert BelowHorizon(horizon.value - 1, limit, resolved);
  }

  lemma ConcludedIs(q: WindowQuery, limit: Option<int>, resolved: seq<Resolved>, through: int, w: Window)
    requires ProvenThrough(through, q.sinceBlock, q.untilBlock, limit, resolved, |resolved|)
    requires w.complete <==> limit.None? && forall k :: 0 <= k < |resolved| ==> resolved[k].Proven?
    requires w.completeThrough == (if w.complete then q.untilBlock else through)
    requires w.complete ==> w.reason.None?
    requires w.transfers == Sort(TransferBefore, Collected(resolved, q.sinceBlock, q.untilBlock, |resolved|))
    ensures Concluded(q, limit, resolved, through, w)
  {
  }

  lemma ReasonOfRows(rows: seq<Row>, hashes: seq<Hash>, byTx: map<Hash, seq<Row>>, limit: Option<int>,
                     stopped: Option<StopReason>, resolved: seq<Resolved>, reason: Reason)
    requires SetsTheHorizon(limit, stopped, resolved, reason) && |resolved| == |hashes|
    requires forall k :: 0 <= k < |hashes| ==> hashes[k] in byTx && resolved[k].hash == hashes[k]
    requires forall h :: h in byTx ==> byTx[h] == RowsFor(rows, h) && byTx[h] != []
    ensures if reason.BadTransaction? then exists row :: row in rows && row.hash == reason.hash
            else stopped.Some? && reason == Stopped(stopped.value)
  {
    if reason.BadTransaction? {
      var k :| 0 <= k < |resolved| && resolved[k].hash == reason.hash;
      assert RowsFor(rows, hashes[k])[0] in RowsFor(rows, hashes[k]);
      RowsForMembers(rows, hashes[k], RowsFor(rows, hashes[k])[0]);
    }
  }

  /** The last step: from where the pages stopped and the verdicts to the window. */
  method Conclude(q: WindowQuery, limit: Option<int>, stopped: Option<StopReason>, resolved: seq<Resolved>, pages: nat,
                  requests: nat)
      returns (w: Window, ghost through: int)
    requires limit.Some? <==> stopped.Some?
    ensures Concluded(q, limit, resolved, through, w)
    ensures w.complete <==> limit.None? && forall k :: 0 <= k < |resolved| ==> resolved[k].Proven?
    ensures w.complete <==> w.reason.None?
    ensures w.reason.Some? ==> SetsTheHorizon(limit, stopped, resolved, w.reason.value)
    ensures w.pages == pages && w.requests == requests
  {
    hide Concluded, SetsTheHorizon, ProvenThrough, BelowHorizon;
    var horizon, reason := FindHorizon(limit, stopped, resolved);
    if reason.Some? { ReasonSets(limit, stopped, resolved, horizon, reason.value); }
    var transfers, to := Collect(q.sinceBlock, q.untilBlock, horizon, limit, resolved);
    through := to;
    var complete := horizon.None?;
    w := Window(Sort(TransferBefore, transfers), complete, if complete then q.untilBlock else to,
                reason, pages, requests);
    assert Concluded(q, limit, resolved, through, w) by { ConcludedIs(q, limit, resolved, through, w); }
  }

  /** The transactions of the rows kept of some pages. */
  ghost function TxsOf(shown: seq<Page>, q: WindowQuery): set<Hash> {
    set row | row in KeptOf(shown, q.address, q.contract) :: row.hash
  }

  /** The last page is full, readable and without a token, and no row of any page is of this address and contract. */
  ghost predicate Crashes(s: Settings, q: WindowQuery, shown: seq<Page>) {
    && shown != [] && Dangling(Last(shown), s.pageSize)
    && forall k :: 0 <= k < |shown| ==> !HasOurs(shown[k], q.address, q.contract)
  }

  /** The pages are those that a read of some window asks for, each query made of the answers before it. */
  ghost predicate AskedInTurn(s: Settings, q: WindowQuery, shown: seq<Page>) {
    exists fromTs, toTs :: fromTs <= toTs && Asked(s.pageSize, q.address, q.contract, Begin(fromTs, toTs), shown)
  }

  /** The read of these pages ended for this reason. */
  ghost predicate EndedFor(w: World, s: Settings, q: WindowQuery, shown: seq<Page>, why: StopReason) {
    exists fromTs, toTs :: EndsFrom(w, s, q, fromTs, toTs, shown, why)
  }

  ghost predicate EndsFrom(w: World, s: Settings, q: WindowQuery, fromTs: int, toTs: int, shown: seq<Page>,
                           why: StopReason) {
    && Asked(s.pageSize, q.address, q.contract, Begin(fromTs, toTs), shown)
    && Ends(w, s, |shown|, AfterPages(s.pageSize, q.address, q.contract, Begin(fromTs, toTs), shown), Some(why), false)
  }

  ghost predicate Told(w: World, s: Settings, q: WindowQuery, shown: seq<Page>, reason: Reason) {
    match reason
    case Stopped(why) => EndedFor(w, s, q, shown, why)
    case BadTransaction(hash, _) => hash in TxsOf(shown, q)
    case _ => shown == []
  }

  /** The time that the index is asked from: a millisecond before the window's first block, but no earlier than 0. */
  ghost function AskedFrom(chain: Chain, block: int): int {
    if EdgeTime(chain, block) >= 1 then EdgeTime(chain, block) - 1 else 0
  }

  ghost predicate RoomFor(w: World, s: Settings, t: Truth, q: WindowQuery) {
    HasRoom(w, s, t, q.address, q.contract, AskedFrom(t.chain, q.sinceBlock))
  }

  /** Every row shown whose transaction is in the window, but those of the last time shown, is vouched for. */
  ghost predicate GetsAsFar(chain: Chain, q: WindowQuery, rows: seq<Row>, stopped: bool, w: Window) {
    forall row, i, a ::
        row in rows && InBlock(chain, i, a) && chain[i].txs[a].hash == row.hash && q.sinceBlock <= i <= q.untilBlock
        && (stopped ==> row.timestamp < Last(rows).timestamp) ==>
            i <= w.completeThrough
  }

  /**
   * One window. `shown` are the pages that the network answered in this read; the rows kept of them say how many
   * receipts there were to ask for.
   */
  method ReadIncomingTransfers(p: HttpProvider, q: WindowQuery, ghost t: Truth)
      returns (r: WindowResult, ghost shown: seq<Page>)
    requires ValidSettings(p.settings) && q.address < ACCOUNTS
    modifies p
    ensures r.Refused? <==> q.sinceBlock < 0 || q.untilBlock < q.sinceBlock
    // However the network answers, the read ends after so many pages and requests.
    ensures Answered(p.world, shown, old(p.requests), p.requests) && |shown| <= p.settings.maxPages
    ensures AskedInTurn(p.settings, q, shown)
    ensures old(p.requests) <= p.requests <= old(p.requests)
            + Budget(p.settings, 2 + p.settings.maxPages + |TxsOf(shown, q)|)
    ensures r.Read? ==> r.window.pages == |shown| && r.window.requests == p.requests - old(p.requests)
    // The reason given for an incomplete window is what happened.
    ensures r.Read? ==> (r.window.complete <==> r.window.reason.None?)
    ensures r.Read? && r.window.reason.Some? ==> Told(p.world, p.settings, q, shown, r.window.reason.value)
    // It throws exactly when the pages come to this.
    ensures r.Crashed? <==> Crashes(p.settings, q, shown)
    // Whatever the network withholds, as long as it does not lie, the window is sound.
    ensures HonestWorld(p.world, p.settings, t) && Lists(t.index, t.chain, q.address, q.contract)
            && old(p.CacheTrue(t.chain)) ==>
              p.CacheTrue(t.chain) && (r.Read? ==> Sound(t.chain, q, r.window))
    // Of an honest network the first page is asked from the window's first block to its last.
    ensures HonestWorld(p.world, p.settings, t) && old(p.CacheTrue(t.chain)) && shown != [] ==>
              && 0 <= q.sinceBlock <= q.untilBlock < |t.chain|
              && shown[0].query == Query(AskedFrom(t.chain, q.sinceBlock), t.chain[q.untilBlock].time + 1, None)
    // When it withholds nothing and lists what is so, the window gets as far as the pages do, if they run out.
    ensures HonestWorld(p.world, p.settings, t) && old(p.CacheTrue(t.chain)) && Forthcoming(p.world, p.settings, t)
            && TrueIndex(t, q) && r.Read? && shown != []
            ==> GetsAsFar(t.chain, q, KeptOf(shown, q.address, q.contract), true, r.window)
    // And when it has the room to, the window is complete.
    ensures HonestWorld(p.world, p.settings, t) && old(p.CacheTrue(t.chain)) && Forthcoming(p.world, p.settings, t)
            && 0 <= q.sinceBlock <= q.untilBlock && 1 <= q.untilBlock < |t.chain| && TrueIndex(t, q)
            && RoomFor(p.world, p.settings, t, q)
            ==> r.Read? && r.window.complete
  {
    hide Budget, HonestWorld, Forthcoming, TrueIndex, AllTrue, Lists, Sound, Covered, AllExact, Judged, Concluded,
         Edges, Exact, ValidChain, RowsFor, FirstTs, Reach, Asked, AfterPages, Answered, Ends, Crashes, RoomFor, TxsOf,
         KeptOf, AskedInTurn, EndedFor;
    shown := [];
    NothingAsked(p.world, p.settings, q, p.requests);
    TotalBudget(p.settings, 2, p.settings.maxPages, 0);
    if q.sinceBlock < 0 || q.untilBlock < q.sinceBlock { return Refused, []; }
    ghost var honest := HonestWorld(p.world, p.settings, t) && p.CacheTrue(t.chain);
    var start := p.requests;
    var edges, why := WindowEdges(p, q, t);
    NothingAnswered(p.world, start, p.requests);
    if edges.None? {
      var w := Window([], false, q.sinceBlock - 1, Some(why), 0, p.requests - start);
      NothingIsSound(t.chain, q, w);
      return Read(w), [];
    }
    var (fromTs, toTs) := edges.value;
    ghost var before := p.requests;
    var rows, pages, stopped, threw;
    rows, pages, stopped, threw, shown := p.ReadPages(q.address, q.contract, fromTs, toTs);
    PagesSay(p.world, p.settings, q, fromTs, toTs, shown, start, before, p.requests, rows, stopped, threw);
    if honest {
      HonestPagesSay(p.world, p.settings, t, q, fromTs, toTs, shown, before, p.requests, rows, stopped, threw);
    }
    if threw { return Crashed, shown; }
    ghost var paged := p.requests;
    var w := ReadReceipts(p, q, t, fromTs, toTs, rows, pages, stopped, start);
    LaterAnswered(p.world, shown, start, paged, p.requests);
    TotalBudget(p.settings, 2, p.settings.maxPages, |TxsOf(shown, q)|);
    r := Read(w);
  }

  /** The second half: a receipt for each transaction of the rows, and the window they come to. */
  method ReadReceipts(p: HttpProvider, q: WindowQuery, ghost t: Truth, fromTs: int, ghost toTs: int, rows: seq<Row>,
                      pages: nat, stopped: Option<StopReason>, start: nat) returns (w: Window)
    requires start <= p.requests && q.address < ACCOUNTS
    modifies p`requests, p`ticks
    ensures old(p.requests) <= p.requests <= old(p.requests) + Budget(p.settings, |set row | row in rows :: row.hash|)
    ensures w.pages == pages && w.requests == p.requests - start && (w.complete <==> w.reason.None?)
    ensures w.reason.Some? ==>
              if w.reason.value.BadTransaction? then exists row :: row in rows && row.hash == w.reason.value.hash
              else stopped.Some? && w.reason.value == Stopped(stopped.value)
    ensures HonestWorld(p.world, p.settings, t) && Lists(t.index, t.chain, q.address, q.contract)
            && Edges(t, q, fromTs, toTs)
            && Covered(t.index, q.address, q.contract, fromTs, Reach(rows, stopped, fromTs, toTs), rows)
            ==> Sound(t.chain, q, w)
    ensures HonestWorld(p.world, p.settings, t) && Forthcoming(p.world, p.settings, t) && TrueIndex(t, q)
            && stopped.None?
            && (forall row :: row in rows ==> row in t.index && Ours(row, q.address, q.contract))
            ==> w.complete
    ensures HonestWorld(p.world, p.settings, t) && Forthcoming(p.world, p.settings, t) && TrueIndex(t, q)
            && (forall row :: row in rows ==> row in t.index && Ours(row, q.address, q.contract))
            ==> GetsAsFar(t.chain, q, rows, stopped.Some?, w)
  {
    hide Budget, HonestWorld, Forthcoming, TrueIndex, AllTrue, Lists, Sound, Covered, AllExact, Judged, Concluded,
         Edges, Exact, ValidChain, RowsFor, FirstTs, Reach, Ours, SetsTheHorizon;
    var hashes, byTx := GroupByTx(rows);
    TransactionsAre(rows, hashes, byTx);
    var resolved := ResolveAll(p, hashes, byTx, q.address, q.contract, t);
    GroupsAreJudged(rows, hashes, byTx, resolved);
    if TrueIndex(t, q) && forall row :: row in rows ==> row in t.index && Ours(row, q.address, q.contract) {
      GroupsAreTrue(t, q, rows, hashes, byTx);
    }
    var limit := if stopped.Some? then Some(if rows != [] then Last(rows).timestamp else fromTs) else None;
    ghost var through;
    w, through := Conclude(q, limit, stopped, resolved, pages, p.requests - start);
    if w.reason.Some? { ReasonOfRows(rows, hashes, byTx, limit, stopped, resolved, w.reason.value); }
    if HonestWorld(p.world, p.settings, t) && Forthcoming(p.world, p.settings, t) && TrueIndex(t, q)
      && forall row :: row in rows ==> row in t.index && Ours(row, q.address, q.contract) {
      HonestFacts(p.world, p.settings, t, q, resolved);
      AllProvenReach(t, q, rows, hashes, byTx, stopped, limit, resolved, through, w);
    }
    if HonestWorld(p.world, p.settings, t) && Lists(t.index, t.chain, q.address, q.contract)
      && Edges(t, q, fromTs, toTs)
       && Covered(t.index, q.address, q.contract, fromTs, Reach(rows, stopped, fromTs, toTs), rows) {
      HonestFacts(p.world, p.settings, t, q, resolved);
      ReachIs(rows, stopped, fromTs, toTs);
      WindowIsSound(t, q, fromTs, toTs, rows, stopped, limit, resolved, through, w);
    }
  }

  /** With every transaction proved, the window vouches for each of them that is before where the pages stopped. */
  lemma AllProvenReach(t: Truth, q: WindowQuery, rows: seq<Row>, hashes: seq<Hash>, byTx: map<Hash, seq<Row>>,
                       stopped: Option<StopReason>, limit: Option<int>, resolved: seq<Resolved>, through: int,
                       w: Window)
    requires ValidChain(t.chain) && AllExact(t.chain, q, resolved)
    requires forall h :: h in hashes <==> h in byTx
    requires forall h :: h in byTx ==> byTx[h] == RowsFor(rows, h) && byTx[h] != []
    requires forall row :: row in rows ==> row.hash in byTx
    requires |resolved| == |hashes| && forall k :: 0 <= k < |hashes| ==> resolved[k].Proven?
    requires forall k ::
               0 <= k < |hashes| ==> resolved[k].hash == hashes[k] && resolved[k].firstTs == FirstTs(byTx[hashes[k]])
    requires limit.Some? ==> stopped.Some? && (rows != [] ==> limit.value == Last(rows).timestamp)
    requires Concluded(q, limit, resolved, through, w)
    ensures GetsAsFar(t.chain, q, rows, stopped.Some?, w)
  {
    hide RowsFor, FirstTs, ValidChain, AllExact, Concluded;
    forall row, i, a | row in rows && InBlock(t.chain, i, a) && t.chain[i].txs[a].hash == row.hash
      && q.sinceBlock <= i <= q.untilBlock && (stopped.Some? ==> row.timestamp < Last(rows).timestamp)
      ensures i <= w.completeThrough
    {
      var k :| 0 <= k < |hashes| && hashes[k] == row.hash;
      EarliestRow(rows, row, byTx[row.hash]);
      ProvenReaches(t, q, limit, resolved, through, w, k, i, a);
    }
  }

  lemma EarliestRow(rows: seq<Row>, row: Row, listed: seq<Row>)
    requires row in rows && listed == RowsFor(rows, row.hash) && listed != []
    ensures FirstTs(listed) <= row.timestamp
  {
    RowsForMembers(rows, row.hash, row);
  }

  /** A proven transaction of the window, earlier than the limit, is vouched for when nothing is unproven. */
  lemma ProvenReaches(t: Truth, q: WindowQuery, limit: Option<int>, resolved: seq<Resolved>, through: int, w: Window,
                      k: nat, i: int, a: int)
    requires ValidChain(t.chain) && AllExact(t.chain, q, resolved) && Concluded(q, limit, resolved, through, w)
    requires k < |resolved| && InBlock(t.chain, i, a) && t.chain[i].txs[a].hash == resolved[k].hash
    requires (forall j :: 0 <= j < |resolved| ==> resolved[j].Proven?) && q.sinceBlock <= i <= q.untilBlock
    requires limit.Some? ==> resolved[k].firstTs < limit.value
    ensures i <= w.completeThrough
  {
    hide Collected, Exact;
    assert Exact(t.chain, q.contract, q.address, resolved[k]);
    InItsBlock(t.chain, q, resolved[k], i, a);
    assert BelowHorizon(resolved[k].firstTs, limit, resolved);
  }

  lemma InItsBlock(chain: Chain, q: WindowQuery, r: Resolved, i: int, a: int)
    requires ValidChain(chain) && Exact(chain, q.contract, q.address, r) && r.Proven?
    requires InBlock(chain, i, a) && chain[i].txs[a].hash == r.hash
    ensures r.blockNumber == i
  {
    var i', a' :| InBlock(chain, i', a') && ExactAt(chain, q.contract, q.address, r, i', a');
  }

  lemma ReachIs(rows: seq<Row>, stopped: Option<StopReason>, fromTs: int, toTs: int)
    ensures stopped.Some? ==> Reach(rows, stopped, fromTs, toTs) == if rows != [] then Last(rows).timestamp else fromTs
  {
  }

  lemma NothingAsked(w: World, s: Settings, q: WindowQuery, from: nat)
    ensures Answered(w, [], from, from) && AskedInTurn(s, q, []) && TxsOf([], q) == {} && !Crashes(s, q, [])
  {
    assert Asked(s.pageSize, q.address, q.contract, Begin(0, 0), []);
  }

  lemma NothingAnswered(w: World, from: nat, to: nat)
    requires from <= to
    ensures Answered(w, [], from, to)
  {
  }

  lemma LaterAnswered(w: World, shown: seq<Page>, from: nat, to: nat, later: nat)
    requires Answered(w, shown, from, to) && to <= later
    ensures Answered(w, shown, from, later)
  {
  }

  /** What a read of the pages says, whatever they are. */
  lemma PagesSay(w: World, s: Settings, q: WindowQuery, fromTs: int, toTs: int, shown: seq<Page>, start: nat, from: nat,
                 to: nat, rows: seq<Row>, stopped: Option<StopReason>, threw: bool)
    requires start <= from && Answered(w, shown, from, to) && fromTs <= toTs
             && Asked(s.pageSize, q.address, q.contract, Begin(fromTs, toTs), shown)
    requires var r := AfterPages(s.pageSize, q.address, q.contract, Begin(fromTs, toTs), shown);
             rows == r.rows && Ends(w, s, |shown|, r, stopped, threw)
    ensures Answered(w, shown, start, to) && AskedInTurn(s, q, shown)
    ensures TxsOf(shown, q) == (set row | row in rows :: row.hash) && rows == KeptOf(shown, q.address, q.contract)
    ensures threw <==> Crashes(s, q, shown)
    ensures threw ==> TxsOf(shown, q) == {}
    ensures stopped.Some? ==> EndedFor(w, s, q, shown, stopped.value)
  {
    hide Asked, AfterPages, Dangling, HasOurs;
    if stopped.Some? { assert EndsFrom(w, s, q, fromTs, toTs, shown, stopped.value); }
    RowsAreKept(s.pageSize, q.address, q.contract, Begin(fromTs, toTs), shown);
    ThrowsExactly(s.pageSize, q.address, q.contract, Begin(fromTs, toTs), shown);
    if threw { ThrownRows(s.pageSize, q.address, q.contract, Begin(fromTs, toTs), shown); }
  }

  lemma ThrownRows(pageSize: nat, address: Account, contract: Account, begin: Reading, shown: seq<Page>)
    requires begin.status.Going? && AfterPages(pageSize, address, contract, begin, shown).status.Threw?
    requires Asked(pageSize, address, contract, begin, shown)
    ensures AfterPages(pageSize, address, contract, begin, shown).rows == []
  {
    assert shown != [];
  }

  /** And what it says when they are honest, and when they are forthcoming too. */
  lemma HonestPagesSay(w: World, s: Settings, t: Truth, q: WindowQuery, fromTs: int, toTs: int, shown: seq<Page>,
                       from: nat, to: nat, rows: seq<Row>, stopped: Option<StopReason>, threw: bool)
    requires HonestWorld(w, s, t) && Edges(t, q, fromTs, toTs) && 0 <= fromTs
    requires Answered(w, shown, from, to) && Asked(s.pageSize, q.address, q.contract, Begin(fromTs, toTs), shown)
    requires var r := AfterPages(s.pageSize, q.address, q.contract, Begin(fromTs, toTs), shown);
             rows == r.rows && Ends(w, s, |shown|, r, stopped, threw)
    ensures !threw ==> Covered(t.index, q.address, q.contract, fromTs, Reach(rows, stopped, fromTs, toTs), rows)
    ensures forall row :: row in rows ==> row in t.index && Ours(row, q.address, q.contract)
    ensures Forthcoming(w, s, t) && RoomFor(w, s, t, q) ==> stopped.None? && !threw
  {
    hide HonestWorld, Forthcoming, Asked, AfterPages, Answered, HonestReading, Covered, Ours, Overlaps, OnPace, Reach;
    var r := AfterPages(s.pageSize, q.address, q.contract, Begin(fromTs, toTs), shown);
    HonestPagesCover(w, s, t, q.address, q.contract, fromTs, toTs, shown, from, to);
    ReadingCovers(t, q.address, q.contract, fromTs, toTs, r, if threw then Some(TimeBudget) else stopped);
    if Forthcoming(w, s, t) && RoomFor(w, s, t, q) {
      var minTs := Begin(fromTs, toTs).query.minTs;
      var overlap: nat :| Overlaps(w, s, t, q.address, q.contract, overlap) && Fits(s, t.index, minTs, overlap);
      PagesKeepPace(w, s, t, q.address, q.contract, fromTs, toTs, overlap, shown, from, to);
      PaceEnds(w, s, t, q.address, q.contract, fromTs, toTs, overlap, |shown|, r, stopped, threw);
    }
  }

  lemma PaceEnds(w: World, s: Settings, t: Truth, address: Account, contract: Account, fromTs: int, toTs: int,
                 overlap: nat, pages: nat, r: Reading, stopped: Option<StopReason>, threw: bool)
    requires Forthcoming(w, s, t) && Overlaps(w, s, t, address, contract, overlap)
             && Fits(s, t.index, Begin(fromTs, toTs).query.minTs, overlap)
    requires OnPace(s, t, overlap, Before(t.index, Begin(fromTs, toTs).query.minTs), pages, r)
    requires HonestReading(t, address, contract, fromTs, toTs, r) && Ends(w, s, pages, r, stopped, threw)
    ensures stopped.None? && !threw
  {
    assert forall n :: GivesPage(s, w.net(GetPage(r.query), n));
    if r.status.Going? { RoomLeft(s, t, address, contract, fromTs, toTs, overlap, pages, r); }
  }

  /** Grouping lists as many transactions as the rows have. */
  lemma TransactionsAre(rows: seq<Row>, hashes: seq<Hash>, byTx: map<Hash, seq<Row>>)
    requires Distinct(hashes) && forall h :: h in hashes <==> h in byTx
    requires forall h :: h in byTx ==> byTx[h] == RowsFor(rows, h) && byTx[h] != []
    requires forall row :: row in rows ==> row.hash in byTx
    ensures |hashes| == |set row | row in rows :: row.hash|
  {
    var txs := set row | row in rows :: row.hash;
    forall h
      ensures h in hashes <==> h in txs
    {
      if h in byTx {
        var first := byTx[h][0];
        RowsForMembers(rows, h, first);
        assert first in rows && first.hash == h;
      }
    }
    DistinctSize(hashes, txs);
  }

  /** Every row of the index that is for this address and contract is what it says. */
  ghost predicate TrueIndex(t: Truth, q: WindowQuery) {
    forall row :: row in t.index && row.to == q.address && (row.contract.None? || row.contract.value == q.contract) ==>
      TrueRow(t.chain, row, q.address, q.contract)
  }

  lemma GroupsAreTrue(t: Truth, q: WindowQuery, rows: seq<Row>, hashes: seq<Hash>, byTx: map<Hash, seq<Row>>)
    requires TrueIndex(t, q) && forall row :: row in rows ==> row in t.index && Ours(row, q.address, q.contract)
    requires forall h :: h in hashes ==> h in byTx && byTx[h] == RowsFor(rows, h)
    ensures forall k :: 0 <= k < |hashes| ==> AllTrue(t.chain, byTx[hashes[k]], hashes[k], q.address, q.contract)
  {
    forall k | 0 <= k < |hashes|
      ensures AllTrue(t.chain, byTx[hashes[k]], hashes[k], q.address, q.contract)
    {
      var listed := byTx[hashes[k]];
      forall j | 0 <= j < |listed|
        ensures listed[j].hash == hashes[k] && TrueRow(t.chain, listed[j], q.address, q.contract)
      {
        RowsForMembers(rows, hashes[k], listed[j]);
      }
    }
  }

  lemma HonestFacts(w: World, s: Settings, t: Truth, q: WindowQuery, resolved: seq<Resolved>)
    requires HonestWorld(w, s, t)
             && forall k :: 0 <= k < |resolved| ==> Exact(t.chain, q.contract, q.address, resolved[k])
    ensures ValidChain(t.chain) && AllExact(t.chain, q, resolved)
  {
  }

  lemma TotalBudget(s: Settings, a: nat, b: nat, c: nat)
    ensures Budget(s, a) + Budget(s, b) + Budget(s, c) == Budget(s, a + b + c)
  {
  }

  lemma NothingIsSound(chain: Chain, q: WindowQuery, w: Window)
    requires q.sinceBlock <= q.untilBlock && w.transfers == [] && !w.complete && w.completeThrough == q.sinceBlock - 1
    ensures Sound(chain, q, w)
  {
  }

  /** The time a window starts from: the first block's is not asked for. */
  ghost function EdgeTime(chain: Chain, block: int): int {
    if 0 < block < |chain| then chain[block].time else 0
  }

  /** The edges of the window, as times of the chain. */
  ghost predicate Edges(t: Truth, q: WindowQuery, fromTs: int, toTs: int) {
    && 0 <= q.sinceBlock <= q.untilBlock < |t.chain| && fromTs == EdgeTime(t.chain, q.sinceBlock)
    && toTs == t.chain[q.untilBlock].time
    && forall b :: q.sinceBlock <= b < |t.chain| ==> fromTs <= t.chain[b].time
  }

  /** One verdict for each transaction of the rows, dated by the earliest row that lists it. */
  ghost predicate Judged(rows: seq<Row>, resolved: seq<Resolved>) {
    && DistinctTxs(resolved)
    && (forall p :: 0 <= p < |rows| ==> JudgedRow(rows[p], resolved))
  }

  ghost predicate JudgedRow(row: Row, resolved: seq<Resolved>) {
    exists k :: 0 <= k < |resolved| && resolved[k].hash == row.hash && resolved[k].firstTs <= row.timestamp
  }

  ghost predicate AllExact(chain: Chain, q: WindowQuery, resolved: seq<Resolved>) {
    forall k :: 0 <= k < |resolved| ==> Exact(chain, q.contract, q.address, resolved[k])
  }

  /** How the window follows from the verdicts; `limit` is where the pages stopped. */
  ghost predicate Concluded(q: WindowQuery, limit: Option<int>, resolved: seq<Resolved>, through: int, w: Window) {
    && ProvenThrough(through, q.sinceBlock, q.untilBlock, limit, resolved, |resolved|)
    && (w.complete <==> limit.None? && forall k :: 0 <= k < |resolved| ==> resolved[k].Proven?)
    && w.completeThrough == (if w.complete then q.untilBlock else through)
    && (w.complete ==> w.reason.None?)
    && w.transfers == Sort(TransferBefore, Collected(resolved, q.sinceBlock, q.untilBlock, |resolved|))
  }

  lemma GroupsAreJudged(rows: seq<Row>, hashes: seq<Hash>, byTx: map<Hash, seq<Row>>, resolved: seq<Resolved>)
    requires forall h :: h in hashes <==> h in byTx
    requires forall h :: h in byTx ==> byTx[h] == RowsFor(rows, h) && byTx[h] != []
    requires forall row :: row in rows ==> row.hash in byTx
    requires |resolved| == |hashes| && DistinctTxs(resolved)
    requires forall k ::
               0 <= k < |hashes| ==> resolved[k].hash == hashes[k] && resolved[k].firstTs == FirstTs(byTx[hashes[k]])
    ensures Judged(rows, resolved)
  {
    forall p | 0 <= p < |rows|
      ensures JudgedRow(rows[p], resolved)
    {
      assert rows[p] in rows;
      assert rows[p].hash in hashes;
      var k :| 0 <= k < |hashes| && hashes[k] == rows[p].hash;
      RowsForMembers(rows, hashes[k], rows[p]);
      var listed := byTx[hashes[k]];
      var j :| 0 <= j < |listed| && listed[j] == rows[p];
      assert resolved[k].hash == rows[p].hash && resolved[k].firstTs <= listed[j].timestamp;
    }
  }

  /** A block that the window vouches for is earlier than everything that could not be proved. */
  lemma VouchedIsBelowHorizon(t: Truth, q: WindowQuery, fromTs: int, toTs: int, limit: Option<int>,
                              resolved: seq<Resolved>, through: int, w: Window, i: int)
    requires ValidChain(t.chain) && Edges(t, q, fromTs, toTs) && AllExact(t.chain, q, resolved)
             && Concluded(q, limit, resolved, through, w)
    requires q.sinceBlock <= i <= w.completeThrough
    ensures i <= q.untilBlock && BelowHorizon(t.chain[i].time, limit, resolved)
    ensures w.completeThrough <= q.untilBlock
  {
    if !w.complete {
      var k :| 0 <= k < |resolved| && InWindow(resolved[k], q.sinceBlock, q.untilBlock)
        && BelowHorizon(resolved[k].firstTs, limit, resolved)
               && resolved[k].blockNumber == through;
      assert Exact(t.chain, q.contract, q.address, resolved[k]);
      var i', a' :| InBlock(t.chain, i', a') && ExactAt(t.chain, q.contract, q.address, resolved[k], i', a');
      assert t.chain[i].time <= resolved[k].firstTs;
    }
  }

  /** A transaction before the horizon was listed, and so proved. */
  lemma ListedIsProven(t: Truth, q: WindowQuery, fromTs: int, toTs: int, rows: seq<Row>, stopped: Option<StopReason>,
                       limit: Option<int>, resolved: seq<Resolved>, hash: Hash, time: int) returns (k: nat)
    requires HasRow(t.index, hash, time, q.address, q.contract) && fromTs <= time <= toTs
    requires Covered(t.index, q.address, q.contract, fromTs, Reach(rows, stopped, fromTs, toTs), rows)
    requires limit == if stopped.Some? then Some(Reach(rows, stopped, fromTs, toTs)) else None
    requires Judged(rows, resolved) && BelowHorizon(time, limit, resolved)
    ensures k < |resolved| && resolved[k].hash == hash && resolved[k].Proven?
  {
    var p :| 0 <= p < |t.index| && t.index[p].hash == hash && t.index[p].timestamp == time
      && Ours(t.index[p], q.address, q.contract);
    assert t.index[p] in rows;
    var r :| 0 <= r < |rows| && rows[r] == t.index[p];
    assert JudgedRow(rows[r], resolved);
    k :| 0 <= k < |resolved| && resolved[k].hash == rows[r].hash && resolved[k].firstTs <= rows[r].timestamp;
  }

  /**
   * The argument of the read: blocks have strictly increasing times, so everything before the first thing not proved
   * was read.
   */
  lemma NothingMissing(t: Truth, q: WindowQuery, fromTs: int, toTs: int, rows: seq<Row>, stopped: Option<StopReason>,
                       limit: Option<int>, resolved: seq<Resolved>, through: int, w: Window, i: int, a: int, l: int)
    requires ValidChain(t.chain) && Lists(t.index, t.chain, q.address, q.contract) && Edges(t, q, fromTs, toTs)
    requires Covered(t.index, q.address, q.contract, fromTs, Reach(rows, stopped, fromTs, toTs), rows)
    requires limit == if stopped.Some? then Some(Reach(rows, stopped, fromTs, toTs)) else None
    requires Judged(rows, resolved) && AllExact(t.chain, q, resolved) && Concluded(q, limit, resolved, through, w)
    requires Incoming(t.chain, q.contract, q.address, i, a, l) && q.sinceBlock <= i <= w.completeThrough
    ensures RecordAt(t.chain, i, a, l) in w.transfers
  {
    hide Covered, Judged, BelowHorizon, ProvenThrough;
    var x := RecordAt(t.chain, i, a, l);
    VouchedIsBelowHorizon(t, q, fromTs, toTs, limit, resolved, through, w, i);
    var k := ListedIsProven(t, q, fromTs, toTs, rows, stopped, limit, resolved, t.chain[i].txs[a].hash,
                            t.chain[i].time);
    assert InWindow(resolved[k], q.sinceBlock, q.untilBlock) && x in resolved[k].transfers by {
      assert Exact(t.chain, q.contract, q.address, resolved[k]);
      var i', a' :| InBlock(t.chain, i', a') && ExactAt(t.chain, q.contract, q.address, resolved[k], i', a');
      assert i' == i && a' == a;
    }
    CollectedMembers(resolved, q.sinceBlock, q.untilBlock, |resolved|, x);
    SortKeeps(TransferBefore, Collected(resolved, q.sinceBlock, q.untilBlock, |resolved|));
  }

  lemma SortedInOrder(ts: seq<Transfer>)
    requires NoRepeats(ts)
    ensures InOrder(Sort(TransferBefore, ts))
  {
    TransferOrder();
    SortAscending(TransferBefore, ts);
    NoRepeatsByMultiset(ts, Sort(TransferBefore, ts));
  }

  lemma TransfersAreGenuine(chain: Chain, q: WindowQuery, limit: Option<int>, resolved: seq<Resolved>, through: int,
                            w: Window)
    requires AllExact(chain, q, resolved) && DistinctTxs(resolved) && Concluded(q, limit, resolved, through, w)
    ensures forall x :: x in w.transfers ==> Genuine(chain, q, x)
    ensures InOrder(w.transfers)
  {
    hide InOrder;
    var collected := Collected(resolved, q.sinceBlock, q.untilBlock, |resolved|);
    SortKeeps(TransferBefore, collected);
    CollectedNoRepeats(chain, q.contract, q.address, resolved, q.sinceBlock, q.untilBlock, |resolved|);
    SortedInOrder(collected);
    forall x | x in w.transfers
      ensures Genuine(chain, q, x)
    {
      CollectedMembers(resolved, q.sinceBlock, q.untilBlock, |resolved|, x);
      var k :| 0 <= k < |resolved| && InWindow(resolved[k], q.sinceBlock, q.untilBlock) && x in resolved[k].transfers;
      assert Exact(chain, q.contract, q.address, resolved[k]);
      var i, a :| InBlock(chain, i, a) && ExactAt(chain, q.contract, q.address, resolved[k], i, a);
      var l :| Incoming(chain, q.contract, q.address, i, a, l) && x == RecordAt(chain, i, a, l);
    }
  }

  lemma WindowIsSound(t: Truth, q: WindowQuery, fromTs: int, toTs: int, rows: seq<Row>, stopped: Option<StopReason>,
                      limit: Option<int>, resolved: seq<Resolved>, through: int, w: Window)
    requires ValidChain(t.chain) && Lists(t.index, t.chain, q.address, q.contract) && Edges(t, q, fromTs, toTs)
    requires Covered(t.index, q.address, q.contract, fromTs, Reach(rows, stopped, fromTs, toTs), rows)
    requires limit == if stopped.Some? then Some(Reach(rows, stopped, fromTs, toTs)) else None
    requires Judged(rows, resolved) && AllExact(t.chain, q, resolved) && Concluded(q, limit, resolved, through, w)
    ensures Sound(t.chain, q, w)
  {
    TransfersAreGenuine(t.chain, q, limit, resolved, through, w);
    forall i, a, l | Incoming(t.chain, q.contract, q.address, i, a, l) && q.sinceBlock <= i <= w.completeThrough
      ensures RecordAt(t.chain, i, a, l) in w.transfers
    {
      NothingMissing(t, q, fromTs, toTs, rows, stopped, limit, resolved, through, w, i, a, l);
    }
    if w.completeThrough >= q.sinceBlock {
      VouchedIsBelowHorizon(t, q, fromTs, toTs, limit, resolved, through, w, w.completeThrough);
    }
  }

  // ---- window after window --------------------------------------------------------------------------------------

  /** Each window starts one block after what the one before vouches for. */
  ghost predicate Consecutive(chain: Chain, qs: seq<WindowQuery>, ws: seq<Window>) {
    && |qs| == |ws|
    && (forall k ::
          0 <= k < |qs| ==>
              Sound(chain, qs[k], ws[k]) && qs[k].address == qs[0].address && qs[k].contract == qs[0].contract)
    && (forall j, k :: 0 <= j && k == j + 1 && k < |qs| ==> qs[k].sinceBlock == ws[j].completeThrough + 1)
  }

  /**
   * Over any run of windows, every incoming transfer from the first block to where the run has got to is in one of
   * them.
   */
  lemma {:induction false} NoTransferSkipped(chain: Chain, qs: seq<WindowQuery>, ws: seq<Window>, i: int, a: int,
                                             l: int)
    requires Consecutive(chain, qs, ws) && qs != []
    requires Incoming(chain, qs[0].contract, qs[0].address, i, a, l)
             && qs[0].sinceBlock <= i <= Last(ws).completeThrough
    ensures exists k ::
              0 <= k < |ws| && qs[k].sinceBlock <= i <= ws[k].completeThrough
              && RecordAt(chain, i, a, l) in ws[k].transfers
    decreases |qs|
  {
    var n := |qs| - 1;
    if i >= qs[n].sinceBlock {
      assert RecordAt(chain, i, a, l) in ws[n].transfers;
    } else {
      assert n > 0 && ws[n - 1].completeThrough + 1 == qs[n].sinceBlock;
      NoTransferSkipped(chain, qs[..n], ws[..n], i, a, l);
    }
  }

  /** And none is vouched for twice: the blocks the windows vouch for follow each other. */
  lemma {:induction false} NoTransferTwice(chain: Chain, qs: seq<WindowQuery>, ws: seq<Window>, j: nat, k: nat)
    requires Consecutive(chain, qs, ws) && j < k < |ws|
    ensures ws[j].completeThrough < qs[k].sinceBlock
    decreases k
  {
    if k > j + 1 {
      NoTransferTwice(chain, qs, ws, j, k - 1);
      assert qs[k].sinceBlock == ws[k - 1].completeThrough + 1;
    }
  }

  // ---- why the lower bound must be inclusive ---------------------------------------------------------------------

  /**
   * An index that took the lower bound as exclusive could answer every page honestly and still lose a row: three rows,
   * two a page, the last two at one time. The first page is full and has no token; the read goes back to the last time
   * it saw; and the second page, empty and so the last, leaves out the third row. The read ends as if it had seen all.
   */
  lemma {:induction false} ExclusiveRestartSkips(x: Row, y: Row, z: Row, at: Token -> nat, address: Account,
                                                 contract: Account)
    requires 1 < x.timestamp < y.timestamp == z.timestamp && z !in [x, y]
    requires Ours(x, address, contract) && Ours(y, address, contract) && Ours(z, address, contract)
    ensures var index, begin := [x, y, z], Begin(0, z.timestamp);
            var again := begin.query.(minTs := y.timestamp);
            var shown := [Page(begin.query, [Readable(x), Readable(y)], None, 0), Page(again, [], None, 1)];
            && Sorted(index) && (forall row :: row in index ==> Ours(row, address, contract))
            && (forall k ::
                  0 <= k < 2 ==> HonestPage(index, at, false, 2, shown[k].query, shown[k].rows, shown[k].next))
            && !HonestPage(index, at, true, 2, again, [], None)
            && Asked(2, address, contract, begin, shown)
            && var r := AfterPages(2, address, contract, begin, shown);
               r.status.Finished? && z in index && z !in r.rows
  {
    var begin := Begin(0, z.timestamp);
    hide AfterPages, Asked;
    RestartPagesAreHonest(x, y, z, at, begin.query);
    RestartMissesIt(x, y, z, address, contract);
  }

  lemma {:induction false} RestartPagesAreHonest(x: Row, y: Row, z: Row, at: Token -> nat, q: Query)
    requires 1 < x.timestamp < y.timestamp == z.timestamp && q == Query(0, z.timestamp + 1, None)
    ensures var index, again := [x, y, z], q.(minTs := y.timestamp);
            && Sorted(index) && HonestPage(index, at, false, 2, q, [Readable(x), Readable(y)], None)
            && HonestPage(index, at, false, 2, again, [], None) && !HonestPage(index, at, true, 2, again, [], None)
  {
    var index := [x, y, z];
    assert Sorted(index);
    assert index[0] == x && index[1] == y && index[2] == z;
    assert Before(index, 1) == 0;
    assert Before(index, y.timestamp + 1) == 3 && Before(index, y.timestamp) == 1;
  }

  lemma {:induction false} RestartMissesIt(x: Row, y: Row, z: Row, address: Account, contract: Account)
    requires 1 < x.timestamp < y.timestamp == z.timestamp
    requires Ours(x, address, contract) && Ours(y, address, contract)
    ensures var begin := Begin(0, z.timestamp);
            var again := begin.query.(minTs := y.timestamp);
            var shown := [Page(begin.query, [Readable(x), Readable(y)], None, 0), Page(again, [], None, 1)];
            var r := AfterPages(2, address, contract, begin, shown);
            Asked(2, address, contract, begin, shown) && r.status.Finished? && r.rows == [x, y]
  {
    hide AfterPage, Kept, Ours;
    var begin := Begin(0, z.timestamp);
    var first, again := Page(begin.query, [Readable(x), Readable(y)], None, 0), begin.query.(minTs := y.timestamp);
    var second := Page(again, [], None, 1);
    NothingYet(2, address, contract, begin);
    OneMorePage(2, address, contract, begin, [], first);
    assert [] + [first] == [first];
    FullPageGoesBack(x, y, address, contract, begin, 0);
    OneMorePage(2, address, contract, begin, [first], second);
    assert [first] + [second] == [first, second];
    EmptyPageEnds(2, address, contract, AfterPages(2, address, contract, begin, [first]), second);
  }

  lemma NothingYet(pageSize: nat, address: Account, contract: Account, begin: Reading)
    ensures Asked(pageSize, address, contract, begin, []) && AfterPages(pageSize, address, contract, begin, []) == begin
  {
  }

  lemma FullPageGoesBack(x: Row, y: Row, address: Account, contract: Account, begin: Reading, asked: nat)
    requires Ours(x, address, contract) && Ours(y, address, contract)
    requires begin.rows == [] && begin.seen == {} && begin.query.token.None?
    ensures var p := Page(begin.query, [Readable(x), Readable(y)], None, asked);
            AfterPage(2, address, contract, begin, p)
            == begin.(query := begin.query.(minTs := y.timestamp), rows := [x, y], seen := KeysOf([x, y]))
  {
    TwoKept(x, y, address, contract);
    assert x in [x, y] && KeyOf(x) in KeysOf([x, y]);
    assert [] + [x, y] == [x, y] && {} + KeysOf([x, y]) == KeysOf([x, y]);
  }

  lemma EmptyPageEnds(pageSize: nat, address: Account, contract: Account, r: Reading, p: Page)
    requires p.rows == [] && p.next.None? && pageSize > 0
    ensures AfterPage(pageSize, address, contract, r, p).status.Finished?
    ensures AfterPage(pageSize, address, contract, r, p).rows == r.rows
  {
    assert r.rows + [] == r.rows;
  }

  lemma TwoKept(x: Row, y: Row, address: Account, contract: Account)
    requires Ours(x, address, contract) && Ours(y, address, contract)
    ensures Kept([Readable(x), Readable(y)], address, contract) == [x, y]
            && ReadableCount([Readable(x), Readable(y)]) == 2
  {
    assert [Readable(x), Readable(y)][1..] == [Readable(y)] && [Readable(y)][1..] == [];
    assert Kept([Readable(y)], address, contract) == [y] && ReadableCount([Readable(y)]) == 1;
  }
}
