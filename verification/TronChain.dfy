/**
 * The chain that packages/adapters/src/tron.ts reads: blocks with strictly increasing times, the receipts of their
 * transactions, and what a receipt decodes to. A transaction id, an account or a topic word is the number its hex
 * text names; an account has 20 bytes, a word 32.
 */
module TronChain {
  import opened Sequences

  type Hash = nat
  type Account = nat

  const ACCOUNTS: nat := 0x1_0000_0000_0000_0000_0000_0000_0000_0000_0000_0000
  const TRANSFER_TOPIC: nat := 0xddf252ad1be2c89b69c2b068fc378daa952ba7f163c4a11628f55a4df523b3ef
  const MAX_STORABLE: nat := 0x7fff_ffff_ffff_ffff

  /** A receipt log as a node sends it: `address` and `data` are absent when they are not an account or one word. */
  datatype RawLog = NotALog | RawLog(address: Option<Account>, topics: seq<nat>, data: Option<nat>)

  datatype Tx = Tx(hash: Hash, success: bool, logs: seq<RawLog>)
  datatype Block = Block(time: int, txs: seq<Tx>)
  type Chain = seq<Block>

  datatype Transfer = Transfer(
    txHash: Hash, logIndex: nat, contract: Account, from: Account, to: Account, amount: nat, blockNumber: int,
    blockTime: int, success: bool)

  // ---- receipts -----------------------------------------------------------------------------------------------

  datatype DecodedLog = IsTransfer(transfer: Transfer) | Other | Malformed

  /** The answer for one transaction: nothing, or its receipt; `result` is absent when the receipt states none. */
  datatype Info =
    | NoInfo
    | Info(id: Hash, blockNumber: int, blockTime: int, result: Option<bool>, flaggedFailed: bool, logs: seq<RawLog>)

  datatype Evidence =
    | NotFound
    | Found(blockNumber: int, blockTime: int, success: bool, logs: seq<DecodedLog>)
    | Unusable

  /** One log of a receipt. What claims the Transfer signature but does not decode is malformed, never passed over. */
  function DecodeLog(raw: RawLog, index: nat, hash: Hash, blockNumber: int, blockTime: int, success: bool): DecodedLog {
    if raw.NotALog? then Malformed
    else if raw.topics == [] || raw.topics[0] != TRANSFER_TOPIC || |raw.topics| == 4 then Other
    else if |raw.topics| != 3 || raw.address.None? then Malformed
    else if raw.topics[1] >= ACCOUNTS || raw.topics[2] >= ACCOUNTS then Malformed
    else if raw.data.None? || raw.data.value > MAX_STORABLE then Malformed
    else IsTransfer(Transfer(hash, index, raw.address.value, raw.topics[1], raw.topics[2], raw.data.value, blockNumber,
                             blockTime, success))
  }

  function DecodeLogs(logs: seq<RawLog>, hash: Hash, blockNumber: int, blockTime: int,
                      success: bool): (r: seq<DecodedLog>)
    ensures |r| == |logs|
    ensures forall i :: 0 <= i < |logs| ==> r[i] == DecodeLog(logs[i], i, hash, blockNumber, blockTime, success)
  {
    seq(|logs|, i requires 0 <= i < |logs| => DecodeLog(logs[i], i, hash, blockNumber, blockTime, success))
  }

  function ParseTransactionInfo(info: Info, hash: Hash): Evidence {
    match info
    case NoInfo => NotFound
    case Info(id, blockNumber, blockTime, result, flaggedFailed, logs) =>
      if id != hash || blockNumber < 1 || blockTime < 1 || result.None? then Unusable
      else
        var success := result.value && !flaggedFailed;
        Found(blockNumber, blockTime, success, DecodeLogs(logs, hash, blockNumber, blockTime, success))
  }

  /**
   * What a log decodes to: a Transfer event of three topics, whose accounts and amount can be read; another event, or
   * the Transfer of a unique token, which has four topics; or a log that claims to be a Transfer and cannot be read.
   */
  lemma LogMeans(raw: RawLog, index: nat, hash: Hash, blockNumber: int, blockTime: int, success: bool)
    ensures var d := DecodeLog(raw, index, hash, blockNumber, blockTime, success);
            var claims := raw.RawLog? && |raw.topics| > 0
                          && raw.topics[0] == 0xddf252ad1be2c89b69c2b068fc378daa952ba7f163c4a11628f55a4df523b3ef;
            && (d.Other? <==> raw.RawLog? && (!claims || |raw.topics| == 4))
            && (d.IsTransfer? <==>
                  && claims && |raw.topics| == 3 && raw.address.Some? && raw.topics[1] < ACCOUNTS
                  && raw.topics[2] < ACCOUNTS && raw.data.Some? && raw.data.value < 0x8000_0000_0000_0000)
            && (d.IsTransfer? ==>
                  && d.transfer.txHash == hash && d.transfer.logIndex == index
                  && d.transfer.contract == raw.address.value
                  && d.transfer.from == raw.topics[1] && d.transfer.to == raw.topics[2]
                  && d.transfer.amount == raw.data.value && d.transfer.blockNumber == blockNumber
                  && d.transfer.blockTime == blockTime && d.transfer.success == success)
  {
  }

  /** Which answer is evidence: a receipt of the transaction asked for, with a block, a time and a result. */
  lemma ReceiptMeans(info: Info, hash: Hash)
    ensures var e := ParseTransactionInfo(info, hash);
            && (e.NotFound? <==> info.NoInfo?)
            && (e.Found? <==> info.Info? && info.id == hash && info.blockNumber > 0 && info.blockTime > 0
                              && info.result.Some?)
            && (e.Found? ==>
                  && e.blockNumber == info.blockNumber && e.blockTime == info.blockTime
                  && (e.success <==> info.result == Some(true) && !info.flaggedFailed)
                  && e.logs == DecodeLogs(info.logs, hash, e.blockNumber, e.blockTime, e.success))
  {
  }

  // ---- what is true on a chain ----------------------------------------------------------------------------------

  /** Block times strictly increase, and no transaction is in two places. */
  ghost predicate ValidChain(chain: Chain) {
    && (forall i, j :: 0 <= i < j < |chain| ==> chain[i].time < chain[j].time)
    && (forall i :: 0 <= i < |chain| ==> chain[i].time >= 0)
    && (forall i, j, a, b ::
          InBlock(chain, i, a) && InBlock(chain, j, b) && chain[i].txs[a].hash == chain[j].txs[b].hash ==>
          i == j && a == b)
  }

  ghost predicate InBlock(chain: Chain, i: int, a: int) {
    0 <= i < |chain| && 0 <= a < |chain[i].txs|
  }

  /** The log is a TRC20 Transfer event of the contract that moves a positive amount to the address. */
  ghost predicate MovesTo(raw: RawLog, contract: Account, address: Account) {
    && raw.RawLog? && raw.address == Some(contract)
    && |raw.topics| == 3 && raw.topics[0] == TRANSFER_TOPIC && raw.topics[2] == address
    && raw.data.Some? && raw.data.value > 0
  }

  /** There is such an event at this place of the chain, in a transaction that executed. */
  ghost predicate Incoming(chain: Chain, contract: Account, address: Account, i: int, a: int, l: int) {
    && InBlock(chain, i, a) && chain[i].txs[a].success && 0 <= l < |chain[i].txs[a].logs|
    && MovesTo(chain[i].txs[a].logs[l], contract, address)
  }

  /** The record of the event at a place of the chain. */
  ghost function RecordAt(chain: Chain, i: int, a: int, l: int): Transfer
    requires InBlock(chain, i, a) && 0 <= l < |chain[i].txs[a].logs|
    requires var raw := chain[i].txs[a].logs[l]; raw.RawLog? && raw.address.Some? && |raw.topics| == 3 && raw.data.Some?
  {
    var raw := chain[i].txs[a].logs[l];
    Transfer(chain[i].txs[a].hash, l, raw.address.value, raw.topics[1], raw.topics[2], raw.data.value, i, chain[i].time,
             chain[i].txs[a].success)
  }

  /**
   * The receipt of a transaction that is on the chain; whether a failure is stated as a result or by the flag is open.
   */
  ghost predicate TrueInfo(chain: Chain, info: Info, hash: Hash) {
    info.Info? ==>
      exists i, a :: InBlock(chain, i, a) && chain[i].txs[a].hash == hash && InfoAt(chain, i, a, info)
  }

  ghost predicate InfoAt(chain: Chain, i: int, a: int, info: Info)
    requires InBlock(chain, i, a)
  {
    && info.Info? && info.id == chain[i].txs[a].hash && info.blockNumber == i && info.blockTime == chain[i].time
    && (info.result.Some? ==> (info.result.value && !info.flaggedFailed <==> chain[i].txs[a].success))
    && info.logs == chain[i].txs[a].logs
  }
}
