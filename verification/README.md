# A model of the exchange back end's protocols

The back end of a USDT/INR exchange rests on a number of small protocols whose safety arguments stand in comments. This
project states them in Dafny and proves them. `dafny verify dfyconfig.toml` checks all of it.

| modules | what they model |
|---|---|
| `TronChain`, `TronNetwork`, `TronPages`, `TronReader`, `TronWindow`, `TronReceipts` | reading a window of incoming TRC20 transfers from an account index that may fail anywhere, and how far the result can be vouched for |
| `QuorumVerifier` | one transfer looked up at several providers, combined without voting |
| `TronSend` | proving that a signed transaction can no longer land, and combining what gateways say became of it |
| `Hex`, `ProtoWire`, `TronTx`, `TronPrinted`, `TronLayout` | printing and reading transactions: varints, protobuf fields, nested messages, ABI call data; which accepted bytes were built; the bytes said without printer and reader |
| `AuditSeal` | the audit trail's transactions and the hash chain of seals over it |
| `AuditArchive`, `AuditExport`, `AuditFollow`, `AuditVerify`, `AuditReach`, `AuditHistory` | seals exported to write-once storage, restores that make the archive branch, and the verification that follows this database's chain through it |
| `CanonicalJson`, `CommandPipeline` | idempotent command execution under concurrent, failing and retried attempts |
| `LockOrder` | the global lock order |
| `WorkspaceGraph` | the workspace dependency check: depth-first search, cycle report, topological order |
| `Reseal`, `Team`, `Migrations`, `MapBounded` | moving sealed values to another key; a client's team; schema migrations; the bounded worker pool |
| `Sequences`, `Results` | shared vocabulary |

Code that changes things step by step is a class or a method with the same loops, proved against a specification; code
made of expressions is functions and lemmas; concurrent code is a state machine over its steps, with the theorems about
every reachable state. The network, the clock and failures are parameters that may answer anything; hypotheses about
them are predicates (`HonestWorld`, `Forthcoming`, `HasRoom`, `HonestAt`, `Possible`, `FreshHash`), so that each theorem
says what it relies on. Hashes, encryption and keyed hashes are ideal: a value of a datatype that holds what it was made
from.

## What the proofs showed about the code

- **The settle window must cover two delays.** An event's time is its statement's start, and its number is allocated
  later; the seal job is safe exactly when `settleSeconds` is at least the longest such delay plus the longest time a
  transaction stays open after it (`AuditSeal.SealsStaySound`, `AuditSeal.ShorterWindowIsUnsound`).
- **A restore inside the settle window can break an export record.** If it recovers a lost seal's events and seals the
  very same range again, the hash and so the object name are the lost one's. A run that writes leaves the archive with
  what its record says exactly when the name was free (`AuditHistory.RecordHoldsExactly`); a run in which it was not
  ends with a record whose digest is of bytes the archive does not hold (`AuditHistory.ReusedHashBreaksTheRecord`). The
  theorems about runs therefore assume that no seal gets the hash of an archived one.
- **Verification can pass over an archived range that no restore explains.** All such ranges are followed and
  re-hashed exactly when no two of them share an event and none is cut off (`AuditReach.LiveFollowedIff`); without
  restores, exactly when no two archived ranges share an event, whatever is missing (`AuditReach.AllFollowedIff`). A
  range is cut off by a lost timeline's range that starts before it, at event 1 or right after a range that no restore
  explains, where no such range starts: the loop stops there without a gap. In either case an altered event can go
  unreported (`AuditReach.OverlapIsPassedOver`, `AuditReach.CutOffIsPassedOver`). In what honest exports wrote none
  does (`AuditHistory.AlterationIsFound`).
- **The block time is not compared.** `sameTransfer` and `sameFacts` leave it out, so the time reported is that of the
  provider asked first (`QuorumVerifier.BlockTimeIsTheFirstFinders`, `TronSend.UncomparedFactsDependOnOrder`), although
  the comment says that every fact the domain reads is identical. Nor are a failure's time and result
  (`QuorumVerifier.FailureIsTheFirstReporters`).
- **The reader throws a type error** (packages/adapters/src/tron.ts:676) exactly when the last page shown is full,
  readable and without a token, and no page shown had a row of the address and token (`TronPages.ThrowsExactly`); an
  index that tells the truth can do that (`TronPages.ForeignWorld`).
- **Going back to the last timestamp is sound only if `min_timestamp` is inclusive** (`TronWindow.ExclusiveRestartSkips`).
- **`proveExpired` tolerates a margin down to minus two milliseconds** and not less, and depends on the head being read first
  (`TronSend.LessMarginIsUnsound`, `TronSend.OutcomeFirstIsUnsound`).
- **The decoder accepts bytes that were not built here** (`TronTx.UnknownFieldsAreIgnored`), although its comment says that
  it refuses them. Accepted bytes are a builder's exactly when they hold a builder's fields in a builder's order and no
  others, pad no varint, spell the type's URL without a byte order mark, and have values a builder takes
  (`TronPrinted.BuiltIffPrinted`).
- **An object with a `$bigint` key does not survive** being stored as a result (`CanonicalJson.ReadsBackIff`). Of the
  payloads that share a hash with one without the key, exactly those with the key are different ones
  (`CanonicalJson.BigintKeysCollide`, `CommandPipeline.SharedHash`).
- **`assertLockOrder` lets an equal rank pass again,** which can deadlock (`LockOrder.SameRankDeadlocks`). A call it lets
  pass is safe exactly when each row it names is held already or comes after all that are (`LockOrder.OrderIsExact`).
- **Two keys of one id** are looked up differently when a value is opened and when it is moved
  (`Reseal.SharedIdStays`): a planned value moves exactly when both lookups find one key (`Reseal.MovesExactly`).

## Model

| member | source | states |
|---|---|---|
| `TronReader.HttpProvider.Call` | packages/adapters/src/tron.ts:407-421 | A call makes at most `retries + 2` requests, whatever fails and in whatever order; a transient failure is asked again while fewer than `retries` requests went before it and a rate limit once more, nothing else is; what comes back is the last reply, and a call gives up only when its retries are used up or a timed one finds its time out. |
| `TronReader.HttpProvider.BlockTimestamp` | packages/adapters/src/tron.ts:433-445 | A time read before is given back without a request; a time read now is the answer for the block asked, is kept, and of 256 the oldest makes room. With a truthful network and cache a time returned is the chain's. |
| `TronPages.KeepRows` | packages/adapters/src/tron.ts:651-665 | Of a page exactly the rows into the address and not known to be of another token are kept, in order, up to the first unreadable one; the fresh count is the number of different keys of them not seen before. |
| `TronPages.KeptExactly` | packages/adapters/src/tron.ts:651-662 | A row is kept exactly when it comes before the first unreadable row, is into the address, and is not said to be of another token. |
| `TronPages.HonestStep` | packages/adapters/src/tron.ts:637-680 | An honest page keeps everything up to the place it ends at, and a token it bears leads on from there; a short page without a token ends the listing. |
| `TronPages.RestartKeeps` | packages/adapters/src/tron.ts:674-679 | Going back to the last timestamp shown skips no row, given that the lower bound is inclusive. |
| `TronPages.HonestPagesCover` | packages/adapters/src/tron.ts:637-680 | After any number of honest pages, everything before the place the next query starts at has been kept, whether the loop went on by token or by timestamp. |
| `TronPages.PagesKeepPace` | packages/adapters/src/tron.ts:623-680 | Each full page of an index that withholds nothing brings the loop on by a page, less the rows that a restart after a page without a token shows again. |
| `TronPages.HowPagesEnd` | packages/adapters/src/tron.ts:623-680 | How each page ends the read or takes it on, told from the pages shown alone: it stalls on a row that cannot be read, on a token that an earlier page bore, or on a full page without a token none of whose rows is new in transaction, sender, amount and time; it ends a listing that is short; and it goes on to its token, or from the last row's time. |
| `TronPages.OursAloneRestarts` | packages/adapters/src/tron.ts:666-679 | In an index of rows of the address and token alone those are at most the rows of one timestamp. |
| `TronPages.ThrowsExactly` | packages/adapters/src/tron.ts:666-676 | The type error happens exactly when the last page shown is full, readable and without a token, and no page shown had a row of the address and token. |
| `TronPages.ForeignPageThrows` | packages/adapters/src/tron.ts:666-676 | A network that answers the first query with a full page of others' rows and no token makes every read throw at that page. |
| `TronPages.ForeignWorld` | packages/adapters/src/tron.ts:666-676 | There is such a network that tells only the truth. |
| `TronReader.HttpProvider.ReadPages` | packages/adapters/src/tron.ts:623-680 | At most `maxPages` pages and as many calls whatever the index does; the first query asks from a millisecond before the window, but no earlier than 0, to a millisecond after it; the pages are answers of the network to the queries the loop comes to in turn; the rows, the stop and the type error are what those pages make them, or why no further one was had. |
| `TronChain.LogMeans` | packages/adapters/src/tron.ts:232-274 | Exactly which logs are Transfer events, and of what; which are other events; and which claim to be a Transfer and cannot be read. |
| `TronChain.ReceiptMeans` | packages/adapters/src/tron.ts:212-230 | Exactly which answers are evidence: a receipt of the transaction asked for, with a block, a time and a result; and when it says that the transaction succeeded. |
| `TronWindow.GroupByTx` | packages/adapters/src/tron.ts:684-690 | Rows are grouped by transaction, each transaction listed once with exactly its rows in their order, none lost. |
| `TronWindow.VerdictMeaning` | packages/adapters/src/tron.ts:691-712 | Exactly when a transaction is accepted, and why not otherwise: its receipt has the earliest listed time and failed, or has no malformed log and bears, for every row that lists it, a transfer of the contract into the address of that sender and amount. |
| `TronWindow.VerdictIsExact` | packages/adapters/src/tron.ts:691-712 | A transaction accepted from a true receipt is on the chain at the listed time, and its verdict lists exactly its positive transfers of the contract into the address, in log order. |
| `TronWindow.TrueRowsAreProven` | packages/adapters/src/tron.ts:691-712 | A transaction whose index rows are all true and whose receipt came is accepted. |
| `TronWindow.FindHorizon` | packages/adapters/src/tron.ts:716-724 | A time is below the horizon exactly when it is before where the pages stopped and before every unproven transaction; there is no horizon exactly when nothing stopped or failed; the reason is what set it. |
| `TronWindow.Collect` | packages/adapters/src/tron.ts:725-734 | The transfers are those of the proven transactions of the window, and the block vouched for is the highest proven below the horizon. |
| `TronWindow.VouchedIsBelowHorizon` | packages/adapters/src/tron.ts:727-740 | Every block vouched for is earlier than everything that could not be proved, because block times strictly increase. |
| `TronWindow.NothingMissing` | packages/adapters/src/tron.ts:714-740 | Every positive transfer of the contract into the address in the blocks vouched for is reported. |
| `TronWindow.WindowIsSound` | packages/adapters/src/tron.ts:682-744 | A window's transfers are incoming transfers of the chain, within its blocks, strictly in order of block, transaction id and log, and none is missing through `completeThrough`. |
| `TronWindow.ReadReceipts` | packages/adapters/src/tron.ts:682-744 | From the rows on: at most `retries + 2` requests for each of their transactions; a sound window if the rows cover what they reach; the reason given is where the pages stopped or a transaction of the rows; complete if nothing is withheld and all rows are the index's, and if the pages stopped, every transaction of the window that a row earlier than the last lists is vouched for. |
| `TronWindow.ReadIncomingTransfers` | packages/adapters/src/tron.ts:599-744 | The whole read: refused exactly for an empty or negative window; at most `(retries + 2) * (2 + maxPages + transactions)` requests against any network, the transactions being those of the rows kept of the pages answered; the reason of an incomplete window is what happened; a type error exactly when those pages come to it. Of an honest network the first page is asked from a millisecond before the first block of the window (not before 0) to a millisecond after the last; the window is sound whatever fails; when nothing is withheld and what is listed is so it gets as far as the rows shown do, and it is complete when the rows from the window's start on fit in the pages allowed. |
| `TronReceipts.InterleavedRequests` | packages/adapters/src/tron.ts:682-712 | However the workers' requests for receipts interleave, there are at most `retries + 2` for each transaction. |
| `TronReceipts.InterleavedWindow` | packages/adapters/src/tron.ts:682-744 | From any finished run of the worker pool, whatever its steps and requests interleave with, the window concluded is sound, and complete when nothing is withheld and all rows are the index's. |
| `TronWindow.NoTransferSkipped` | packages/adapters/src/tron.ts:599-744 | When each window starts one block after what the last vouches for, every incoming transfer from the first block to where the run has got is in one of them. |
| `TronWindow.NoTransferTwice` | packages/adapters/src/tron.ts:599-744 | In such a run no block is vouched for by two windows. |
| `TronWindow.ExclusiveRestartSkips` | packages/adapters/src/tron.ts:674-679 | With an exclusive lower bound the loop ends, on pages that are each honest, as if it had read all, and without a row of the address. |
| `MapBounded.CallsOnceWithinLimit` | packages/adapters/src/tron.ts:310-321 | Under every interleaving of the workers each index is claimed at most once, in order, and at most `max(limit, 1)` calls are in flight. |
| `MapBounded.UsesTheLimit` | packages/adapters/src/tron.ts:310-321 | While items are left, workers that have started and not failed are all awaiting a call: as many as the limit, at least one, or as there are items. |
| `MapBounded.EndsWithTheMap` | packages/adapters/src/tron.ts:310-321 | When all workers have returned, every item has been called for and the output at each index is the function of the item there. |
| `MapBounded.StepsRunOut` | packages/adapters/src/tron.ts:310-321 | Every step of a worker lowers a measure that stays non-negative, so settled calls bring the pool to its end. |
| `QuorumVerifier.VerdictMeaning` | packages/adapters/src/tron.ts:806-867 | Exactly when each verdict is given: found when someone found the transfer, all who did report the same transaction, log, token, accounts, amount, block and status, and nobody reports a failure; and so for conflict, failure, absence and unavailability. |
| `QuorumVerifier.VerifiedIsUncontradicted` | packages/adapters/src/tron.ts:814-849 | A found verdict states facts that every finder reports and that nobody contradicts. |
| `QuorumVerifier.FinalWhenSomeFinderSaysSo` | packages/adapters/src/tron.ts:826-848 | The solidified block reaches the transfer's block exactly when some finder calls it final. |
| `QuorumVerifier.SolidifiedBlockIs` | packages/adapters/src/tron.ts:826-831 | It is the lowest head of the finders that call the transfer final, or the highest of all finders when none does. |
| `QuorumVerifier.FactsAreTheFirsts` | packages/adapters/src/tron.ts:814-865 | The facts reported, of a transfer or of a failure, are those of the first provider that has them. |
| `QuorumVerifier.AgreedByBackers` | packages/adapters/src/tron.ts:826-848 | The names that agree are those of exactly the finders that back the verdict, and when the transfer is final all of them have reached the solidified block reported. |
| `QuorumVerifier.AgreedGroupsAreBackers` | packages/adapters/src/tron.ts:826-848 | The groups counted are the case-folded groups of exactly those finders. |
| `QuorumVerifier.GroupsCountedOnce` | packages/adapters/src/tron.ts:895-903 | Each case-folded group is listed once, however it is spelt. |
| `QuorumVerifier.OneGroup` | packages/adapters/src/tron.ts:895-903 | Two groups are one exactly when they differ in nothing but the case of ASCII letters. |
| `QuorumVerifier.FirstSpelling` | packages/adapters/src/tron.ts:895-903 | The spelling listed for a group is the one met first. |
| `QuorumVerifier.FailureAgreedBy` | packages/adapters/src/tron.ts:851-860 | A failure is agreed on by exactly those of its reporters whose heads have reached its block, each of their groups once. |
| `QuorumVerifier.AbsenceReportedBy` | packages/adapters/src/tron.ts:861-864 | Absence is reported by exactly those who did not find the transfer, each of their groups once. |
| `QuorumVerifier.UnavailableAreSilent` | packages/adapters/src/tron.ts:810 | Whatever the verdict, a provider is listed as unavailable exactly when it gave no answer. |
| `QuorumVerifier.OrderDoesNotMatter` | packages/adapters/src/tron.ts:806-867 | Permuting the providers keeps the status, the compared facts, the solidified block, and the sets of names and groups. |
| `QuorumVerifier.BlockTimeIsTheFirstFinders` | packages/adapters/src/tron.ts:905-917 | The reported block time is independent of who is asked first exactly when all finders report one time. |
| `QuorumVerifier.FailureIsTheFirstReporters` | packages/adapters/src/tron.ts:851-867 | So are the time and result of a failure, exactly when all who report it report them. |
| `TronSend.ProveExpired` | packages/adapters/src/tron-send.ts:230-243 | Expiry is proved exactly when every gateway reports a head past the expiration by the margin and, asked after that, no trace of the transaction. |
| `TronSend.ProvedIsDead` | packages/adapters/src/tron-send.ts:230-243 | With one honest gateway among any others, whose head was read before its outcome, a proof of expiry means that no solidified chain of the run, before or after, holds the transaction. |
| `TronSend.ProvedIsNeverFinal` | packages/adapters/src/tron-send.ts:202-243 | With all gateways honest, a proof of expiry and a final outcome never both occur in one run, in either order. |
| `TronSend.LessMarginIsUnsound` | packages/adapters/src/tron-send.ts:230-243 | With any margin below minus two milliseconds an honest gateway can prove a transaction dead that then lands. |
| `TronSend.OutcomeFirstIsUnsound` | packages/adapters/src/tron-send.ts:225-235 | Asked for the outcome before the head, the proof is unsound at any margin. |
| `TronSend.OutcomeMeaning` | packages/adapters/src/tron-send.ts:202-223 | Exactly when each combined outcome is reported: final when some gateway says so and all that do agree on block, success, result and fee; a conflict when they do not; pending, unknown or not found by what the others answer. |
| `TronSend.OutcomeNames` | packages/adapters/src/tron-send.ts:202-223 | A final outcome names exactly the gateways that report it, each of their groups once in lower case, and exactly those that were silent, with one report's facts; a pending one names exactly those that see it. |
| `TronSend.OutcomeIgnoresOrder` | packages/adapters/src/tron-send.ts:202-223 | Permuting the gateways changes neither the outcome nor the compared facts. |
| `TronSend.UncomparedFactsDependOnOrder` | packages/adapters/src/tron-send.ts:107-108 | The facts reported, block time and fee parts included, are the same whoever is listed first exactly when all final reports have the same facts. |
| `Hex.FromHexToHex` | packages/adapters/src/tron-tx.ts:200-230 | Reading printed hex gives back the bytes. |
| `TronLayout.ReadsHex` | packages/adapters/src/tron-tx.ts:117-121 | A text reads as some bytes exactly when it is their digits, in either case, with or without `0x` in front. |
| `Hex.PaddedNumber` | packages/adapters/src/tron-tx.ts:160-193 | A number padded to a width reads back as itself. |
| `ProtoWire.WriteVarint` | packages/adapters/src/tron-tx.ts:31-42 | The loop prints the varint of every non-negative number and refuses negative ones. |
| `ProtoWire.ReadVarintAt` | packages/adapters/src/tron-tx.ts:64-80 | The reading loop, with its running shift, computes the recursive reader. |
| `ProtoWire.ReadVarintOfVarint` | packages/adapters/src/tron-tx.ts:31-80 | Reading undoes printing, whatever comes before and after, exactly for numbers below 128^10, so for all 64-bit ones. |
| `ProtoWire.ReadIsPrintedUnlessPadded` | packages/adapters/src/tron-tx.ts:64-80 | The bytes read are the printer's own exactly when the varint is not padded. |
| `TronLayout.VarintStandsFor` | packages/adapters/src/tron-tx.ts:31-42 | The printed varint is the shortest whose low seven bits, lowest byte first, stand for the number, the high bit set on all bytes but the last. |
| `TronLayout.ReadsVarint` | packages/adapters/src/tron-tx.ts:67-80 | Bytes read as a number exactly when they are one varint of at most ten bytes that stands for it, padded or not. |
| `ProtoWire.ProtoWriter.Int` | packages/adapters/src/tron-tx.ts:46-49 | Writing an integer field appends that field to those the bytes stand for, or refuses and changes nothing. |
| `ProtoWire.ProtoWriter.Data` | packages/adapters/src/tron-tx.ts:50-56 | Writing a bytes field appends that field. |
| `ProtoWire.ReadProto` | packages/adapters/src/tron-tx.ts:64-96 | The reading loop fills the map that groups all fields by number in order, and fails exactly where they do not read. |
| `ProtoWire.ReadUndoesWrite` | packages/adapters/src/tron-tx.ts:44-96 | Reading what was written gives back every field, in order. |
| `ProtoWire.ReadFieldsAfter` | packages/adapters/src/tron-tx.ts:64-96 | Fields written after bytes that read well are read after their fields. |
| `TronTx.PrintRawData` | packages/adapters/src/tron-tx.ts:169-182 | The printer writes the raw message's fields, or refuses, as its specification says. |
| `TronTx.DecodeCallUndoesData` | packages/adapters/src/tron-tx.ts:190-193 | Reading the call data of a token transfer gives back its recipient and amount. |
| `TronTx.DecodeContractUndoesBuild` | packages/adapters/src/tron-tx.ts:184-223 | Decoding a built contract message gives back the contract. |
| `TronTx.TrxBuildable` | packages/adapters/src/tron-tx.ts:155-209 | Exactly which inputs a TRX transfer is built for, and for which the amount is what is refused. |
| `TronTx.Trc20Buildable` | packages/adapters/src/tron-tx.ts:155-223 | Exactly which inputs a token transfer is built for, and for which the amount or the fee limit is what is refused. |
| `TronLayout.BuildsTrx` | packages/adapters/src/tron-tx.ts:155-209 | A built TRX transfer is the one asked for: its record bears the sender, recipient, amount, block number and times given; its bytes are laid out from exactly these, with the last two bytes of the block number and bytes 8 to 16 of the block id; and reading them gives the same values back. |
| `TronLayout.BuildsTrc20` | packages/adapters/src/tron-tx.ts:155-223 | So is a token transfer, its call of `transfer` bearing the recipient and amount given, with its fee limit. |
| `TronLayout.Signs` | packages/adapters/src/tron-tx.ts:226-230 | The signed form is the raw data and the signature as two fields, and is made exactly of hex and a signature of 65 bytes. |
| `TronTx.DecodeUndoesBuild` | packages/adapters/src/tron-tx.ts:200-294 | Decoding the raw data of any built transaction gives back what its record says, the reference block number modulo 2^16; that the record is what was asked for is `TronLayout.BuildsTrx` and `TronLayout.BuildsTrc20`. |
| `TronTx.DecodeUndoesSign` | packages/adapters/src/tron-tx.ts:226-294 | So does decoding it signed, together with the signature. |
| `TronTx.RawBytesTellTransfersApart` | packages/adapters/src/tron-tx.ts:200-223 | Built transactions that differ in more than high bits of the block number never share their raw bytes. |
| `TronTx.AnchorNumber` | packages/adapters/src/tron-tx.ts:160-167 | The two reference bytes are the block number modulo 2^16. |
| `TronTx.UnknownFieldsAreIgnored` | packages/adapters/src/tron-tx.ts:240-294 | Raw data with any unknown field after it decodes to the same transaction. |
| `TronLayout.DecodesExactly` | packages/adapters/src/tron-tx.ts:240-294 | Bytes decode to a transaction exactly when their fields say it: each known field once or, where it may be absent, not at all, one contract of the right type and URL, 21-byte addresses, no TRX or token value beside a token transfer, and call data of the selector, twelve zero bytes, the recipient and the amount. |
| `TronLayout.DecodesSignedExactly` | packages/adapters/src/tron-tx.ts:240-253 | A signed text decodes exactly when it is the hex of readable fields whose first, once or not at all, is raw data that decodes and whose second are its signatures, all bytes, in order. |
| `TronPrinted.UnpaddedIsWritten` | packages/adapters/src/tron-tx.ts:44-96 | Bytes that read as fields are the writer's own bytes for those fields exactly when none of their keys, lengths and numbers is padded. |
| `TronPrinted.BuiltIffPrinted` | packages/adapters/src/tron-tx.ts:200-294 | Accepted raw data is that of some built transaction exactly when the message and the three nested in it hold a builder's fields in its order and no others, unpadded, the URL has no byte order mark, and the values are in the builders' ranges. |
| `AuditSeal.VerifyAuditSeals` | packages/audit/src/seal.ts:44-52 | Finds the first seal that no longer matches the trail, exactly when there is one. |
| `AuditSeal.SealPinsEvents` | packages/audit/src/seal.ts:44-52 | Two trails that one seal matches hold the same events in its range. |
| `AuditSeal.TamperingIsDetected` | packages/audit/src/seal.ts:43-52 | Any changed, added or removed event of the sealed range makes a seal fail. |
| `AuditSeal.SealsStaySound` | packages/audit/src/seal.ts:11-35 | In every run of inserts, commits, rollbacks and sealing with a long enough settle window, seals partition the numbers from 1, chain hash to hash, and all match, though numbers commit out of order. |
| `AuditSeal.NoCommitIntoSealed` | packages/audit/src/seal.ts:11-15 | No event ever commits into a sealed range. |
| `AuditSeal.ShorterWindowIsUnsound` | packages/audit/src/seal.ts:11-26 | For every shorter window there is a run in which one does. |
| `AuditSeal.SealJob.Run` | packages/audit/src/seal.ts:16-35 | One run of the job makes a seal from where the last one ends to the latest event older than the window, numbered next and dated now, or none exactly when there is no such event, and keeps the chain and its matching. |
| `AuditFollow.AllAgreeingPlaced` | packages/audit/src/export.ts:228-252 | When no range that agrees starts where the chain ends, every range that agrees has been placed. |
| `AuditFollow.FollowChain` | packages/audit/src/export.ts:228-252 | The loop ends on any archive. Each range followed is preferred among those at its place, and its place is where the last one ends or the nearest that nothing explains; when it ends, only a lost timeline's ranges are left there, or nothing there and only such ranges further on. A gap is found exactly when the ranges followed have one, and says between which seals; what is superseded is explained by a fence; an honest archive is followed to its end. |
| `AuditVerify.CheckLeftOver` | packages/audit/src/export.ts:253-258 | Of the ranges off the chain, exactly those a fence explains are superseded and exactly those that differ unexplained are findings. |
| `AuditVerify.CheckLinks` | packages/audit/src/export.ts:261-269 | Reports exactly the archived seals that do not continue the hash before them, across ranges as within them. |
| `AuditVerify.CheckSeals` | packages/audit/src/export.ts:270-275 | Reports exactly the archived seals that are missing or different here. |
| `AuditVerify.CheckEvents` | packages/audit/src/export.ts:277-282 | Reports exactly the archived seals that the events no longer hash to or count to. |
| `AuditVerify.VerifyAuditArchive` | packages/audit/src/export.ts:199-290 | For any archive: the ranges followed are as above; a finding is reported exactly when it is warranted by a listed object, a range off the chain, a seal of a range followed or the seal that waits longest; exactly the ranges off the chain that a fence explains are superseded, each listed with the seal where it differs and that fence; a gap names the seals it lies between. No finding means a readable archive, contiguous ranges, sound archived seals and every range the same as here or explained. Of what honest exports wrote all agreeing ranges are followed, whatever the trail says now; if the trail is unaltered too, there is no finding but waiting seals. |
| `AuditVerify.CleanWithoutFences` | packages/audit/src/export.ts:253-275 | Without restores, no finding means that every archived seal is the seal here. |
| `AuditReach.ExcusedExactly` | packages/audit/src/export.ts:218-223 | A range that differs from the seals here is excused exactly when some restore's records were known whole only until before its first differing seal was sealed, and by the earliest such restore. |
| `AuditReach.AlikeIsNotExcused` | packages/audit/src/export.ts:213-223 | A range all of whose seals are the same here, in number, hash, previous hash and events covered, differs from nothing and is excused by nothing. |
| `AuditReach.UnexcusedIsFound` | packages/audit/src/export.ts:199-290 | A listed range whose first differing seal was sealed before any restore could excuse it is not superseded, and is reported: as diverged, or seal by seal when it was followed. |
| `AuditReach.UnlikeIsReported` | packages/audit/src/export.ts:270-275 | A seal of a followed range that is missing here, or another here in any of those, is reported as such. |
| `AuditReach.UnreadableIsReported` | packages/audit/src/export.ts:199-214 | Exactly the listed objects that were not fetched, hold no seals or are named for another range are reported unreadable; the ranges followed are of the others. |
| `AuditReach.WaitingIsReported` | packages/audit/src/export.ts:283-287 | A seal is reported as not archived exactly when one beyond the ranges followed is older than the grace period, and it is the first of those. |
| `AuditReach.ApartIsFollowed` | packages/audit/src/export.ts:224-252 | An archived range that no restore explains, that shares no event with another such range and is not cut off is followed; said of the listed archive alone. |
| `AuditReach.LiveFollowedIff` | packages/audit/src/export.ts:224-252 | All ranges that no restore explains are followed exactly when no two of them share an event and none is cut off by a lost range that goes on where none of them does. |
| `AuditReach.AllFollowedIff` | packages/audit/src/export.ts:224-252 | Without restores, all ranges are followed exactly when no two of them share an event, gaps or not. |
| `AuditReach.FollowedIsChecked` | packages/audit/src/export.ts:277-282 | An event changed, added or removed since a followed range was archived is reported under the seal that covers it. |
| `AuditReach.AlteredEventIsFound` | packages/audit/src/export.ts:228-282 | So it is, restores or not, in any archived range that no restore explains, that shares no event with another such range and is not cut off. |
| `AuditReach.OverlapIsPassedOver` | packages/audit/src/export.ts:228-258 | Of two agreeing ranges that overlap the second is passed over, though its last seal is archived nowhere else: within the grace period the verification reports nothing, whatever became of that seal's events. |
| `AuditReach.CutOffIsPassedOver` | packages/audit/src/export.ts:228-258 | A range that is cut off is passed over with no finding, not even a gap, whatever became of its events. |
| `AuditReach.SeveredExists` | packages/audit/src/export.ts:228-258 | There is such an archive, and a trail in which the event of the passed range was altered. |
| `AuditVerify.SoundIsAPrefix` | packages/audit/src/export.ts:260-282 | With seals that verify against themselves, sound archived seals are the first seals here, one for one. |
| `AuditExport.ExportJob.Run` | packages/audit/src/export.ts:93-159 | One run adopts the first listed object that describes exactly the seals here, else writes the next seals; an object once written is never written over, and a run cut short records nothing. |
| `AuditExport.RecordTells` | packages/audit/src/export.ts:93-159 | What a run records tells of its range the seals, events, count, hash and name that it has; the range continues from the recorded export that ends last; an adopted one is listed, named for its content, and holds exactly the seals here from its first to its last; and a run writes only if none listed is such. |
| `AuditHistory.ExportsExactly` | packages/audit/src/export.ts:93-126 | What a run exports in a consistent state: nothing exactly if all is exported, or it may write none and there is none to adopt; an archived range that agrees where exports end exactly if there is one; else all seals left, up to as many as it may. |
| `AuditHistory.ExportsAdvance` | packages/audit/src/export.ts:93-126 | In every reachable state a run that is not cut short and may write gets further, until every seal is exported: with none to adopt, by exactly as many seals as are left or allowed. |
| `AuditHistory.AgreeingIsAdoptable` | packages/audit/src/export.ts:140-147 | Any archived range that agrees where the recorded exports end is adoptable, under the number that is listed. |
| `AuditHistory.AdoptedAgrees` | packages/audit/src/export.ts:140-158 | An adopted object describes exactly the next seals, and so does its record. |
| `AuditHistory.RunsKeep` | packages/audit/src/export.ts:93-159 | The invariant of every run of appending, sealing, exporting, crashing, adopting and restoring. |
| `AuditHistory.NeverAFalseAlarm` | packages/audit/src/export.ts:199-290 | In every state such a run can reach, the archive is untampered in the sense of the verification, which therefore reports nothing but waiting seals. |
| `AuditHistory.AlterationIsFound` | packages/audit/src/export.ts:199-290 | In every such state, restores included, verifying with any event changed, added or removed in an archived range that agrees with the seals here reports the seal that covers it. |
| `AuditHistory.ExportsAreInOrder` | packages/audit/src/export.ts:93-159 | Recorded exports tile the sealed sequence from the first event without gap or overlap, and each recorded object holds exactly the bytes recorded, of exactly those seals. |
| `AuditHistory.OrphanIsAdopted` | packages/audit/src/export.ts:84-107 | An object left unrecorded by a crash is the one the next run records, instead of writing another. |
| `AuditHistory.RecordedOnce` | packages/audit/src/export.ts:84-107 | No object is recorded twice. |
| `AuditHistory.RecordHoldsExactly` | packages/audit/src/export.ts:108-136 | When a run writes its range, the archive afterwards holds what the record says exactly when the object's name was free before. |
| `AuditHistory.ReusedHashBreaksTheRecord` | packages/audit/src/export.ts:116-136 | A run in which a re-sealed range has a lost seal's hash ends with a record of bytes the archive does not hold. |
| `AuditHistory.SealingIsAllowed` | packages/audit/src/seal.ts:11-35 | Every step of the sealing machine, with its open transactions and its clock, is a step of these histories or changes neither trail nor seals. |
| `CanonicalJson.DecimalParses` | packages/commands/src/pipeline.ts:34-53 | The digits of a big integer parse back to it. |
| `CanonicalJson.ReadsBackIff` | packages/commands/src/pipeline.ts:32-53 | A value reads back from its canonical JSON exactly when no object within has a `$bigint` key. |
| `CanonicalJson.LikeIsCanonical` | packages/commands/src/pipeline.ts:32-42 | Values that differ in the order of keys alone have one canonical JSON. |
| `CanonicalJson.CanonicalIsLike` | packages/commands/src/pipeline.ts:32-42 | Values without a `$bigint` key that share their canonical JSON differ in the order of keys alone. |
| `CanonicalJson.BigintKeysCollide` | packages/commands/src/pipeline.ts:32-42 | Of the values that share the canonical JSON of one without a `$bigint` key, exactly those with such a key differ from it in more than key order. |
| `CanonicalJson.BigintKeyPasses` | packages/commands/src/pipeline.ts:34-38 | An object with that key shares the canonical JSON of a big integer. |
| `CanonicalJson.BigintKeyReadsAs` | packages/commands/src/pipeline.ts:51-53 | An object with that key alone reads back as a big integer if it holds a number, a boolean, a big integer or decimal digits; holding null or another text it does not read back at all. |
| `CommandPipeline.SameHashSameRequest` | packages/commands/src/pipeline.ts:44-50 | Two requests without the key in their payloads hash alike exactly when command, person, surface and payload are the same. |
| `CommandPipeline.SharedHash` | packages/commands/src/pipeline.ts:44-50 | A request that hashes like one without the key has its command, person and surface, and has another payload exactly when that holds the key. |
| `CommandPipeline.RunsKeep` | packages/commands/src/pipeline.ts:66-117 | The invariant of every interleaving: one committed effect a key, rows that tell of it, exclusive claims, and phases that were earned. |
| `CommandPipeline.CommitsAtMostOnce` | packages/commands/src/pipeline.ts:55-117 | Of the effects of one command name and key at most one commits, and no committed row is pending. |
| `CommandPipeline.EffectsAreExecuted` | packages/commands/src/pipeline.ts:57-58 | Every committed effect is that of an attempt answered with it: a failed attempt leaves nothing. |
| `CommandPipeline.ReplaysTheFirst` | packages/commands/src/pipeline.ts:82-97 | A replay has passed authorization, answers a request with the hash of the one executed, and returns that one's result exactly when it holds no `$bigint` key. |
| `CommandPipeline.AnswersAreTrue` | packages/commands/src/pipeline.ts:82-116 | Executed means authorized and committed; the in-progress refusal is never reached. |
| `CommandPipeline.AnsweredIsAuthorized` | packages/commands/src/pipeline.ts:82-116 | An attempt is executed or replayed only after its own authorization step passed. |
| `CommandPipeline.Store.ExecuteCommand` | packages/commands/src/pipeline.ts:66-117 | One attempt, statement by statement. It is executed, and the rows change, exactly when it has the key it needs, nothing is committed under its name and key, authorization passes and the handler returns; a committed result is replayed exactly to a request of the same hash that is authorized; a key bound to another hash is refused; whatever fails leaves the rows as they were. |
| `CommandPipeline.AloneIsARun` | packages/commands/src/pipeline.ts:66-117 | The state machine takes an uninterleaved attempt to that same answer and those same rows, each authorization and handler step on the way bearing what the caller was told. |
| `LockOrder.RowsAscend` | packages/db/src/transaction.ts:53-62 | A call locks exactly the rows asked for, each once, in key order. |
| `LockOrder.Tracker.AssertLockOrder` | packages/db/src/transaction.ts:44-51 | Refuses exactly a lower rank than the transaction's last, and records an accepted one. |
| `LockOrder.Tracker.LockInOrder` | packages/db/src/transaction.ts:57-62 | Refuses likewise, or goes on to the rows of the call in order. |
| `LockOrder.RunsExclusive` | packages/db/src/transaction.ts:57-62 | No row is locked by two transactions at once. |
| `LockOrder.SomeoneGoesOn` | packages/db/src/transaction.ts:18-51 | While each call asks only for rows its transaction holds or that come after all it holds, whenever some transaction waits, one that is waited for does not wait. |
| `LockOrder.NoCircle` | packages/db/src/transaction.ts:18-51 | While calls are so, there is never a circle of waiting transactions. |
| `LockOrder.OncePerResource` | packages/db/src/transaction.ts:18-51 | Locking each resource at most once in a transaction is in order. |
| `LockOrder.OutOfOrderDeadlocks` | packages/db/src/transaction.ts:44-51 | After any run in order, a call that the tracker lets pass and that is not in order can be followed, in order, by a circle with any other session. |
| `LockOrder.OrderIsExact` | packages/db/src/transaction.ts:44-51 | Of the calls the tracker lets pass, exactly those in order have no continuation in order that comes to a circle. |
| `LockOrder.SameRankDeadlocks` | packages/db/src/transaction.ts:44-51 | For any resource and two rows, a second call for the lower row reaches a circle. |
| `LockOrder.TrackerIsTheMachine` | packages/db/src/transaction.ts:42-51 | The tracker's map is the machine's highest ranks, and it refuses exactly the calls the machine does not take. |
| `WorkspaceGraph.TopologicalIsAcyclic` | scripts/workspace-graph.ts:51-69 | A graph with a topological order has no cycle. |
| `WorkspaceGraph.Walk.Visit` | scripts/workspace-graph.ts:54-67 | A visit restores the stack, finishes the package if it meets no cycle, and adds only true cycles to the problems. |
| `WorkspaceGraph.ReadManifest` | scripts/workspace-graph.ts:39-48 | The edges are exactly the listed workspace packages; the problems are exactly the dependencies without the `workspace:` protocol and those of a package on an app. |
| `WorkspaceGraph.NamedIsLast` | scripts/workspace-graph.ts:36 | Of several manifests with one name the last is the one looked up. |
| `WorkspaceGraph.CheckGraph` | scripts/workspace-graph.ts:35-70 | Ends on every graph with each package in the order once; a cycle is reported exactly when there is one, as a real closed path; the other problems are exactly what some manifest wrongly lists; without a cycle every dependency precedes its dependant. |
| `Reseal.OpensWhatWasSealed` | packages/adapters/src/field-protection.ts:28-53 | A sealed value opens to what was sealed, under its own context and no other. |
| `Reseal.CheckSays` | scripts/reseal-fields.ts:143-155 | A value checks out exactly when it is what was encrypted under the row's context with the data key wrapped by the last key of its id, and its keyed hash is the one stored beside it, if one is. |
| `Reseal.MoveCarries` | packages/adapters/src/rewrap.ts:32-49 | A move changes only the key id and the wrapped data key, and what it leaves opens with the target alone to the same value. |
| `Reseal.MovesExactly` | scripts/reseal-fields.ts:192-214 | Exactly which rows move: those not under the target whose value checks out and whose key id leads to one key both when opening and when moving, unless something outside fails them; exactly the rows under the target are passed over, and all others fail. |
| `Reseal.PlannedMoves` | scripts/reseal-fields.ts:192-214 | So with distinct key ids every value that the plan opens moves unless something outside fails it. |
| `Reseal.SharedIdStays` | packages/adapters/src/rewrap.ts:39-41 | With two sources of one id, a value the plan opens can fail to move. |
| `Reseal.Plan` | scripts/reseal-fields.ts:183-191 | Passes exactly when every pending value opens and matches its lookup hash, and lists the ids of exactly those that do not. |
| `Reseal.Verify` | scripts/reseal-fields.ts:178-184 | Passes exactly when every value is under the target, opens with it alone and matches its lookup hash, and lists the ids of exactly those that do not open so. |
| `Reseal.RemainingCounts` | scripts/reseal-fields.ts:228-232 | The number remaining is that of the rows not under the target. |
| `Reseal.Store.Apply` | scripts/reseal-fields.ts:166-235 | A run writes nothing unless the plan passes; then exactly the first movable rows change, up to the limit, each to its moved form; the number reported moved is the number of rows that changed, and the ids reported are those of exactly the rows that were reached and failed; success is reported exactly when there are none and nothing is pending. |
| `Reseal.AllPendingMove` | scripts/reseal-fields.ts:192-226 | In an undisturbed run the movable rows are all the pending ones, when each is moved by the key it opens with. |
| `Reseal.RowsAreCarried` | scripts/reseal-fields.ts:14-19 | Over any number of runs cut short anywhere, each row is untouched or moved, and opens to the same value. |
| `Reseal.MovedStays` | scripts/reseal-fields.ts:18-19 | A row under the target never moves again. |
| `Reseal.AppliedVerifies` | scripts/reseal-fields.ts:20-21 | When nothing is left to move, verification passes exactly when the rows that were under the target at the start were sound. |
| `Reseal.NothingIsLeft` | scripts/reseal-fields.ts:166-226 | An undisturbed run without a limit, whose plan passes, leaves nothing to move exactly when each pending value opens with the key it is moved by. |
| `Team.Tables.InviteTeamMember` | packages/clients/src/team.ts:106-149 | The handler's statements make its specified change, or roll back. |
| `Team.Tables.RevokeTeamInvite` | packages/clients/src/team.ts:151-171 | Likewise for withdrawing an invitation. |
| `Team.Tables.AcceptTeamInvite` | packages/clients/src/team.ts:189-235 | Likewise for accepting. |
| `Team.Tables.SetTeamMemberRole` | packages/clients/src/team.ts:243-261 | Likewise for a change of role. |
| `Team.Tables.RemoveTeamMember` | packages/clients/src/team.ts:268-284 | Likewise for a removal. |
| `Team.RunsKeep` | packages/clients/src/team.ts:52-284 | Under any interleaving of authorizations and handlers: every waiting invitation's maker is an active administrator of its client, one waits for each email at most, at most twenty unexpired ones wait for a client, and a person has one account. |
| `Team.AlwaysAnAdmin` | packages/clients/src/team.ts:16-20 | A client that has an active administrator always keeps one. |
| `Team.JoinsByAuthority` | packages/clients/src/team.ts:180-235 | Whoever joins gets the role of a waiting, unexpired invitation to their email, made by someone who is an administrator at that moment. |
| `Team.AllowedExactly` | packages/clients/src/team.ts:52-284 | Exactly when each handler goes through, in any state a run reaches: who may invite, withdraw, accept, set a role or remove, and whom. |
| `Team.StepMeans` | packages/clients/src/team.ts:52-284 | What each step of a run changes: nothing when it does not go through; else one membership, exactly as it says, the invitations that it settles or takes back, and the one it makes, which waits for seven days. |
| `Team.RemovedStaysOut` | packages/clients/src/team.ts:263-284 | Whoever is off the team stays off it, with no invitation of theirs waiting, until they accept an invitation themselves. |
| `Team.SettledForGood` | packages/clients/src/team.ts:151-235 | An invitation that was accepted or withdrawn never changes again. |
| `Migrations.Database.Migrate` | packages/db/src/migrate.ts:27-75 | The loops compute the specified result of a run, whatever becomes of each transaction. |
| `Migrations.AlwaysAPrefix` | packages/db/src/migrate.ts:33-75 | After any runs, failed or crashed anywhere, the versions applied are 1 to some k. |
| `Migrations.ChecksumsStay` | packages/db/src/migrate.ts:33-36 | What is applied stays applied with its original checksum. |
| `Migrations.ModifiedAppliesNothing` | packages/db/src/migrate.ts:54-58 | A run that finds a modified file names the first and applies nothing. |
| `Migrations.AgainAppliesNothing` | packages/db/src/migrate.ts:53-75 | A completed run followed by another with the same files applies nothing. |
| `Migrations.RunMeans` | packages/db/src/migrate.ts:53-75 | With versions 1 to k applied and none of their files modified, a run applies exactly those from k + 1 up to the first whose transaction fails; that one is not recorded when it is rolled back, and is when only the answer to its commit is lost; what is recorded bears its file's checksum. |

## Left out

- Transport: HTTP, JSON parsing, timers, timeouts and retry delays; an answer, a failure or a value is all that is modelled. `BigInt` of an array, or of text that is not decimal digits, is taken to throw.
- Cryptography: hashes, AEAD, key wrapping, signing, recovery and base58check are ideal; an account is its twenty bytes.
- Numbers of the wire reader: `Number()` rounding of protobuf field numbers and lengths above 2^53, and text decoding other than comparison with the two ASCII type URLs.
- Gateway queries that take a first answer or filter answers (`accountState`, `estimateTrc20Energy`, `trxTransfer`, `broadcast`): easy members beside `outcome` and `proveExpired`.
- Balance sources, `transactionTransfers`, quotes, settlement, ledger, desk read models, the worker and the web proxy.
- SQL text, triggers and isolation levels: a statement is its effect, a serialization failure is a failed attempt.
- TronWindow.ReadIncomingTransfers: receipts are fetched one after the other; `TronReceipts` states the same bound and the same soundness of workers that interleave.
- AuditExport.ExportJob.Run: an object name carries the whole last hash, not its first sixteen digits; the run reads one moment of the database; lists are complete (fewer than a hundred objects start at one seal, at most a thousand in all).
- AuditHistory.RunsKeep: one exporter runs at a time, restores are linear and record their fence before anything is verified, and no seal gets an archived seal's hash; `AuditHistory.RecordHoldsExactly` and `AuditHistory.ReusedHashBreaksTheRecord` show why the last is needed. Clock skew of `sealed_at` and retention dates are not modelled.
- AuditReach.ExcusedExactly: the seals here have distinct numbers, as their primary key makes them.
- AuditVerify.VerifyAuditArchive: recording the result, and the order in which superseded ranges are listed; the listing names each object once.
- CanonicalJson.ReadsBackIff: the order in which JavaScript lists integer-like keys, which come first in an object that is rebuilt in sorted order; dates, `toJSON`, `undefined` and fractional numbers, which no stored result is modelled to hold.
- CommandPipeline.AnswersAreTrue: the statement timeout and correlation ids; an empty key, which the source takes for none.
- Reseal.Store.Apply: the fields of the schema are one sequence of rows, runs come one after the other, and the audit entry of a move is not modelled.
- Team.RunsKeep: the desk's own paths, which can disable a last administrator; email normalization and uuid checks beyond "valid or refused"; sessions, audit entries and notifications.
- Migrations.Database.Migrate: file names other than their number, and the text of a migration beyond its checksum.
