/**
 * The network that a window read of packages/adapters/src/tron.ts asks: an oracle that may answer each request, each
 * time, in any way. What is proved of the result depends only on how honest and how forthcoming its answers are.
 */
module TronNetwork {
  import opened Sequences
  import opened TronChain

  // ---- the network --------------------------------------------------------------------------------------------

  /** One row of the account history; `contract` is absent when the index does not say which token moved. */
  datatype Row = Row(hash: Hash, timestamp: int, contract: Option<Account>, from: Account, to: Account, value: nat)
  datatype RawRow = Unreadable | Readable(row: Row)

  type Token = nat
  datatype Query = Query(minTs: int, maxTs: int, token: Option<Token>)

  datatype Request = GetBlock(number: int) | GetPage(query: Query) | GetInfo(hash: Hash)

  datatype Body =
    | BlockBody(number: int, time: int)
    | PageBody(rows: seq<RawRow>, next: Option<Token>)
    | InfoBody(info: Info)
    | Garbage

  /** One HTTP exchange: a body, or a failure that is definite, transient, or a rate limit (which is transient too). */
  datatype Reply = Answer(body: Body) | Definite | Transient | RateLimited

  /**
   * `net(r, n)` is the reply to request `r` when it is the `n`th made; `late(t)` what the clock says at its `t`th
   * reading.
   */
  datatype World = World(net: (Request, nat) -> Reply, late: nat -> bool)

  datatype Settings = Settings(pageSize: nat, maxPages: nat, retries: nat)

  ghost predicate ValidSettings(s: Settings) {
    1 <= s.pageSize <= 200 && s.maxPages >= 1
  }

  // ---- honesty ------------------------------------------------------------------------------------------------

  ghost predicate Sorted(index: seq<Row>) {
    forall i, j :: 0 <= i < j < |index| ==> index[i].timestamp <= index[j].timestamp
  }

  /** A row the reader keeps: into the address, and not known to be of another token. */
  predicate Ours(row: Row, address: Account, contract: Account) {
    row.to == address && (row.contract.None? || row.contract.value == contract)
  }

  /** The index has a row, with the block's time, for the transaction of every incoming transfer; it may have others. */
  ghost predicate Lists(index: seq<Row>, chain: Chain, address: Account, contract: Account) {
    forall i, a, l ::
        Incoming(chain, contract, address, i, a, l) ==>
            HasRow(index, chain[i].txs[a].hash, chain[i].time, address, contract)
  }

  ghost predicate HasRow(index: seq<Row>, hash: Hash, time: int, address: Account, contract: Account) {
    exists p ::
        0 <= p < |index| && index[p].hash == hash && index[p].timestamp == time && index[p].to == address
        && (index[p].contract.None? || index[p].contract.value == contract)
  }

  /** How many rows are before `t`. */
  ghost function Before(index: seq<Row>, t: int): (k: nat)
    ensures k <= |index|
    ensures Sorted(index) ==> forall p :: 0 <= p < |index| ==> (p < k <==> index[p].timestamp < t)
  {
    if index == [] then 0
    else if index[|index| - 1].timestamp < t then |index|
    else
      var k := Before(index[..|index| - 1], t);
      assert forall p :: 0 <= p < |index| - 1 ==> index[..|index| - 1][p] == index[p];
      k
  }

  /**
   * Where the index starts to answer a query: where its token says, or at the first row the lower bound lets in,
   * which depends on whether the index takes the bound as inclusive.
   */
  ghost function StartOf(index: seq<Row>, at: Token -> nat, inclusive: bool, q: Query): nat {
    if q.token.Some? then at(q.token.value) else Before(index, if inclusive then q.minTs else q.minTs + 1)
  }

  /**
   * An honest page: the next rows of the sorted index, however many, any of them unreadable. Without a token a page
   * that is not full has shown every row below the upper bound; a token stands for the place after the page.
   */
  ghost predicate HonestPage(index: seq<Row>, at: Token -> nat, inclusive: bool, pageSize: nat, q: Query,
                             rows: seq<RawRow>, next: Option<Token>) {
    var start := StartOf(index, at, inclusive, q);
    && start + |rows| <= |index|
    && (forall k :: 0 <= k < |rows| && rows[k].Readable? ==> rows[k].row == index[start + k])
    && (next.Some? ==> at(next.value) == start + |rows|)
    && (next.None? && |rows| < pageSize ==> forall p :: start + |rows| <= p < |index| ==> index[p].timestamp >= q.maxTs)
  }

  /** Every body the network sends is true of the chain and the index; it may send none at any time. */
  ghost predicate Honest(w: World, chain: Chain, index: seq<Row>, at: Token -> nat, inclusive: bool, pageSize: nat) {
    forall r, n :: w.net(r, n).Answer? ==> HonestBody(chain, index, at, inclusive, pageSize, r, w.net(r, n).body)
  }

  ghost predicate HonestBody(chain: Chain, index: seq<Row>, at: Token -> nat, inclusive: bool, pageSize: nat,
                             r: Request, b: Body) {
    match b
    case BlockBody(number, time) => 0 <= number < |chain| && time == chain[number].time
    case PageBody(rows, next) => r.GetPage? ==> HonestPage(index, at, inclusive, pageSize, r.query, rows, next)
    case InfoBody(info) => r.GetInfo? ==> TrueInfo(chain, info, r.hash)
    case Garbage => true
  }

  /** What is true of the chain and the index while a window is read. */
  datatype Truth = Truth(chain: Chain, index: seq<Row>, at: Token -> nat)

  ghost predicate HonestWorld(w: World, s: Settings, t: Truth) {
    && ValidChain(t.chain) && Sorted(t.index)
    && Honest(w, t.chain, t.index, t.at, true, s.pageSize)
  }

  // ---- a network that withholds nothing -------------------------------------------------------------------------

  /** How many rows of a page are read: all, or those before the first that cannot be. */
  function ReadableCount(page: seq<RawRow>): (k: nat)
    ensures k <= |page|
    ensures forall i :: 0 <= i < k ==> page[i].Readable?
    ensures k < |page| ==> page[k].Unreadable?
  {
    if page == [] || page[0].Unreadable? then 0 else 1 + ReadableCount(page[1..])
  }

  /** Every request is answered at once with what it asks for, and only a full page bears a token. */
  ghost predicate Forthcoming(w: World, s: Settings, t: Truth) {
    && (forall k :: !w.late(k))
    && (forall q, n :: GivesPage(s, w.net(GetPage(q), n)))
    && (forall b, n :: 0 <= b < |t.chain| ==> w.net(GetBlock(b), n) == Answer(BlockBody(b, t.chain[b].time)))
    && (forall h, n :: GivesInfo(t.chain, h, w.net(GetInfo(h), n)))
  }

  ghost predicate GivesPage(s: Settings, r: Reply) {
    && r.Answer? && r.body.PageBody? && ReadableCount(r.body.rows) == |r.body.rows|
    && (r.body.next.Some? ==> |r.body.rows| >= s.pageSize)
  }

  ghost predicate GivesInfo(chain: Chain, h: Hash, r: Reply) {
    && r.Answer? && r.body.InfoBody?
    && ((exists i, a :: InBlock(chain, i, a) && chain[i].txs[a].hash == h) ==>
          r.body.info.Info? && r.body.info.result.Some?)
  }

  /** No more than `n` rows share a timestamp. */
  ghost predicate AtMostAtOnce(index: seq<Row>, n: nat) {
    forall i, j :: 0 <= i < j < |index| && index[i].timestamp == index[j].timestamp ==> j - i < n
  }

  ghost predicate FullPagesBearTokens(w: World, s: Settings) {
    forall q, n :: BearsTokenIfFull(s, w.net(GetPage(q), n))
  }

  ghost predicate BearsTokenIfFull(s: Settings, r: Reply) {
    r.Answer? && r.body.PageBody? && |r.body.rows| >= s.pageSize ==> r.body.next.Some?
  }

  /**
   * Wherever a page may end, a row of this address and contract is not far behind: no more than `n` rows are shown
   * again by a page that starts from its time.
   */
  ghost predicate RestartsWithin(index: seq<Row>, address: Account, contract: Account, n: nat) {
    forall c: nat :: n <= c <= |index| ==> HasRestart(index, address, contract, n, c)
  }

  ghost predicate HasRestart(index: seq<Row>, address: Account, contract: Account, n: nat, c: nat)
    requires n <= c <= |index|
  {
    exists p: nat :: p < c && Ours(index[p], address, contract) && c - n <= Before(index, index[p].timestamp)
  }

  /**
   * How much of each page can be rows shown before, fewer than a page: none if every full page bears a token, else as
   * many as a restart shows again.
   */
  ghost predicate Overlaps(w: World, s: Settings, t: Truth, address: Account, contract: Account, overlap: nat) {
    overlap < s.pageSize && (FullPagesBearTokens(w, s) || RestartsWithin(t.index, address, contract, overlap))
  }

  /** What there is to read from `minTs` on fits in the pages allowed. */
  ghost predicate Fits(s: Settings, index: seq<Row>, minTs: int, overlap: nat) {
    |index| - Before(index, minTs) < s.maxPages * (s.pageSize - overlap)
  }

  ghost predicate HasRoom(w: World, s: Settings, t: Truth, address: Account, contract: Account, minTs: int) {
    exists overlap: nat :: Overlaps(w, s, t, address, contract, overlap) && Fits(s, t.index, minTs, overlap)
  }
}
