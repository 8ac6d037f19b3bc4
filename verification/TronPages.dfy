/**
 * The history pages of a window read in packages/adapters/src/tron.ts: what the paging loop makes of the pages it is
 * shown, and what that covers when they are honest.
 */
module TronPages {
  import opened Sequences
  import opened TronChain
  import opened TronNetwork

  datatype StopReason = PageLimit | TimeBudget | PageFailed | PageUnreadable | TokenRepeated | OneTimestampFillsPage

  /** The rows of a page that are kept, up to the first that cannot be read. */
  function Kept(page: seq<RawRow>, address: Account, contract: Account): seq<Row> {
    if page == [] || page[0].Unreadable? then []
    else if Ours(page[0].row, address, contract) then [page[0].row] + Kept(page[1..], address, contract)
    else Kept(page[1..], address, contract)
  }

  lemma {:induction false} KeptContains(page: seq<RawRow>, address: Account, contract: Account, i: nat)
    requires i < ReadableCount(page) && Ours(page[i].row, address, contract)
    ensures page[i].row in Kept(page, address, contract)
  {
    if i > 0 {
      KeptContains(page[1..], address, contract, i - 1);
    }
  }

  lemma {:induction false} KeptComesFrom(page: seq<RawRow>, address: Account, contract: Account, row: Row)
    requires row in Kept(page, address, contract)
    ensures exists i :: 0 <= i < ReadableCount(page) && page[i].row == row && Ours(row, address, contract)
  {
    if Ours(page[0].row, address, contract) && page[0].row == row {
    } else {
      KeptComesFrom(page[1..], address, contract, row);
      var i :| 0 <= i < ReadableCount(page[1..]) && page[1..][i].row == row && Ours(row, address, contract);
      assert page[i + 1].row == row;
    }
  }

  lemma {:induction false} KeptAppend(page: seq<RawRow>, k: nat, address: Account, contract: Account)
    requires k < ReadableCount(page)
    ensures Kept(page[..k + 1], address, contract)
         == Kept(page[..k], address, contract) + if Ours(page[k].row, address, contract) then [page[k].row] else []
  {
    if k == 0 {
      assert page[..1] == [page[0]] && page[..1][1..] == [];
    } else {
      KeptAppend(page[1..], k - 1, address, contract);
      assert page[..k + 1][1..] == page[1..][..k] && page[..k][1..] == page[1..][..k - 1];
    }
  }

  lemma {:induction false} KeptUpTo(page: seq<RawRow>, address: Account, contract: Account)
    ensures Kept(page[..ReadableCount(page)], address, contract) == Kept(page, address, contract)
  {
    var k := ReadableCount(page);
    if page != [] && page[0].Readable? {
      KeptUpTo(page[1..], address, contract);
      assert page[..k][1..] == page[1..][..k - 1];
    }
  }

  type RowKey = (Hash, Account, nat, int)

  function KeyOf(row: Row): RowKey {
    (row.hash, row.from, row.value, row.timestamp)
  }

  function KeysOf(rows: seq<Row>): set<RowKey> {
    set row | row in rows :: KeyOf(row)
  }

  /** The rows of one page, kept in order; `added` counts the keys not seen before. */
  method KeepRows(page: seq<RawRow>, address: Account, contract: Account, rows: seq<Row>, seen: set<RowKey>)
      returns (kept: seq<Row>, known: set<RowKey>, added: nat, readable: bool)
    ensures kept == rows + Kept(page, address, contract)
    ensures readable <==> ReadableCount(page) == |page|
    ensures known == seen + KeysOf(Kept(page, address, contract))
    ensures added == |known - seen| && (added == 0 <==> known == seen)
  {
    hide KeysOf;
    kept, known, added := rows, seen, 0;
    ghost var count := ReadableCount(page);
    NoKeys();
    for k := 0 to |page|
      invariant k <= count
      invariant kept == rows + Kept(page[..k], address, contract)
      invariant known == seen + KeysOf(Kept(page[..k], address, contract))
      invariant added == |known - seen| && (added == 0 <==> known == seen)
    {
      if page[k].Unreadable? {
        KeptUpTo(page, address, contract);
        return kept, known, added, false;
      }
      KeptAppend(page, k, address, contract);
      var row := page[k].row;
      assert Kept(page[..k], address, contract) + [] == Kept(page[..k], address, contract);
      if Ours(row, address, contract) {
        OneMoreKey(Kept(page[..k], address, contract), row, seen, known);
        if KeyOf(row) !in known { added := added + 1; }
        known := known + {KeyOf(row)};
        kept := kept + [row];
      }
    }
    assert page[..|page|] == page;
    readable := true;
  }

  lemma NoKeys()
    ensures KeysOf([]) == {}
  {
  }

  lemma OneMoreKey(rows: seq<Row>, row: Row, seen: set<RowKey>, known: set<RowKey>)
    requires known == seen + KeysOf(rows)
    ensures var more := known + {KeyOf(row)};
            && more == seen + KeysOf(rows + [row]) && (KeyOf(row) in known ==> more == known)
            && |more - seen| == |known - seen| + if KeyOf(row) in known then 0 else 1
  {
    var more := known + {KeyOf(row)};
    if KeyOf(row) in known { assert more == known; } else { assert more - seen == (known - seen) + {KeyOf(row)}; }
  }

  // ---- the loop, page by page -------------------------------------------------------------------------------------

  /** A page shown: the query, its answer, and which request it was the reply to. */
  datatype Page = Page(query: Query, rows: seq<RawRow>, next: Option<Token>, asked: nat)

  datatype Status = Going | Finished | Stalled(why: StopReason) | Threw

  /** The loop's variables: the query it asks next, what it has kept, and how it ended. */
  datatype Reading = Reading(query: Query, rows: seq<Row>, seen: set<RowKey>, tokens: set<Token>, status: Status)

  function Begin(fromTs: int, toTs: int): Reading {
    Reading(Query(if fromTs - 1 > 0 then fromTs - 1 else 0, toTs + 1, None), [], {}, {}, Going)
  }

  function AfterPage(pageSize: nat, address: Account, contract: Account, r: Reading, p: Page): Reading {
    var rows := r.rows + Kept(p.rows, address, contract);
    var read := r.(rows := rows, seen := r.seen + KeysOf(Kept(p.rows, address, contract)));
    if ReadableCount(p.rows) < |p.rows| then read.(status := Stalled(PageUnreadable))
    else if p.next.Some? then
      if p.next.value in r.tokens then read.(status := Stalled(TokenRepeated))
      else read.(tokens := r.tokens + {p.next.value}, query := r.query.(token := p.next))
    else if |p.rows| < pageSize then read.(status := Finished)
    else if rows == [] then read.(status := Threw)
    else if read.seen == r.seen then read.(status := Stalled(OneTimestampFillsPage))
    else read.(query := r.query.(minTs := Last(rows).timestamp, token := None))
  }

  function AfterPages(pageSize: nat, address: Account, contract: Account, begin: Reading, shown: seq<Page>): Reading {
    if shown == [] then begin
    else AfterPage(pageSize, address, contract, AfterPages(pageSize, address, contract, begin, shown[..|shown| - 1]),
                   Last(shown))
  }

  /** Each page answers the query that the loop comes to after the pages before it. */
  ghost predicate Asked(pageSize: nat, address: Account, contract: Account, begin: Reading, shown: seq<Page>) {
    shown == [] ||
    var before := AfterPages(pageSize, address, contract, begin, shown[..|shown| - 1]);
    && Asked(pageSize, address, contract, begin, shown[..|shown| - 1])
    && before.status.Going? && Last(shown).query == before.query
  }

  /** The pages are replies of the network to requests numbered from `from` on, in order, before `to`. */
  ghost predicate Answered(w: World, shown: seq<Page>, from: nat, to: nat) {
    && (forall k :: 0 <= k < |shown| ==> AnsweredPage(w, shown[k]) && from <= shown[k].asked < to)
    && (forall j, k :: 0 <= j < k < |shown| ==> shown[j].asked < shown[k].asked)
  }

  ghost predicate AnsweredPage(w: World, p: Page) {
    w.net(GetPage(p.query), p.asked) == Answer(PageBody(p.rows, p.next))
  }

  lemma OneMorePage(pageSize: nat, address: Account, contract: Account, begin: Reading, shown: seq<Page>, p: Page)
    requires Asked(pageSize, address, contract, begin, shown)
    requires var r := AfterPages(pageSize, address, contract, begin, shown); r.status.Going? && p.query == r.query
    ensures Asked(pageSize, address, contract, begin, shown + [p])
    ensures AfterPages(pageSize, address, contract, begin, shown + [p])
         == AfterPage(pageSize, address, contract, AfterPages(pageSize, address, contract, begin, shown), p)
  {
    assert (shown + [p])[..|shown|] == shown;
  }

  lemma NothingShown(w: World, pageSize: nat, address: Account, contract: Account, begin: Reading, from: nat)
    ensures Answered(w, [], from, from) && Asked(pageSize, address, contract, begin, [])
    ensures AfterPages(pageSize, address, contract, begin, []) == begin
  {
  }

  lemma OneMoreAnswer(w: World, shown: seq<Page>, p: Page, from: nat, to: nat, later: nat)
    requires Answered(w, shown, from, to) && to <= later
    ensures Answered(w, shown, from, later)
    ensures AnsweredPage(w, p) && from <= to <= p.asked < later ==> Answered(w, shown + [p], from, later)
  {
  }

  predicate IsPage(r: Reply) {
    r.Answer? && r.body.PageBody?
  }

  /** Why a loop that would go on asks for no further page: no more are allowed, time is out, or none came. */
  ghost predicate StopsAsking(w: World, s: Settings, pages: nat, q: Query, why: StopReason) {
    match why
    case PageLimit => pages >= s.maxPages
    case TimeBudget => pages < s.maxPages && exists k :: w.late(k)
    case PageFailed => pages < s.maxPages && exists n :: !IsPage(w.net(GetPage(q), n))
    case _ => false
  }

  /** How a read ends: as its pages made it, or, while they would let it go on, because no further page was had. */
  ghost predicate Ends(w: World, s: Settings, pages: nat, r: Reading, stopped: Option<StopReason>, threw: bool) {
    match r.status
    case Going => stopped.Some? && !threw && StopsAsking(w, s, pages, r.query, stopped.value)
    case Finished => stopped.None? && !threw
    case Stalled(why) => stopped == Some(why) && !threw
    case Threw => stopped.None? && threw
  }

  // ---- the type error ---------------------------------------------------------------------------------------------

  ghost predicate HasOurs(p: Page, address: Account, contract: Account) {
    exists k :: 0 <= k < |p.rows| && p.rows[k].Readable? && Ours(p.rows[k].row, address, contract)
  }

  /** A full page that reads well and bears no token. */
  ghost predicate Dangling(p: Page, pageSize: nat) {
    p.next.None? && |p.rows| >= pageSize && ReadableCount(p.rows) == |p.rows|
  }

  lemma {:induction false} KeptNone(page: seq<RawRow>, address: Account, contract: Account)
    requires ReadableCount(page) == |page|
    ensures Kept(page, address, contract) == []
            <==> forall k :: 0 <= k < |page| ==> !Ours(page[k].row, address, contract)
  {
    if page != [] {
      KeptNone(page[1..], address, contract);
      assert forall k :: 1 <= k < |page| ==> page[k] == page[1..][k - 1];
    }
  }

  lemma {:induction false} KeptNothing(pageSize: nat, address: Account, contract: Account, begin: Reading,
                                       shown: seq<Page>)
    requires Asked(pageSize, address, contract, begin, shown) && begin.rows == []
    requires shown != [] ==> ReadableCount(Last(shown).rows) == |Last(shown).rows|
    ensures AfterPages(pageSize, address, contract, begin, shown).rows == [] <==>
              forall k :: 0 <= k < |shown| ==> !HasOurs(shown[k], address, contract)
    decreases |shown|
  {
    if shown != [] {
      var rest := shown[..|shown| - 1];
      if rest != [] { assert AfterPages(pageSize, address, contract, begin, rest).status.Going?; }
      KeptNothing(pageSize, address, contract, begin, rest);
      KeptNone(Last(shown).rows, address, contract);
      assert shown == rest + [Last(shown)];
    }
  }

  /**
   * The read throws exactly when the last page shown is full, readable and without a token, and no row of any page
   * shown is of this address and contract.
   */
  lemma ThrowsExactly(pageSize: nat, address: Account, contract: Account, begin: Reading, shown: seq<Page>)
    requires Asked(pageSize, address, contract, begin, shown) && begin.rows == [] && begin.status.Going?
    ensures AfterPages(pageSize, address, contract, begin, shown).status.Threw? <==>
              && shown != [] && Dangling(Last(shown), pageSize)
              && forall k :: 0 <= k < |shown| ==> !HasOurs(shown[k], address, contract)
  {
    if shown != [] && Dangling(Last(shown), pageSize) { KeptNothing(pageSize, address, contract, begin, shown); }
  }

  lemma {:induction false} AskedBefore(pageSize: nat, address: Account, contract: Account, begin: Reading,
                                       shown: seq<Page>, k: nat)
    requires Asked(pageSize, address, contract, begin, shown) && k < |shown|
    ensures var before := AfterPages(pageSize, address, contract, begin, shown[..k]);
            before.status.Going? && shown[k].query == before.query
              && Asked(pageSize, address, contract, begin, shown[..k + 1])
    decreases |shown|
  {
    var rest := shown[..|shown| - 1];
    if k < |rest| {
      AskedBefore(pageSize, address, contract, begin, rest, k);
      assert rest[..k] == shown[..k] && rest[..k + 1] == shown[..k + 1];
    } else {
      assert shown[..k + 1] == shown;
    }
  }

  lemma FirstQuery(pageSize: nat, address: Account, contract: Account, fromTs: int, toTs: int, shown: seq<Page>)
    requires Asked(pageSize, address, contract, Begin(fromTs, toTs), shown)
    ensures shown != [] ==> shown[0].query == Query(if fromTs >= 1 then fromTs - 1 else 0, toTs + 1, None)
  {
    if shown != [] {
      AskedBefore(pageSize, address, contract, Begin(fromTs, toTs), shown, 0);
      assert shown[..0] == [];
    }
  }

  /** Whoever answers the first query with a full page of others' rows and no token. */
  ghost predicate GivesForeignPage(w: World, s: Settings, address: Account, contract: Account, q: Query) {
    forall n :: IsForeignPage(s, address, contract, q, w.net(GetPage(q), n))
  }

  ghost predicate IsForeignPage(s: Settings, address: Account, contract: Account, q: Query, r: Reply) {
    IsPage(r) && Dangling(Page(q, r.body.rows, r.body.next, 0), s.pageSize)
      && !HasOurs(Page(q, r.body.rows, r.body.next, 0), address, contract)
  }

  /** Then every read throws at its first page. */
  lemma ForeignPageThrows(w: World, s: Settings, address: Account, contract: Account, begin: Reading, shown: seq<Page>,
                          from: nat, to: nat, stopped: Option<StopReason>, threw: bool)
    requires s.maxPages >= 1 && (forall k :: !w.late(k)) && GivesForeignPage(w, s, address, contract, begin.query)
    requires begin.rows == [] && begin.status.Going? && Answered(w, shown, from, to)
             && Asked(s.pageSize, address, contract, begin, shown)
    requires Ends(w, s, |shown|, AfterPages(s.pageSize, address, contract, begin, shown), stopped, threw)
    ensures threw && |shown| == 1
  {
    hide AfterPage;
    assert forall n :: IsForeignPage(s, address, contract, begin.query, w.net(GetPage(begin.query), n));
    assert shown != [];
    var first := shown[..1];
    AskedBefore(s.pageSize, address, contract, begin, shown, 0);
    assert shown[..0] == [];
    assert IsForeignPage(s, address, contract, begin.query, w.net(GetPage(begin.query), shown[0].asked));
    assert first[0] == shown[0] && AnsweredPage(w, shown[0]);
    ThrowsExactly(s.pageSize, address, contract, begin, first);
    if |shown| > 1 { AskedBefore(s.pageSize, address, contract, begin, shown, 1); }
    assert |shown| == 1 ==> shown == first;
  }

  /** There is such a network, and it tells nothing but the truth: its index holds a page of rows to someone else. */
  lemma ForeignWorld(s: Settings, address: Account, contract: Account, row: Row) returns (w: World, t: Truth)
    requires s.pageSize >= 1 && row.to != address && row.timestamp >= 1
    ensures HonestWorld(w, s, t) && (forall k :: !w.late(k))
    ensures forall q: Query ::
              q.token.None? && q.minTs <= row.timestamp ==> GivesForeignPage(w, s, address, contract, q)
  {
    var index := seq(s.pageSize, _ => row);
    var page := seq(s.pageSize, _ => Readable(row));
    var chain := [Block(0, [])];
    w := World((r: Request, n: nat) =>
                 if r.GetPage? && r.query.token.None? && r.query.minTs <= row.timestamp
                 then Answer(PageBody(page, None)) else Definite,
               (k: nat) => false);
    t := Truth(chain, index, (k: Token) => 0);
    assert forall minTs :: minTs <= row.timestamp ==> Before(index, minTs) == 0 by {
      forall minTs | minTs <= row.timestamp
        ensures Before(index, minTs) == 0
      {
        assert 0 < Before(index, minTs) <==> index[0].timestamp < minTs;
      }
    }
    AllReadable(page);
  }

  lemma {:induction false} AllReadable(page: seq<RawRow>)
    requires forall k :: 0 <= k < |page| ==> page[k].Readable?
    ensures ReadableCount(page) == |page|
  {
    if page != [] { AllReadable(page[1..]); }
  }

  /** What was kept of pages, page by page. */
  function KeptOf(shown: seq<Page>, address: Account, contract: Account): seq<Row> {
    if shown == [] then []
    else KeptOf(shown[..|shown| - 1], address, contract) + Kept(Last(shown).rows, address, contract)
  }

  lemma {:induction false} RowsAreKept(pageSize: nat, address: Account, contract: Account, begin: Reading,
                                       shown: seq<Page>)
    requires begin.rows == []
    ensures AfterPages(pageSize, address, contract, begin, shown).rows == KeptOf(shown, address, contract)
    decreases |shown|
  {
    if shown != [] { RowsAreKept(pageSize, address, contract, begin, shown[..|shown| - 1]); }
  }

  // ---- how the pages end ------------------------------------------------------------------------------------------

  /** A row like it, in everything the reader tells rows apart by, is among these. */
  ghost predicate LikeOneOf(rows: seq<Row>, row: Row) {
    exists r :: r in rows && r.hash == row.hash && r.from == row.from && r.value == row.value
                && r.timestamp == row.timestamp
  }

  lemma KeyKnown(rows: seq<Row>, row: Row)
    ensures KeyOf(row) in KeysOf(rows) <==> LikeOneOf(rows, row)
  {
    if KeyOf(row) in KeysOf(rows) {
      var r :| r in rows && KeyOf(r) == KeyOf(row);
    }
  }

  lemma NothingNew(rows: seq<Row>, more: seq<Row>)
    ensures KeysOf(rows) + KeysOf(more) == KeysOf(rows) <==> forall row :: row in more ==> LikeOneOf(rows, row)
  {
    forall row | row in more
      ensures KeyOf(row) in KeysOf(rows) <==> LikeOneOf(rows, row)
    {
      KeyKnown(rows, row);
    }
    if KeysOf(rows) + KeysOf(more) == KeysOf(rows) {
      assert forall row :: row in more ==> KeyOf(row) in KeysOf(more);
    }
  }

  lemma KeysOfBoth(rows: seq<Row>, more: seq<Row>)
    ensures KeysOf(rows + more) == KeysOf(rows) + KeysOf(more)
  {
    assert forall row :: row in rows + more <==> row in rows || row in more;
  }

  ghost predicate BoreToken(shown: seq<Page>, token: Token) {
    exists j :: 0 <= j < |shown| && shown[j].next == Some(token)
  }

  /** The loop's state says of the pages what they are: which rows and tokens they bore. */
  lemma {:induction false} StateIs(pageSize: nat, address: Account, contract: Account, fromTs: int, toTs: int,
                                   shown: seq<Page>)
    requires Asked(pageSize, address, contract, Begin(fromTs, toTs), shown)
    ensures var r := AfterPages(pageSize, address, contract, Begin(fromTs, toTs), shown);
            && r.rows == KeptOf(shown, address, contract) && r.seen == KeysOf(KeptOf(shown, address, contract))
            && r.query.maxTs == toTs + 1
            && (r.status.Going? ==> forall t :: t in r.tokens <==> BoreToken(shown, t))
  {
    hide Kept, KeysOf;
    var begin := Begin(fromTs, toTs);
    RowsAreKept(pageSize, address, contract, begin, shown);
    if shown == [] {
      NoKeys();
    } else {
      var rest, p := shown[..|shown| - 1], Last(shown);
      StateIs(pageSize, address, contract, fromTs, toTs, rest);
      KeysOfBoth(KeptOf(rest, address, contract), Kept(p.rows, address, contract));
      assert AfterPages(pageSize, address, contract, begin, rest).status.Going?;
      BoreOneMore(rest, p);
      assert shown == rest + [p];
    }
  }

  lemma BoreOneMore(rest: seq<Page>, p: Page)
    ensures forall t: Token :: BoreToken(rest + [p], t) <==> BoreToken(rest, t) || p.next == Some(t)
  {
    var shown := rest + [p];
    forall t: Token
      ensures BoreToken(shown, t) <==> BoreToken(rest, t) || p.next == Some(t)
    {
      if BoreToken(rest, t) {
        var j :| 0 <= j < |rest| && rest[j].next == Some(t);
        assert shown[j] == rest[j];
      }
      if p.next == Some(t) { assert shown[|rest|] == p; }
    }
  }

  /** What the last page makes of the read, told from the pages shown. */
  ghost function StatusOf(pageSize: nat, address: Account, contract: Account, before: seq<Page>, p: Page): Status {
    var kept, rows := KeptOf(before, address, contract), Kept(p.rows, address, contract);
    if exists k :: 0 <= k < |p.rows| && p.rows[k].Unreadable? then Stalled(PageUnreadable)
    else if p.next.Some? then if BoreToken(before, p.next.value) then Stalled(TokenRepeated) else Going
    else if |p.rows| < pageSize then Finished
    else if kept + rows == [] then Threw
    else if forall row :: row in rows ==> LikeOneOf(kept, row) then Stalled(OneTimestampFillsPage)
    else Going
  }

  /**
   * How each page ends the read or takes it on: it stalls on a row it cannot read, on a token that an earlier page
   * bore, or on a full page without a token that shows nothing new; and it goes on to the token's page, or from the
   * last row's time.
   */
  lemma HowPagesEnd(pageSize: nat, address: Account, contract: Account, fromTs: int, toTs: int, shown: seq<Page>)
    requires shown != [] && Asked(pageSize, address, contract, Begin(fromTs, toTs), shown)
    ensures var r, p := AfterPages(pageSize, address, contract, Begin(fromTs, toTs), shown), Last(shown);
            && r.rows == KeptOf(shown, address, contract)
            && r.status == StatusOf(pageSize, address, contract, shown[..|shown| - 1], p)
            && (r.status.Going? && p.next.Some? ==> r.query == Query(p.query.minTs, toTs + 1, p.next))
            && (r.status.Going? && p.next.None? ==>
                  r.rows != [] && r.query == Query(Last(r.rows).timestamp, toTs + 1, None))
  {
    hide Kept, KeysOf, LikeOneOf;
    var before, p := shown[..|shown| - 1], Last(shown);
    StateIs(pageSize, address, contract, fromTs, toTs, before);
    StateIs(pageSize, address, contract, fromTs, toTs, shown);
    NothingNew(KeptOf(before, address, contract), Kept(p.rows, address, contract));
    assert ReadableCount(p.rows) < |p.rows| <==> exists k :: 0 <= k < |p.rows| && p.rows[k].Unreadable?;
  }

  /** Which rows of a page are kept: those before the first unreadable one, into the address, not of another token. */
  lemma KeptExactly(page: seq<RawRow>, address: Account, contract: Account, row: Row)
    ensures row in Kept(page, address, contract)
       <==> exists i :: 0 <= i < |page| && page[i] == Readable(row) && (forall j :: 0 <= j < i ==> page[j].Readable?)
              && row.to == address && (row.contract.None? || row.contract.value == contract)
  {
    if row in Kept(page, address, contract) { KeptComesFrom(page, address, contract, row); }
    forall i | 0 <= i < |page| && page[i] == Readable(row) && (forall j :: 0 <= j < i ==> page[j].Readable?)
               && row.to == address && (row.contract.None? || row.contract.value == contract)
      ensures row in Kept(page, address, contract)
    {
      KeptContains(page, address, contract, i);
    }
  }

  // ---- coverage -----------------------------------------------------------------------------------------------

  /** Below this time every row is known to have been read. */
  function Reach(rows: seq<Row>, stopped: Option<StopReason>, fromTs: int, toTs: int): int {
    if stopped.None? then toTs + 1 else if rows != [] then Last(rows).timestamp else fromTs
  }

  ghost predicate Covered(index: seq<Row>, address: Account, contract: Account, fromTs: int, reach: int,
                          rows: seq<Row>) {
    forall p ::
        0 <= p < |index| && Ours(index[p], address, contract) && fromTs <= index[p].timestamp < reach ==>
            index[p] in rows
  }

  /**
   * Everything from `fromTs` on before the cursor is in `rows`, and everything from the cursor on is no earlier than
   * the last of them.
   */
  ghost predicate ReadUpTo(index: seq<Row>, address: Account, contract: Account, fromTs: int, cursor: nat,
                           rows: seq<Row>) {
    && cursor <= |index|
    && (forall p ::
          0 <= p < cursor && Ours(index[p], address, contract) && index[p].timestamp >= fromTs ==> index[p] in rows)
    && (rows != [] ==> forall p :: cursor <= p < |index| ==> index[p].timestamp >= Last(rows).timestamp)
    && (forall row :: row in rows ==> row in index && Ours(row, address, contract))
  }

  lemma PageRead(index: seq<Row>, address: Account, contract: Account, fromTs: int, cursor: nat, rows: seq<Row>,
                 page: seq<RawRow>)
    requires Sorted(index) && ReadUpTo(index, address, contract, fromTs, cursor, rows)
    requires cursor + |page| <= |index|
    requires forall k :: 0 <= k < |page| && page[k].Readable? ==> page[k].row == index[cursor + k]
    ensures ReadUpTo(index, address, contract, fromTs, cursor + ReadableCount(page),
                     rows + Kept(page, address, contract))
  {
    hide Kept, ReadableCount, Ours;
    var count, kept := ReadableCount(page), Kept(page, address, contract);
    var more := rows + kept;
    forall p | 0 <= p < cursor + count && Ours(index[p], address, contract) && index[p].timestamp >= fromTs
      ensures index[p] in more
    {
      if p >= cursor { KeptContains(page, address, contract, p - cursor); }
    }
    KeptAreRows(index, address, contract, cursor, page);
    if kept == [] {
      assert more == rows;
    } else {
      assert Last(more) == Last(kept) && Last(kept) in kept;
      var p :| cursor <= p < cursor + count && index[p] == Last(kept);
    }
  }

  lemma KeptAreRows(index: seq<Row>, address: Account, contract: Account, cursor: nat, page: seq<RawRow>)
    requires cursor + |page| <= |index|
    requires forall k :: 0 <= k < |page| && page[k].Readable? ==> page[k].row == index[cursor + k]
    ensures forall row :: row in Kept(page, address, contract) ==>
              Ours(row, address, contract) && exists p :: cursor <= p < cursor + ReadableCount(page) && index[p] == row
  {
    forall row | row in Kept(page, address, contract)
      ensures Ours(row, address, contract) && exists p :: cursor <= p < cursor + ReadableCount(page) && index[p] == row
    {
      KeptComesFrom(page, address, contract, row);
      var i :| 0 <= i < ReadableCount(page) && page[i].row == row && Ours(row, address, contract);
      assert index[cursor + i] == row;
    }
  }

  /** No row from the cursor on is earlier than `maxTs`. */
  ghost predicate EndShown(index: seq<Row>, cursor: nat, maxTs: int) {
    forall p :: cursor <= p < |index| ==> index[p].timestamp >= maxTs
  }

  /** What one honest page adds, and where the next one starts. */
  lemma HonestStep(w: World, s: Settings, t: Truth, n: nat, q: Query, page: seq<RawRow>, next: Option<Token>,
                   address: Account, contract: Account, fromTs: int, cursor: nat, rows: seq<Row>)
    requires HonestWorld(w, s, t) && w.net(GetPage(q), n) == Answer(PageBody(page, next))
    requires StartOf(t.index, t.at, true, q) == cursor && ReadUpTo(t.index, address, contract, fromTs, cursor, rows)
    ensures ReadUpTo(t.index, address, contract, fromTs, cursor + ReadableCount(page),
                     rows + Kept(page, address, contract))
    ensures next.Some? && ReadableCount(page) == |page| ==>
              StartOf(t.index, t.at, true, q.(token := next)) == cursor + |page|
    ensures next.Some? ==> t.at(next.value) == cursor + |page|
    ensures next.None? && |page| < s.pageSize ==> EndShown(t.index, cursor + |page|, q.maxTs)
    ensures page != [] && ReadableCount(page) == |page| && Kept(page, address, contract) == [] ==>
              exists p :: 0 <= p < |t.index| && !Ours(t.index[p], address, contract)
  {
    assert HonestBody(t.chain, t.index, t.at, true, s.pageSize, GetPage(q), w.net(GetPage(q), n).body);
    PageRead(t.index, address, contract, fromTs, cursor, rows, page);
    if page != [] && ReadableCount(page) == |page| && Kept(page, address, contract) == [] {
      assert !Ours(t.index[cursor], address, contract);
    }
  }

  /** Going back to the last timestamp shown skips nothing, because the lower bound is inclusive. */
  lemma RestartKeeps(w: World, s: Settings, t: Truth, address: Account, contract: Account, fromTs: int, cursor: nat,
                     rows: seq<Row>, maxTs: int)
    requires HonestWorld(w, s, t) && ReadUpTo(t.index, address, contract, fromTs, cursor, rows) && rows != []
    ensures ReadUpTo(t.index, address, contract, fromTs, Before(t.index, Last(rows).timestamp), rows)
    ensures StartOf(t.index, t.at, true, Query(Last(rows).timestamp, maxTs, None))
            == Before(t.index, Last(rows).timestamp)
  {
    assert cursor < |t.index| ==> t.index[cursor].timestamp >= Last(rows).timestamp;
  }

  /** Where honest pages have got to: while the loop goes on, to where its next query starts. */
  ghost predicate HonestReading(t: Truth, address: Account, contract: Account, fromTs: int, toTs: int, r: Reading) {
    && r.query.maxTs == toTs + 1
    && (r.status.Going? ==> ReadUpTo(t.index, address, contract, fromTs, StartOf(t.index, t.at, true, r.query), r.rows))
    && (exists cursor ::
          ReadUpTo(t.index, address, contract, fromTs, cursor, r.rows)
          && (r.status.Finished? ==> EndShown(t.index, cursor, toTs + 1)))
  }

  lemma HonestPageKeeps(w: World, s: Settings, t: Truth, address: Account, contract: Account, fromTs: int, toTs: int,
                        r: Reading, p: Page)
    requires HonestWorld(w, s, t) && HonestReading(t, address, contract, fromTs, toTs, r) && r.status.Going?
    requires AnsweredPage(w, p) && p.query == r.query
    ensures HonestReading(t, address, contract, fromTs, toTs, AfterPage(s.pageSize, address, contract, r, p))
  {
    hide HonestWorld, ReadUpTo, Kept, StartOf, Before, EndShown, KeysOf;
    var cursor := StartOf(t.index, t.at, true, r.query);
    HonestStep(w, s, t, p.asked, r.query, p.rows, p.next, address, contract, fromTs, cursor, r.rows);
    var u := AfterPage(s.pageSize, address, contract, r, p);
    if u.status.Going? && p.next.None? {
      RestartKeeps(w, s, t, address, contract, fromTs, cursor + ReadableCount(p.rows), u.rows, u.query.maxTs);
    }
  }

  /** Whatever honest pages are shown, everything before the place the loop has come to is kept. */
  lemma {:induction false} HonestPagesCover(w: World, s: Settings, t: Truth, address: Account, contract: Account,
                                            fromTs: int, toTs: int, shown: seq<Page>, from: nat, to: nat)
    requires HonestWorld(w, s, t) && 0 <= fromTs && Answered(w, shown, from, to)
    requires Asked(s.pageSize, address, contract, Begin(fromTs, toTs), shown)
    ensures HonestReading(t, address, contract, fromTs, toTs,
                          AfterPages(s.pageSize, address, contract, Begin(fromTs, toTs), shown))
    decreases |shown|
  {
    hide HonestWorld, HonestReading, AfterPage;
    if shown == [] {
      BeginCovers(w, s, t, address, contract, fromTs, toTs);
    } else {
      var rest := shown[..|shown| - 1];
      HonestPagesCover(w, s, t, address, contract, fromTs, toTs, rest, from, to);
      assert Last(shown) == shown[|shown| - 1];
      HonestPageKeeps(w, s, t, address, contract, fromTs, toTs,
                      AfterPages(s.pageSize, address, contract, Begin(fromTs, toTs), rest), Last(shown));
    }
  }

  lemma BeginCovers(w: World, s: Settings, t: Truth, address: Account, contract: Account, fromTs: int, toTs: int)
    requires HonestWorld(w, s, t) && 0 <= fromTs
    ensures HonestReading(t, address, contract, fromTs, toTs, Begin(fromTs, toTs))
  {
    var r := Begin(fromTs, toTs);
    assert ReadUpTo(t.index, address, contract, fromTs, StartOf(t.index, t.at, true, r.query), []);
  }

  lemma ReadingCovers(t: Truth, address: Account, contract: Account, fromTs: int, toTs: int, r: Reading,
                      stopped: Option<StopReason>)
    requires HonestReading(t, address, contract, fromTs, toTs, r) && (stopped.None? ==> r.status.Finished?)
    ensures Covered(t.index, address, contract, fromTs, Reach(r.rows, stopped, fromTs, toTs), r.rows)
    ensures forall row :: row in r.rows ==> row in t.index && Ours(row, address, contract)
  {
    hide Ours;
    var cursor :| ReadUpTo(t.index, address, contract, fromTs, cursor, r.rows)
      && (r.status.Finished? ==> EndShown(t.index, cursor, toTs + 1));
  }

  // ---- pages in time ----------------------------------------------------------------------------------------------

  /** How far so many pages take the loop at least. */
  function Advance(s: Settings, overlap: nat, pages: nat): int {
    pages * (s.pageSize - overlap)
  }

  lemma AdvanceOne(s: Settings, overlap: nat, pages: nat)
    ensures Advance(s, overlap, pages + 1) == Advance(s, overlap, pages) + s.pageSize - overlap
            && Advance(s, overlap, 0) == 0
  {
  }

  lemma AdvanceUpTo(s: Settings, overlap: nat, pages: nat)
    requires overlap < s.pageSize && pages >= s.maxPages
    ensures Advance(s, overlap, pages) >= s.maxPages * (s.pageSize - overlap)
  {
    assert (pages - s.maxPages) * (s.pageSize - overlap) >= 0;
  }

  /** Every token seen stands for a place no later than the cursor. */
  ghost predicate AllBehind(at: Token -> nat, tokens: set<Token>, cursor: nat) {
    forall k :: k in tokens ==> at(k) <= cursor
  }

  /** The cursor is past every row before the last one kept, and no key seen is later than that one's time. */
  ghost predicate UpToLast(index: seq<Row>, cursor: nat, rows: seq<Row>, seen: set<RowKey>) {
    if rows == [] then seen == {}
    else Before(index, Last(rows).timestamp) <= cursor && forall k :: k in seen ==> k.3 <= Last(rows).timestamp
  }

  /** A loop that loses no time: it has not stopped, and each page took it on by a page less the overlap. */
  ghost predicate OnPace(s: Settings, t: Truth, overlap: nat, start: nat, pages: nat, r: Reading) {
    && (r.status.Going? || r.status.Finished?)
    && (r.status.Going? ==>
          var cursor := StartOf(t.index, t.at, true, r.query);
          && start + Advance(s, overlap, pages) <= cursor && AllBehind(t.at, r.tokens, cursor)
          && UpToLast(t.index, cursor, r.rows, r.seen))
  }

  /** What was kept up to a place of a sorted index stays within it. */
  lemma {:induction false} StaysUpToLast(index: seq<Row>, address: Account, contract: Account, fromTs: int, cursor: nat,
                                         r: Reading, page: seq<RawRow>)
    requires Sorted(index) && ReadUpTo(index, address, contract, fromTs, cursor, r.rows)
             && UpToLast(index, cursor, r.rows, r.seen)
    requires cursor + |page| <= |index| && ReadableCount(page) == |page|
    requires forall k :: 0 <= k < |page| ==> page[k].row == index[cursor + k]
    ensures var kept := Kept(page, address, contract);
            UpToLast(index, cursor + |page|, r.rows + kept, r.seen + KeysOf(kept))
  {
    hide Ours, Before;
    var kept := Kept(page, address, contract);
    KeptAreRows(index, address, contract, cursor, page);
    if kept != [] {
      var last := Last(kept);
      assert last in kept;
      var p :| cursor <= p < cursor + |page| && index[p] == last;
      BeforeIsUpTo(index, p);
      KeptInOrder(index, address, contract, cursor, page);
      assert Last(r.rows + kept) == last;
      if r.rows != [] { assert last.timestamp >= Last(r.rows).timestamp; }
    }
  }

  lemma BeforeIsUpTo(index: seq<Row>, p: nat)
    requires Sorted(index) && p < |index|
    ensures Before(index, index[p].timestamp) <= p
  {
  }

  /** Kept rows come in the index's order. */
  lemma {:induction false} KeptInOrder(index: seq<Row>, address: Account, contract: Account, cursor: nat,
                                       page: seq<RawRow>)
    requires Sorted(index) && cursor + |page| <= |index| && ReadableCount(page) == |page|
    requires forall k :: 0 <= k < |page| ==> page[k].row == index[cursor + k]
    ensures var kept := Kept(page, address, contract);
            kept != [] ==> forall row :: row in kept ==> row.timestamp <= Last(kept).timestamp
    decreases |page|
  {
    if page != [] {
      assert forall k :: 0 <= k < |page| - 1 ==> page[1..][k] == page[k + 1];
      KeptInOrder(index, address, contract, cursor + 1, page[1..]);
      var rest := Kept(page[1..], address, contract);
      if rest != [] {
        KeptAreRows(index, address, contract, cursor + 1, page[1..]);
        assert Last(rest) in rest;
        assert Last(Kept(page, address, contract)) == Last(rest);
      }
    }
  }

  lemma BeforeGrows(index: seq<Row>, a: int, b: int)
    requires Sorted(index) && a <= b
    ensures Before(index, a) <= Before(index, b)
  {
    var n := Before(index, a);
    assert n > 0 ==> index[n - 1].timestamp < a;
  }

  /** An index of this address and contract alone, with at most `n` rows at one time, is one restarts get on in. */
  lemma OursAloneRestarts(index: seq<Row>, address: Account, contract: Account, n: nat)
    requires Sorted(index) && AtMostAtOnce(index, n) && n >= 1
    requires forall p :: 0 <= p < |index| ==> Ours(index[p], address, contract)
    ensures RestartsWithin(index, address, contract, n)
  {
    hide Ours;
    forall c: nat | n <= c <= |index|
      ensures HasRestart(index, address, contract, n, c)
    {
      var p, b := c - 1, Before(index, index[c - 1].timestamp);
      assert b <= p && index[b].timestamp == index[p].timestamp;
      assert Ours(index[p], address, contract) && c - n <= b;
    }
  }

  lemma PacedPageKeeps(w: World, s: Settings, t: Truth, address: Account, contract: Account, fromTs: int, toTs: int,
                       overlap: nat, start: nat, pages: nat, r: Reading, p: Page)
    requires HonestWorld(w, s, t) && Forthcoming(w, s, t) && Overlaps(w, s, t, address, contract, overlap)
    requires HonestReading(t, address, contract, fromTs, toTs, r) && OnPace(s, t, overlap, start, pages, r)
             && r.status.Going?
    requires AnsweredPage(w, p) && p.query == r.query
    ensures OnPace(s, t, overlap, start, pages + 1, AfterPage(s.pageSize, address, contract, r, p))
  {
    hide HonestWorld, Forthcoming, Overlaps, ReadUpTo, Before, Ours, UpToLast, KeysOf, Kept, Advance, StartOf;
    var cursor := StartOf(t.index, t.at, true, r.query);
    PageFacts(w, s, t, p);
    var page := p.rows;
    StaysUpToLast(t.index, address, contract, fromTs, cursor, r, page);
    AdvanceOne(s, overlap, pages);
    var u := AfterPage(s.pageSize, address, contract, r, p);
    if p.next.Some? {
      TokenPaces(w, s, t, overlap, address, contract, cursor, r, p);
    } else if |page| >= s.pageSize {
      RestartPaces(w, s, t, address, contract, fromTs, overlap, cursor, r, p);
    }
  }

  /** What a page of an honest and forthcoming network is. */
  lemma PageFacts(w: World, s: Settings, t: Truth, p: Page)
    requires HonestWorld(w, s, t) && Forthcoming(w, s, t) && AnsweredPage(w, p)
    ensures var cursor := StartOf(t.index, t.at, true, p.query);
            && Sorted(t.index) && ReadableCount(p.rows) == |p.rows| && cursor + |p.rows| <= |t.index|
            && (forall k :: 0 <= k < |p.rows| ==> p.rows[k].row == t.index[cursor + k])
            && (p.next.Some? ==> |p.rows| >= s.pageSize && t.at(p.next.value) == cursor + |p.rows|)
  {
    assert GivesPage(s, w.net(GetPage(p.query), p.asked));
    assert HonestBody(t.chain, t.index, t.at, true, s.pageSize, GetPage(p.query),
                      w.net(GetPage(p.query), p.asked).body);
  }

  lemma TokenPaces(w: World, s: Settings, t: Truth, overlap: nat, address: Account, contract: Account, cursor: nat,
                   r: Reading, p: Page)
    requires Overlaps(w, s, t, address, contract, overlap) && AllBehind(t.at, r.tokens, cursor)
    requires p.next.Some? && |p.rows| >= s.pageSize && ReadableCount(p.rows) == |p.rows|
             && t.at(p.next.value) == cursor + |p.rows|
    ensures var u := AfterPage(s.pageSize, address, contract, r, p);
            && u.status == r.status && StartOf(t.index, t.at, true, u.query) == cursor + |p.rows|
            && AllBehind(t.at, u.tokens, cursor + |p.rows|)
  {
  }

  lemma RestartPaces(w: World, s: Settings, t: Truth, address: Account, contract: Account, fromTs: int, overlap: nat,
                     cursor: nat, r: Reading, p: Page)
    requires Overlaps(w, s, t, address, contract, overlap) && AnsweredPage(w, p)
    requires Sorted(t.index) && cursor + |p.rows| <= |t.index| && ReadableCount(p.rows) == |p.rows|
    requires forall k :: 0 <= k < |p.rows| ==> p.rows[k].row == t.index[cursor + k]
    requires p.next.None? && |p.rows| >= s.pageSize && r.status.Going?
    requires AllBehind(t.at, r.tokens, cursor) && UpToLast(t.index, cursor, r.rows, r.seen)
    ensures var u := AfterPage(s.pageSize, address, contract, r, p);
            var next := StartOf(t.index, t.at, true, u.query);
            && u.status.Going? && next >= cursor + s.pageSize - overlap && AllBehind(t.at, u.tokens, next)
            && UpToLast(t.index, next, u.rows, u.seen)
  {
    hide Before, Ours, ReadableCount;
    assert !FullPagesBearTokens(w, s) by { assert !BearsTokenIfFull(s, w.net(GetPage(p.query), p.asked)); }
    var kept, c := Kept(p.rows, address, contract), cursor + |p.rows|;
    assert HasRestart(t.index, address, contract, overlap, c);
    var q: nat :| q < c && Ours(t.index[q], address, contract) && c - overlap <= Before(t.index, t.index[q].timestamp);
    BeforeIsUpTo(t.index, q);
    KeptContains(p.rows, address, contract, q - cursor);
    KeptInOrder(t.index, address, contract, cursor, p.rows);
    assert kept != [] && Last(kept) in kept && Last(r.rows + kept) == Last(kept);
    BeforeGrows(t.index, t.index[q].timestamp, Last(kept).timestamp);
    NewKey(t.index, cursor, r, kept, t.index[q].timestamp);
  }

  /** A full page that restarts from its last time shows something new. */
  lemma NewKey(index: seq<Row>, cursor: nat, r: Reading, kept: seq<Row>, ts: int)
    requires Sorted(index) && UpToLast(index, cursor, r.rows, r.seen) && cursor < Before(index, ts)
    requires kept != [] && ts <= Last(kept).timestamp
    ensures r.seen + KeysOf(kept) != r.seen
    ensures r.rows != [] ==> Last(r.rows).timestamp < Last(kept).timestamp
  {
    if r.rows != [] && ts <= Last(r.rows).timestamp { BeforeGrows(index, ts, Last(r.rows).timestamp); }
    assert Last(kept) in kept;
    assert KeyOf(Last(kept)) in KeysOf(kept);
  }

  /** Shown pages that are honest and forthcoming never stop the loop, and fit in the pages allowed. */
  lemma {:induction false} PagesKeepPace(w: World, s: Settings, t: Truth, address: Account, contract: Account,
                                         fromTs: int, toTs: int, overlap: nat, shown: seq<Page>, from: nat, to: nat)
    requires HonestWorld(w, s, t) && Forthcoming(w, s, t) && Overlaps(w, s, t, address, contract, overlap)
             && 0 <= fromTs
    requires Answered(w, shown, from, to) && Asked(s.pageSize, address, contract, Begin(fromTs, toTs), shown)
    ensures OnPace(s, t, overlap, Before(t.index, Begin(fromTs, toTs).query.minTs), |shown|,
                   AfterPages(s.pageSize, address, contract, Begin(fromTs, toTs), shown))
    decreases |shown|
  {
    hide HonestWorld, Forthcoming, Overlaps, OnPace, AfterPage, HonestReading;
    var begin := Begin(fromTs, toTs);
    var start := Before(t.index, begin.query.minTs);
    if shown == [] {
      BeginsOnPace(s, t, overlap, fromTs, toTs);
    } else {
      var rest := shown[..|shown| - 1];
      PagesKeepPace(w, s, t, address, contract, fromTs, toTs, overlap, rest, from, to);
      HonestPagesCover(w, s, t, address, contract, fromTs, toTs, rest, from, to);
      assert Last(shown) == shown[|shown| - 1];
      PacedPageKeeps(w, s, t, address, contract, fromTs, toTs, overlap, start, |rest|,
                     AfterPages(s.pageSize, address, contract, begin, rest), Last(shown));
    }
  }

  lemma BeginsOnPace(s: Settings, t: Truth, overlap: nat, fromTs: int, toTs: int)
    ensures OnPace(s, t, overlap, Before(t.index, Begin(fromTs, toTs).query.minTs), 0, Begin(fromTs, toTs))
  {
    AdvanceOne(s, overlap, 0);
  }

  /** While the loop goes on there is room for another page. */
  lemma RoomLeft(s: Settings, t: Truth, address: Account, contract: Account, fromTs: int, toTs: int, overlap: nat,
                 pages: nat, r: Reading)
    requires OnPace(s, t, overlap, Before(t.index, Begin(fromTs, toTs).query.minTs), pages, r) && r.status.Going?
    requires HonestReading(t, address, contract, fromTs, toTs, r)
    requires overlap < s.pageSize && Fits(s, t.index, Begin(fromTs, toTs).query.minTs, overlap)
    ensures pages < s.maxPages
  {
    if pages >= s.maxPages { AdvanceUpTo(s, overlap, pages); }
  }
}
