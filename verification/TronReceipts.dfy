/**
 * The receipts of a window read as packages/adapters/src/tron.ts fetches them: by several workers at once, whose calls
 * make their requests in any interleaving.
 */
module TronReceipts {
  import opened Sequences
  import opened TronChain
  import opened TronNetwork
  import opened TronPages
  import opened TronReader
  import opened TronWindow
  import MapBounded

  /** What one call for a receipt does, whoever else asks in between: its requests by their numbers, and its answer. */
  ghost predicate IsCall(w: World, s: Settings, h: Hash, numbers: seq<nat>, body: Option<Body>) {
    && 0 < |numbers| <= s.retries + 2
    && (forall i :: 0 <= i < |numbers| - 1 ==>
          w.net(GetInfo(h), numbers[i]).Transient? || w.net(GetInfo(h), numbers[i]).RateLimited?)
    && var last := w.net(GetInfo(h), Last(numbers));
       body == if last.Answer? then Some(last.body) else None
  }

  function Members(numbers: seq<nat>): set<nat> {
    set n | n in numbers
  }

  /** The requests of all calls. */
  function NumbersOf(calls: seq<seq<nat>>): set<nat> {
    set k, n | 0 <= k < |calls| && n in calls[k] :: n
  }

  /** One call a transaction; each request numbered from `first` on before `after` is made by one of them. */
  ghost predicate Interleaved(w: World, s: Settings, hashes: seq<Hash>, calls: seq<seq<nat>>, bodies: seq<Option<Body>>,
                              first: nat, after: nat) {
    && |calls| == |bodies| == |hashes|
    && (forall k :: 0 <= k < |hashes| ==> IsCall(w, s, hashes[k], calls[k], bodies[k]))
    && (forall n: nat :: first <= n < after ==> n in NumbersOf(calls))
  }

  /** What a worker makes of its call's answer. */
  function Judgement(h: Hash, listed: seq<Row>, body: Option<Body>, address: Account, contract: Account): Resolved
    requires listed != []
  {
    var e := if body.Some? && body.value.InfoBody? then Some(ParseTransactionInfo(body.value.info, h)) else None;
    Verdict(h, listed, e, address, contract)
  }

  lemma {:induction false} FewNumbers(calls: seq<seq<nat>>, each: nat)
    requires forall k :: 0 <= k < |calls| ==> |calls[k]| <= each
    ensures |NumbersOf(calls)| <= |calls| * each
  {
    if calls == [] {
      assert NumbersOf(calls) == {};
    } else {
      var n := |calls| - 1;
      var rest, last := NumbersOf(calls[..n]), Members(calls[n]);
      FewNumbers(calls[..n], each);
      AtMostItsLength(calls[n]);
      assert NumbersOf(calls) == rest + last;
      OneMore(n, each);
      assert |calls[..n]| == n && |last| <= each;
    }
  }

  lemma OneMore(n: nat, each: nat)
    ensures (n + 1) * each == n * each + each
  {
  }

  lemma {:induction false} AtMostItsLength(s: seq<nat>)
    ensures |Members(s)| <= |s|
  {
    if s == [] {
      assert Members(s) == {};
    } else {
      var rest := Members(s[1..]);
      AtMostItsLength(s[1..]);
      assert s == [s[0]] + s[1..];
      assert Members(s) == rest + {s[0]};
    }
  }

  lemma {:induction false} AsManyAs(first: nat, after: nat, numbers: set<nat>)
    requires first <= after && forall n: nat :: first <= n < after ==> n in numbers
    ensures after - first <= |numbers|
    decreases after
  {
    if first < after { AsManyAs(first, after - 1, numbers - {after - 1}); }
  }

  /** However the workers' requests interleave, there are no more than if the receipts were read one by one. */
  lemma InterleavedRequests(w: World, s: Settings, hashes: seq<Hash>, calls: seq<seq<nat>>, bodies: seq<Option<Body>>,
                            first: nat, after: nat)
    requires Interleaved(w, s, hashes, calls, bodies, first, after) && first <= after
    ensures after - first <= Budget(s, |hashes|)
  {
    FewNumbers(calls, s.retries + 2);
    AsManyAs(first, after, NumbersOf(calls));
  }

  /** The rows of each transaction, as they are grouped. */
  ghost predicate Grouped(rows: seq<Row>, hashes: seq<Hash>, byTx: map<Hash, seq<Row>>) {
    && Distinct(hashes) && (forall h :: h in hashes <==> h in byTx)
    && (forall h :: h in byTx ==> byTx[h] == RowsFor(rows, h) && byTx[h] != [])
    && forall row :: row in rows ==> row.hash in byTx
  }

  /** What a finished pool leaves in its output: each transaction's judgement, in the order of the transactions. */
  ghost predicate Judges(hashes: seq<Hash>, byTx: map<Hash, seq<Row>>, bodies: seq<Option<Body>>, q: WindowQuery,
                         fn: Hash -> Resolved) {
    |bodies| == |hashes| && forall k :: 0 <= k < |hashes| && hashes[k] in byTx && byTx[hashes[k]] != [] ==>
      fn(hashes[k]) == Judgement(hashes[k], byTx[hashes[k]], bodies[k], q.address, q.contract)
  }

  lemma JudgementIs(h: Hash, listed: seq<Row>, body: Option<Body>, address: Account, contract: Account)
    requires listed != []
    ensures Judgement(h, listed, body, address, contract).hash == h
    ensures Judgement(h, listed, body, address, contract).firstTs == FirstTs(listed)
  {
    hide ParseTransactionInfo, FirstTs;
  }

  lemma AnsweredJudgement(w: World, s: Settings, t: Truth, h: Hash, numbers: seq<nat>, listed: seq<Row>,
                          body: Option<Body>, address: Account, contract: Account)
    requires IsCall(w, s, h, numbers, body) && HonestWorld(w, s, t) && address < ACCOUNTS && listed != []
    ensures Exact(t.chain, contract, address, Judgement(h, listed, body, address, contract))
    ensures Forthcoming(w, s, t) && AllTrue(t.chain, listed, h, address, contract) ==>
              Judgement(h, listed, body, address, contract).Proven?
  {
    hide HonestWorld, Forthcoming, Exact, AllTrue, Verdict, ParseTransactionInfo;
    HonestVerdict(w, s, t, Last(numbers), h, listed, body, address, contract);
    if Forthcoming(w, s, t) && AllTrue(t.chain, listed, h, address, contract) {
      ForthcomingVerdict(w, s, t, Last(numbers), h, listed, body, address, contract);
    }
  }

  /**
   * So the window that workers come to, in any interleaving of their steps and of their requests, is as sound as one
   * read in sequence, and complete in the same cases.
   */
  lemma InterleavedWindow(w: World, s: Settings, t: Truth, q: WindowQuery, fromTs: int, toTs: int, rows: seq<Row>,
                          stopped: Option<StopReason>, hashes: seq<Hash>, byTx: map<Hash, seq<Row>>,
                          calls: seq<seq<nat>>, bodies: seq<Option<Body>>, first: nat, after: nat,
                          fn: Hash -> Resolved, workers: int, run: seq<MapBounded.State<Resolved>>,
                          steps: seq<MapBounded.Step>, resolved: seq<Resolved>, through: int, r: Window)
    requires Grouped(rows, hashes, byTx) && Interleaved(w, s, hashes, calls, bodies, first, after)
    requires Judges(hashes, byTx, bodies, q, fn) && MapBounded.Run(hashes, fn, workers, run, steps)
    requires forall x :: 0 <= x < |Last(run).workers| ==> Last(run).workers[x].Returned?
    requires Last(run).out == seq(|resolved|, k requires 0 <= k < |resolved| => Some(resolved[k]))
    requires var limit := if stopped.Some? then Some(Reach(rows, stopped, fromTs, toTs)) else None;
             Concluded(q, limit, resolved, through, r)
    requires HonestWorld(w, s, t) && q.address < ACCOUNTS && Lists(t.index, t.chain, q.address, q.contract)
    requires Edges(t, q, fromTs, toTs)
    requires Covered(t.index, q.address, q.contract, fromTs, Reach(rows, stopped, fromTs, toTs), rows)
    ensures Sound(t.chain, q, r)
    ensures Forthcoming(w, s, t) && TrueIndex(t, q) && stopped.None?
            && (forall row :: row in rows ==> row in t.index && Ours(row, q.address, q.contract))
            ==> r.complete
  {
    hide HonestWorld, Forthcoming, TrueIndex, AllTrue, Lists, Sound, Covered, AllExact, Judged, Concluded, Edges, Exact,
         ValidChain, RowsFor, FirstTs, Reach, Ours, IsCall, Judgement, MapBounded.Run;
    PoolEnds(hashes, fn, workers, run, steps, resolved);
    forall k | 0 <= k < |hashes|
      ensures resolved[k].hash == hashes[k] && resolved[k].firstTs == FirstTs(byTx[hashes[k]])
      ensures Exact(t.chain, q.contract, q.address, resolved[k])
      ensures Forthcoming(w, s, t) && AllTrue(t.chain, byTx[hashes[k]], hashes[k], q.address, q.contract) ==>
                resolved[k].Proven?
    {
      var h := hashes[k];
      assert h in hashes;
      JudgementIs(h, byTx[h], bodies[k], q.address, q.contract);
      AnsweredJudgement(w, s, t, h, calls[k], byTx[h], bodies[k], q.address, q.contract);
    }
    GroupsAreJudged(rows, hashes, byTx, resolved);
    HonestFacts(w, s, t, q, resolved);
    var limit := if stopped.Some? then Some(Reach(rows, stopped, fromTs, toTs)) else None;
    WindowIsSound(t, q, fromTs, toTs, rows, stopped, limit, resolved, through, r);
    if TrueIndex(t, q) && forall row :: row in rows ==> row in t.index && Ours(row, q.address, q.contract) {
      GroupsAreTrue(t, q, rows, hashes, byTx);
      CompleteIs(q, limit, resolved, through, r);
    }
  }

  lemma CompleteIs(q: WindowQuery, limit: Option<int>, resolved: seq<Resolved>, through: int, w: Window)
    requires Concluded(q, limit, resolved, through, w)
    ensures w.complete <==> limit.None? && forall k :: 0 <= k < |resolved| ==> resolved[k].Proven?
  {
  }

  /** What the pool returns is the judgement of each transaction. */
  lemma PoolEnds(hashes: seq<Hash>, fn: Hash -> Resolved, workers: int, run: seq<MapBounded.State<Resolved>>,
                 steps: seq<MapBounded.Step>, resolved: seq<Resolved>)
    requires MapBounded.Run(hashes, fn, workers, run, steps)
    requires forall x :: 0 <= x < |Last(run).workers| ==> Last(run).workers[x].Returned?
    requires Last(run).out == seq(|resolved|, k requires 0 <= k < |resolved| => Some(resolved[k]))
    ensures |resolved| == |hashes| && forall k :: 0 <= k < |hashes| ==> resolved[k] == fn(hashes[k])
  {
    MapBounded.EndsWithTheMap(hashes, fn, workers, run, steps, |run| - 1);
    assert forall k :: 0 <= k < |resolved| ==> Last(run).out[k] == Some(resolved[k]);
  }
}
