/**
 * The provider of packages/adapters/src/tron.ts as it asks the network: bounded retry, cached block times, and every
 * page of an account's history.
 */
module TronReader {
  import opened Sequences
  import opened TronChain
  import opened TronNetwork
  import opened TronPages

  // ---- the provider -------------------------------------------------------------------------------------------

  /** The most requests that `calls` calls can make, retries included. */
  function Budget(s: Settings, calls: nat): nat {
    (s.retries + 2) * calls
  }

  lemma OneMoreCall(s: Settings, calls: nat, most: nat)
    requires calls < most
    ensures Budget(s, calls) + (s.retries + 2) == Budget(s, calls + 1) <= Budget(s, most)
  {
    var left := most - calls - 1;
    assert (s.retries + 2) * left >= 0;
    assert (s.retries + 2) * most == (s.retries + 2) * (calls + 1) + (s.retries + 2) * left;
  }

  lemma NoCalls(s: Settings)
    ensures Budget(s, 0) == 0
  {
  }

  /** How many more requests a call may make after the first, when it fails like this. */
  ghost function Attempts(s: Settings, reply: Reply): nat {
    if reply.Transient? then s.retries else if reply.RateLimited? then s.retries + 1 else 0
  }

  class HttpProvider {
    const world: World
    const settings: Settings
    /** Requests made and clock readings taken so far. */
    var requests: nat
    var ticks: nat
    /** Block times already read, oldest first; at most 256 are kept. */
    var blockTimes: seq<(int, int)>

    constructor (world: World, settings: Settings)
      ensures this.world == world && this.settings == settings && requests == 0 && blockTimes == []
    {
      this.world, this.settings := world, settings;
      requests, ticks, blockTimes := 0, 0, [];
    }

    method Late() returns (late: bool)
      modifies this`ticks
      ensures late == world.late(old(ticks)) && ticks == old(ticks) + 1
    {
      late := world.late(ticks);
      ticks := ticks + 1;
    }

    /**
     * Bounded retry: only transient failures are asked again, a rate limit once more than others, and what comes back
     * is the last reply, so a definite answer is never retried into another.
     */
    method Call(r: Request, timed: bool) returns (b: Option<Body>)
      modifies this`requests, this`ticks
      ensures old(requests) < requests <= old(requests) + settings.retries + 2
      ensures var last := world.net(r, requests - 1); b == if last.Answer? then Some(last.body) else None
      ensures forall n ::
                old(requests) <= n < requests - 1 ==> world.net(r, n).Transient? || world.net(r, n).RateLimited?
      // Each of these left an attempt; the last did not, or had no time for one.
      ensures forall n :: old(requests) <= n < requests - 1 ==>
                n - old(requests) < Attempts(settings, world.net(r, n))
      ensures b.None? && !(timed && exists k :: old(ticks) <= k < ticks && world.late(k)) ==>
                requests - 1 - old(requests) >= Attempts(settings, world.net(r, requests - 1))
      ensures !timed ==> ticks == old(ticks)
    {
      var attempt := 0;
      while true
        invariant attempt <= settings.retries + 1 && requests == old(requests) + attempt
        invariant forall n ::
                    old(requests) <= n < requests ==> world.net(r, n).Transient? || world.net(r, n).RateLimited?
        invariant forall n :: old(requests) <= n < requests ==> n - old(requests) < Attempts(settings, world.net(r, n))
        invariant old(ticks) <= ticks && (!timed ==> ticks == old(ticks))
        decreases settings.retries + 2 - attempt
      {
        requests := requests + 1;
        var reply := world.net(r, requests - 1);
        if reply.Answer? { return Some(reply.body); }
        if reply.Definite? || attempt >= settings.retries + (if reply.RateLimited? then 1 else 0) { return None; }
        if timed {
          var late := Late();
          if late { return None; }
        }
        attempt := attempt + 1;
      }
    }

    /** Every cached block time is the chain's. */
    ghost predicate CacheTrue(chain: Chain)
      reads this`blockTimes
    {
      forall k ::
          0 <= k < |blockTimes| ==> 0 <= blockTimes[k].0 < |chain| && blockTimes[k].1 == chain[blockTimes[k].0].time
    }

    method BlockTimestamp(block: int, ghost t: Truth) returns (time: Option<int>)
      modifies this
      ensures old(requests) <= requests <= old(requests) + settings.retries + 2
      // A time read before is not asked for again; one read now is kept, and of 256 the oldest makes room for it.
      ensures (exists k :: 0 <= k < |old(blockTimes)| && old(blockTimes)[k].0 == block) ==>
                requests == old(requests) && time.Some? && (block, time.value) in old(blockTimes)
      ensures blockTimes == if time.None? || requests == old(requests) then old(blockTimes)
                            else (if |old(blockTimes)| >= 256 then old(blockTimes)[1..] else old(blockTimes))
                                 + [(block, time.value)]
      ensures requests > old(requests) && time.Some? ==>
                world.net(GetBlock(block), requests - 1) == Answer(BlockBody(block, time.value)) && time.value >= 1
      ensures HonestWorld(world, settings, t) && old(CacheTrue(t.chain)) ==>
                CacheTrue(t.chain) && (time.Some? ==> 0 <= block < |t.chain| && time.value == t.chain[block].time)
      ensures Forthcoming(world, settings, t) && 0 <= block < |t.chain| && t.chain[block].time >= 1 ==> time.Some?
    {
      var k := 0;
      while k < |blockTimes|
        invariant k <= |blockTimes| && forall j :: 0 <= j < k ==> blockTimes[j].0 != block
      {
        if blockTimes[k].0 == block { return Some(blockTimes[k].1); }
        k := k + 1;
      }
      var body := Call(GetBlock(block), true);
      if body.None? || !body.value.BlockBody? || body.value.number != block || body.value.time < 1 { return None; }
      if HonestWorld(world, settings, t) {
        assert HonestBody(t.chain, t.index, t.at, true, settings.pageSize, GetBlock(block), body.value);
      }
      if |blockTimes| >= 256 { blockTimes := blockTimes[1..]; }
      blockTimes := blockTimes + [(block, body.value.time)];
      time := Some(body.value.time);
    }

    /** The next page, if there is still room and time for one and it comes; the stop reason otherwise. */
    method NextPage(pages: nat, q: Query)
        returns (stopped: Option<StopReason>, page: seq<RawRow>, next: Option<Token>, ghost asked: nat)
      modifies this`requests, this`ticks
      ensures old(requests) <= requests <= old(requests) + settings.retries + 2
      ensures stopped.None? ==>
                AnsweredPage(world, Page(q, page, next, asked)) && pages < settings.maxPages
                && old(requests) <= asked < requests
      ensures stopped.Some? ==>
                StopsAsking(world, settings, pages, q, stopped.value)
                && (pages >= settings.maxPages ==> requests == old(requests))
    {
      stopped, page, next, asked := None, [], None, 0;
      if pages >= settings.maxPages { return Some(PageLimit), [], None, 0; }
      var late := Late();
      if late { return Some(TimeBudget), [], None, 0; }
      var body := Call(GetPage(q), true);
      asked := requests - 1;
      if body.None? || !body.value.PageBody? {
        assert !IsPage(world.net(GetPage(q), asked));
        return Some(PageFailed), [], None, 0;
      }
      page, next := body.value.rows, body.value.next;
    }

    /**
     * Every page of the history. `threw` is the type error of a full page without a token before any row was kept:
     * the read then ends without a result. `shown` are the pages that came.
     */
    method ReadPages(address: Account, contract: Account, fromTs: int, toTs: int)
        returns (rows: seq<Row>, pages: nat, stopped: Option<StopReason>, threw: bool, ghost shown: seq<Page>)
      modifies this`requests, this`ticks
      ensures pages == |shown| <= settings.maxPages
      ensures old(requests) <= requests <= old(requests) + Budget(settings, settings.maxPages)
      // The pages are what the network answered in this read, each to the query the pages before it lead to.
      ensures Answered(world, shown, old(requests), requests)
      ensures Asked(settings.pageSize, address, contract, Begin(fromTs, toTs), shown)
      // The first asks for all from a millisecond before the window to a millisecond after it, but no earlier than 0.
      ensures shown != [] ==> shown[0].query == Query(if fromTs >= 1 then fromTs - 1 else 0, toTs + 1, None)
      // And the read is what the loop makes of them.
      ensures var r := AfterPages(settings.pageSize, address, contract, Begin(fromTs, toTs), shown);
              rows == r.rows && Ends(world, settings, pages, r, stopped, threw)
    {
      hide Kept, ReadableCount, KeysOf, Budget, Ours, Answered, Asked, AfterPages, StopsAsking, AnsweredPage;
      rows, pages, stopped, threw, shown := [], 0, None, false, [];
      var minTs := if fromTs - 1 > 0 then fromTs - 1 else 0;
      var maxTs := toTs + 1;
      var seen: set<RowKey> := {};
      var tokens: set<Token> := {};
      var token: Option<Token> := None;
      ghost var r := Begin(fromTs, toTs);
      NoCalls(settings);
      NothingShown(world, settings.pageSize, address, contract, r, requests);
      while true
        invariant pages == |shown| <= settings.maxPages && stopped.None? && !threw
        invariant old(requests) <= requests <= old(requests) + Budget(settings, pages)
        invariant Answered(world, shown, old(requests), requests)
        invariant Asked(settings.pageSize, address, contract, Begin(fromTs, toTs), shown)
        invariant r == AfterPages(settings.pageSize, address, contract, Begin(fromTs, toTs), shown)
        invariant r == Reading(Query(minTs, maxTs, token), rows, seen, tokens, Going)
        decreases settings.maxPages - pages
      {
        if pages < settings.maxPages { OneMoreCall(settings, pages, settings.maxPages); }
        var page, next;
        ghost var asked;
        ghost var before := requests;
        stopped, page, next, asked := NextPage(pages, Query(minTs, maxTs, token));
        ghost var p := Page(Query(minTs, maxTs, token), page, next, asked);
        OneMoreAnswer(world, shown, p, old(requests), before, requests);
        if stopped.Some? { break; }
        pages := pages + 1;
        OneMorePage(settings.pageSize, address, contract, Begin(fromTs, toTs), shown, p);
        shown := shown + [p];
        r := AfterPage(settings.pageSize, address, contract, r, p);
        var added, readable;
        rows, seen, added, readable := KeepRows(page, address, contract, rows, seen);
        if !readable { stopped := Some(PageUnreadable); break; }
        if next.Some? {
          if next.value in tokens { stopped := Some(TokenRepeated); break; }
          tokens := tokens + {next.value};
          token := next;
          continue;
        }
        if |page| < settings.pageSize { break; }
        if rows == [] {
          threw := true;
          break;
        }
        if added == 0 { stopped := Some(OneTimestampFillsPage); break; }
        minTs := Last(rows).timestamp;
        token := None;
      }
      FirstQuery(settings.pageSize, address, contract, fromTs, toTs, shown);
    }
  }
}
