/**
 * Whether a signed transaction landed or never can: `outcome` and `proveExpired` of
 * packages/adapters/src/tron-send.ts, over a chain that grows while the gateways are asked.
 */
module TronSend {
  import opened Sequences
  import opened Hex

  type TxId = nat

  // ---- answers ------------------------------------------------------------------------------------------------

  datatype Facts = Facts(blockNumber: int, success: bool, result: string, feeSun: int,
                         blockTime: int, energyUsed: int, energyFeeSun: int, netFeeSun: int)

  datatype Outcome = NoAnswer | Final(facts: Facts) | Pending | NotFound

  /** One gateway's answers: `headTime` is absent when it did not report its solidified head. */
  datatype Answers = Answers(name: string, group: string, headTime: Option<int>, out: Outcome)

  datatype Expiry = Proved(names: seq<string>) | NotProved(gateway: nat)

  datatype Combined =
    | CombinedFinal(facts: Facts, agreedBy: seq<string>, agreedGroups: seq<string>, unavailable: seq<string>)
    | CombinedPending(seenBy: seq<string>)
    | CombinedNotFound
    | CombinedConflict
    | CombinedUnknown

  predicate Dead(a: Answers, expiration: int, marginMs: int) {
    a.headTime.Some? && a.out.NotFound? && a.headTime.value > expiration + marginMs
  }

  function NamesOf(answers: seq<Answers>): seq<string> {
    seq(|answers|, i requires 0 <= i < |answers| => answers[i].name)
  }

  /** The loop over the answers, left at the first gateway that does not bear the proof out. */
  method ProveExpired(answers: seq<Answers>, expiration: int, marginMs: int) returns (r: Expiry)
    ensures r.Proved? <==> forall i :: 0 <= i < |answers| ==>
                             && answers[i].headTime.Some? && answers[i].headTime.value > expiration + marginMs
                             && answers[i].out.NotFound?
    ensures r.Proved? ==> r.names == NamesOf(answers)
    ensures r.NotProved? ==> r.gateway < |answers| && !Dead(answers[r.gateway], expiration, marginMs)
    ensures r.NotProved? ==> forall i :: 0 <= i < r.gateway ==> Dead(answers[i], expiration, marginMs)
  {
    for k := 0 to |answers|
      invariant forall i :: 0 <= i < k ==> Dead(answers[i], expiration, marginMs)
    {
      if answers[k].headTime.None? { return NotProved(k); }
      if answers[k].out.NoAnswer? { return NotProved(k); }
      if !answers[k].out.NotFound? { return NotProved(k); }
      if answers[k].headTime.value <= expiration + marginMs { return NotProved(k); }
    }
    r := Proved(NamesOf(answers));
  }

  // ---- the chain and who sees what of it ------------------------------------------------------------------------

  datatype Block = Block(time: int, txs: set<TxId>)

  /** What one gateway knows: how much of the solidified chain, and what it holds on top of that. */
  datatype View = View(known: nat, tail: seq<Block>)

  /** `solid` is the part of the chain that can no longer change. */
  datatype State = State(solid: seq<Block>, views: seq<View>)

  /** Times strictly increase, and the transaction is only in blocks before its expiration. */
  ghost predicate ValidChain(chain: seq<Block>, tx: TxId, expiration: int) {
    && (forall i, j :: 0 <= i < j < |chain| ==> chain[i].time < chain[j].time)
    && (forall i :: 0 <= i < |chain| && tx in chain[i].txs ==> chain[i].time < expiration)
  }

  ghost predicate ValidState(s: State, tx: TxId, expiration: int) {
    && ValidChain(s.solid, tx, expiration)
    && forall g ::
        0 <= g < |s.views| ==>
            s.views[g].known <= |s.solid| && ValidChain(s.solid[..s.views[g].known] + s.views[g].tail, tx, expiration)
  }

  /**
   * The solidified chain only grows, and so does every gateway's knowledge of it; what is above may be reorganized
   * away.
   */
  ghost predicate Next(a: State, b: State) {
    && a.solid <= b.solid && |a.views| == |b.views|
    && forall g :: 0 <= g < |a.views| ==> a.views[g].known <= b.views[g].known
  }

  ghost predicate Run(run: seq<State>, tx: TxId, expiration: int) {
    && run != []
    && (forall k :: 0 <= k < |run| ==> ValidState(run[k], tx, expiration))
    && (forall j, k :: 0 <= j && k == j + 1 && k < |run| ==> Next(run[j], run[k]))
  }

  ghost predicate Contains(chain: seq<Block>, tx: TxId) {
    exists i :: 0 <= i < |chain| && tx in chain[i].txs
  }

  /** The head a gateway truly reports in a state, if it reports one. */
  ghost predicate HonestHead(s: State, g: nat, headTime: Option<int>) {
    g < |s.views|
      && (headTime.Some? ==> 0 < s.views[g].known <= |s.solid| && headTime.value == s.solid[s.views[g].known - 1].time)
  }

  /**
   * The outcome a gateway truly reports when it looks among its solidified blocks first and, later, at its whole
   * chain; it may fail to answer.
   */
  ghost predicate HonestOutcome(early: State, late: State, g: nat, tx: TxId, out: Outcome) {
    && g < |early.views| && g < |late.views| && early.views[g].known <= |early.solid|
    && late.views[g].known <= |late.solid|
    && match out {
      case NoAnswer => true
      case Final(_) => Contains(early.solid[..early.views[g].known], tx)
      case Pending => !Contains(early.solid[..early.views[g].known], tx)
        && Contains(late.solid[..late.views[g].known] + late.views[g].tail, tx)
      case NotFound => !Contains(early.solid[..early.views[g].known], tx)
        && !Contains(late.solid[..late.views[g].known] + late.views[g].tail, tx)
    }
  }

  /** Gateway `g` answered honestly at these moments of the run: its head, then the two looks of the outcome. */
  ghost predicate HonestAt(run: seq<State>, g: nat, tx: TxId, a: Answers, head: nat, first: nat, second: nat) {
    && head < |run| && first <= second < |run|
    && HonestHead(run[head], g, a.headTime) && HonestOutcome(run[first], run[second], g, tx, a.out)
  }

  lemma {:induction false} RunGrows(run: seq<State>, tx: TxId, expiration: int, j: nat, k: nat)
    requires Run(run, tx, expiration) && j <= k < |run|
    ensures Next(run[j], run[k])
    decreases k
  {
    if j < k {
      RunGrows(run, tx, expiration, j, k - 1);
      assert Next(run[k - 1], run[k]);
    }
  }

  // ---- the proof of expiry is sound -------------------------------------------------------------------------------

  /** The margin below which a block after the head could still be early enough to hold the transaction. */
  const LEAST_MARGIN := -2

  /**
   * One honest gateway among any others is enough, because it is asked for its head before it is asked for the
   * transaction: the blocks up to that head do not hold it, and no block after it can.
   */
  lemma ProvedIsDead(run: seq<State>, g: nat, tx: TxId, expiration: int, marginMs: int, answers: seq<Answers>,
                     a: Answers, head: nat, first: nat, second: nat, k: nat)
    requires Run(run, tx, expiration) && marginMs >= LEAST_MARGIN && k < |run|
    requires a in answers && HonestAt(run, g, tx, a, head, first, second) && head <= first
    requires forall i :: 0 <= i < |answers| ==> Dead(answers[i], expiration, marginMs)
    ensures !Contains(run[k].solid, tx)
  {
    var last := |run| - 1;
    RunGrows(run, tx, expiration, k, last);
    RunGrows(run, tx, expiration, head, first);
    RunGrows(run, tx, expiration, first, last);
    RunGrows(run, tx, expiration, head, last);
    var solid, top := run[last].solid, run[head].views[g].known;
    assert Dead(a, expiration, marginMs);
    assert run[head].solid[top - 1] == solid[top - 1];
    var seen := run[first].solid[..run[first].views[g].known];
    forall i | 0 <= i < |run[k].solid|
      ensures tx !in run[k].solid[i].txs
    {
      assert solid[i] == run[k].solid[i];
      if i < top {
        assert seen[i] == solid[i];
      } else {
        assert solid[top - 1].time < solid[i].time;
      }
    }
  }

  /**
   * In a run where every gateway is honest, a proof of expiry and a final outcome never both occur, in either order.
   */
  lemma ProvedIsNeverFinal(run: seq<State>, tx: TxId, expiration: int, marginMs: int,
                           answers: seq<Answers>, heads: seq<nat>, firsts: seq<nat>, seconds: seq<nat>,
                           later: seq<Answers>, laterFirsts: seq<nat>, laterSeconds: seq<nat>)
    requires Run(run, tx, expiration) && marginMs >= LEAST_MARGIN && answers != []
    requires |heads| == |firsts| == |seconds| == |answers| && |laterFirsts| == |laterSeconds| == |later|
    requires forall g ::
               0 <= g < |answers| ==>
                   HonestAt(run, g, tx, answers[g], heads[g], firsts[g], seconds[g]) && heads[g] <= firsts[g]
    requires forall g :: 0 <= g < |later| ==>
               laterFirsts[g] <= laterSeconds[g] < |run|
                 && HonestOutcome(run[laterFirsts[g]], run[laterSeconds[g]], g, tx, later[g].out)
    requires forall i :: 0 <= i < |answers| ==> Dead(answers[i], expiration, marginMs)
    ensures !Combine(later).CombinedFinal?
  {
    if Combine(later).CombinedFinal? {
      var finals := FinalsOf(later);
      assert finals[0] in finals;
      var g :| 0 <= g < |later| && later[g] == finals[0];
      var early := run[laterFirsts[g]];
      PrefixContains(early.solid, early.views[g].known, tx);
      assert HonestAt(run, 0, tx, answers[0], heads[0], firsts[0], seconds[0]);
      ProvedIsDead(run, 0, tx, expiration, marginMs, answers, answers[0], heads[0], firsts[0], seconds[0],
                   laterFirsts[g]);
    }
  }

  lemma PrefixContains(chain: seq<Block>, n: nat, tx: TxId)
    requires n <= |chain| && Contains(chain[..n], tx)
    ensures Contains(chain, tx)
  {
    var i :| 0 <= i < n && tx in chain[..n][i].txs;
    assert tx in chain[i].txs;
  }

  lemma OneGateway(solid: seq<Block>, known: nat, tx: TxId, expiration: int)
    requires ValidChain(solid, tx, expiration) && known <= |solid|
    ensures ValidState(State(solid, [View(known, [])]), tx, expiration)
  {
    assert solid[..known] + [] == solid[..known];
  }

  /**
   * With less margin than that the proof is unsound: the head can be past the expiration and the next block before it.
   */
  lemma LessMarginIsUnsound(tx: TxId, expiration: int, marginMs: int) returns (run: seq<State>, a: Answers)
    requires marginMs < LEAST_MARGIN
    ensures Run(run, tx, expiration) && |run| == 2 && HonestAt(run, 0, tx, a, 0, 0, 0) && Dead(a, expiration, marginMs)
    ensures Contains(run[1].solid, tx)
  {
    hide ValidState;
    var head, late := Block(expiration + marginMs + 1, {}), Block(expiration - 1, {tx});
    var s0 := State([head], [View(1, [])]);
    var s1 := State([head, late], [View(1, [])]);
    run := [s0, s1];
    a := Answers("", "", Some(head.time), NotFound);
    OneGateway([head], 1, tx, expiration);
    OneGateway([head, late], 1, tx, expiration);
    assert s0.solid[..1] + [] == [head];
    assert s1.solid[1] == late;
  }

  /** Asked in the other order the proof is unsound at any margin: the transaction lands between the two questions. */
  lemma OutcomeFirstIsUnsound(tx: TxId, expiration: int, marginMs: int) returns (run: seq<State>, a: Answers)
    ensures Run(run, tx, expiration) && |run| == 2 && HonestAt(run, 0, tx, a, 1, 0, 0) && Dead(a, expiration, marginMs)
    ensures Contains(run[1].solid, tx)
  {
    hide ValidState;
    var least := if marginMs < 0 then 0 else marginMs;
    var past, landed, head := Block(expiration - 2, {}), Block(expiration - 1, {tx}), Block(expiration + least + 1, {});
    var s0 := State([past], [View(1, [])]);
    var s1 := State([past, landed, head], [View(3, [])]);
    run := [s0, s1];
    a := Answers("", "", Some(head.time), NotFound);
    OneGateway([past], 1, tx, expiration);
    OneGateway([past, landed, head], 3, tx, expiration);
    assert s0.solid[..1] + [] == [past];
    assert s1.solid[1] == landed;
  }

  // ---- the combined outcome ---------------------------------------------------------------------------------------

  /** What two final reports must agree on: not the block's time, nor how the fee divides. */
  predicate SameFacts(a: Facts, b: Facts) {
    a.blockNumber == b.blockNumber && a.success == b.success && a.result == b.result && a.feeSun == b.feeSun
  }

  /** The answers that say so, in the gateways' order. */
  function WhoSay(answers: seq<Answers>, says: Outcome -> bool): (r: seq<Answers>)
    ensures forall a :: a in r <==> a in answers && says(a.out)
  {
    Filter(answers, (a: Answers) => says(a.out))
  }

  function FinalsOf(answers: seq<Answers>): (r: seq<Answers>)
    ensures forall k :: 0 <= k < |r| ==> r[k].out.Final?
  {
    var r := WhoSay(answers, (o: Outcome) => o.Final?);
    assert forall k :: 0 <= k < |r| ==> r[k] in r;
    r
  }

  /** The lower-case groups of the answers, each where it is first met. */
  function GroupsOf(answers: seq<Answers>): seq<string> {
    if answers == [] then []
    else
      var before, group := GroupsOf(answers[..|answers| - 1]), Lower(answers[|answers| - 1].group);
      if group in before then before else before + [group]
  }

  function Combine(answers: seq<Answers>): Combined {
    var finals := FinalsOf(answers);
    var silent := NamesOf(WhoSay(answers, (o: Outcome) => o.NoAnswer?));
    var pending := NamesOf(WhoSay(answers, (o: Outcome) => o.Pending?));
    if finals != [] then
      var first := finals[0].out.facts;
      if exists k :: 0 <= k < |finals| && !SameFacts(finals[k].out.facts, first) then CombinedConflict
      else CombinedFinal(first, NamesOf(finals), GroupsOf(finals), silent)
    else if pending != [] then CombinedPending(pending)
    else if silent != [] then CombinedUnknown
    else CombinedNotFound
  }

  ghost predicate Says(answers: seq<Answers>, says: Outcome -> bool) {
    exists a :: a in answers && says(a.out)
  }

  ghost predicate FinalsAgree(answers: seq<Answers>) {
    forall a, b :: a in answers && b in answers && a.out.Final? && b.out.Final? ==>
      && a.out.facts.blockNumber == b.out.facts.blockNumber && a.out.facts.success == b.out.facts.success
      && a.out.facts.result == b.out.facts.result && a.out.facts.feeSun == b.out.facts.feeSun
  }

  /** The names are those of exactly the gateways that say so. */
  ghost predicate NamesWhoSay(names: seq<string>, answers: seq<Answers>, says: Outcome -> bool) {
    forall n :: n in names <==> exists a :: a in answers && says(a.out) && a.name == n
  }

  lemma NamesOfThose(answers: seq<Answers>, says: Outcome -> bool)
    ensures NamesWhoSay(NamesOf(WhoSay(answers, says)), answers, says)
    ensures NamesOf(WhoSay(answers, says)) == [] <==> !Says(answers, says)
  {
    hide WhoSay;
    var those := WhoSay(answers, says);
    forall n
      ensures n in NamesOf(those) <==> exists a :: a in answers && says(a.out) && a.name == n
    {
      if n in NamesOf(those) {
        var k :| 0 <= k < |those| && NamesOf(those)[k] == n;
        assert those[k] in those;
      }
      if a :| a in answers && says(a.out) && a.name == n {
        var k :| 0 <= k < |those| && those[k] == a;
        assert NamesOf(those)[k] == n;
      }
    }
    if those != [] { assert those[0] in those; }
  }

  /** Each group is listed once, in lower case, whatever its spelling. */
  lemma {:induction false} GroupsCountedOnce(answers: seq<Answers>)
    ensures Distinct(GroupsOf(answers))
    ensures forall g :: g in GroupsOf(answers) <==> exists a :: a in answers && Lower(a.group) == g
  {
    if answers != [] {
      var init, last := answers[..|answers| - 1], answers[|answers| - 1];
      GroupsCountedOnce(init);
      assert answers == init + [last];
      forall g
        ensures g in GroupsOf(answers) <==> exists a :: a in answers && Lower(a.group) == g
      {
        assert g in GroupsOf(answers) <==> g in GroupsOf(init) || g == Lower(last.group);
        if g in GroupsOf(init) {
          var a :| a in init && Lower(a.group) == g;
          assert a in answers;
        }
        if g == Lower(last.group) { assert last in answers; }
      }
    }
  }

  /** Exactly when each outcome is reported; nothing in it depends on the order of the gateways. */
  lemma OutcomeMeaning(answers: seq<Answers>)
    ensures var final, pending, silent := Says(answers, (o: Outcome) => o.Final?),
                                          Says(answers, (o: Outcome) => o.Pending?),
                                          Says(answers, (o: Outcome) => o.NoAnswer?);
            var c := Combine(answers);
            && (c.CombinedFinal? <==> final && FinalsAgree(answers))
            && (c.CombinedConflict? <==> !FinalsAgree(answers))
            && (c.CombinedPending? <==> !final && pending)
            && (c.CombinedUnknown? <==> !final && !pending && silent)
            && (c.CombinedNotFound? <==> forall a :: a in answers ==> a.out.NotFound?)
  {
    hide GroupsOf, NamesOf, Lower, WhoSay;
    NamesOfThose(answers, (o: Outcome) => o.NoAnswer?);
    NamesOfThose(answers, (o: Outcome) => o.Pending?);
    FinalsOrNone(answers);
  }

  lemma FinalsOrNone(answers: seq<Answers>)
    ensures FinalsOf(answers) == [] <==> !Says(answers, (o: Outcome) => o.Final?)
    ensures FinalsAgree(answers)
            <==> forall k :: 0 <= k < |FinalsOf(answers)| ==>
                    SameFacts(FinalsOf(answers)[k].out.facts, FinalsOf(answers)[0].out.facts)
  {
    hide WhoSay;
    var finals := FinalsOf(answers);
    if finals != [] { assert finals[0] in finals; }
    forall a | a in finals
      ensures exists k :: 0 <= k < |finals| && finals[k] == a
    {
    }
    assert forall k :: 0 <= k < |finals| ==> finals[k] in finals;
  }

  /** Whom and what an outcome names: those who say so, their groups, those who were silent, a final report's facts. */
  lemma OutcomeNames(answers: seq<Answers>)
    ensures var c := Combine(answers);
            && (c.CombinedPending? ==> NamesWhoSay(c.seenBy, answers, (o: Outcome) => o.Pending?))
            && (c.CombinedFinal? ==>
                  && NamesWhoSay(c.agreedBy, answers, (o: Outcome) => o.Final?)
                  && NamesWhoSay(c.unavailable, answers, (o: Outcome) => o.NoAnswer?)
                  && (exists a :: a in answers && a.out == Final(c.facts))
                  && Distinct(c.agreedGroups)
                  && forall g ::
                      g in c.agreedGroups <==> exists a :: a in answers && a.out.Final? && Lower(a.group) == g)
  {
    hide GroupsOf, NamesOf, Lower, WhoSay;
    NamesOfThose(answers, (o: Outcome) => o.NoAnswer?);
    NamesOfThose(answers, (o: Outcome) => o.Pending?);
    NamesOfThose(answers, (o: Outcome) => o.Final?);
    var finals := FinalsOf(answers);
    GroupsCountedOnce(finals);
    if finals != [] { assert finals[0] in finals; }
  }

  ghost predicate SameAnswers(a: seq<Answers>, b: seq<Answers>) {
    forall x :: x in a <==> x in b
  }

  /** The gateways' order changes neither what is concluded nor the facts they are compared on. */
  lemma OutcomeIgnoresOrder(a: seq<Answers>, b: seq<Answers>)
    requires SameAnswers(a, b)
    ensures match Combine(a)
            case CombinedFinal(facts, _, _, _) => Combine(b).CombinedFinal? && SameFacts(facts, Combine(b).facts)
            case CombinedPending(_) => Combine(b).CombinedPending?
            case CombinedNotFound => Combine(b).CombinedNotFound?
            case CombinedConflict => Combine(b).CombinedConflict?
            case CombinedUnknown => Combine(b).CombinedUnknown?
  {
    OutcomeMeaning(a);
    OutcomeMeaning(b);
    assert FinalsAgree(a) == FinalsAgree(b);
    assert Says(a, (o: Outcome) => o.Final?) == Says(b, (o: Outcome) => o.Final?);
    assert Says(a, (o: Outcome) => o.Pending?) == Says(b, (o: Outcome) => o.Pending?);
    if Combine(a).CombinedFinal? {
      var x :| x in a && x.out.Final?;
    }
  }

  /** The same answers, with the one at `k` listed first. */
  ghost function ListedFirst(answers: seq<Answers>, k: nat): (r: seq<Answers>)
    requires k < |answers|
    ensures SameAnswers(r, answers)
  {
    assert answers == answers[..k] + [answers[k]] + answers[k + 1..];
    [answers[k]] + answers[..k] + answers[k + 1..]
  }

  /** Every final report has these facts, all of them. */
  ghost predicate OneReport(answers: seq<Answers>, facts: Facts) {
    forall a :: a in answers && a.out.Final? ==> a.out.facts == facts
  }

  lemma FactsWhenListedFirst(answers: seq<Answers>, k: nat, facts: Facts)
    requires Combine(answers).CombinedFinal? && k < |answers|
    ensures Combine(ListedFirst(answers, k)).CombinedFinal?
    ensures answers[k].out.Final? ==> Combine(ListedFirst(answers, k)).facts == answers[k].out.facts
    ensures OneReport(answers, facts) ==> Combine(ListedFirst(answers, k)).facts == facts
  {
    var listed := ListedFirst(answers, k);
    OutcomeIgnoresOrder(answers, listed);
    var finals := FinalsOf(listed);
    assert finals[0] in finals;
  }

  /**
   * But the block time and the parts of the fee are the first finder's: what is reported is the same whoever is listed
   * first exactly when all final reports have the same facts.
   */
  lemma UncomparedFactsDependOnOrder(answers: seq<Answers>, facts: Facts)
    requires Combine(answers).CombinedFinal?
    ensures forall k :: 0 <= k < |answers| ==> Combine(ListedFirst(answers, k)).CombinedFinal?
    ensures (forall k :: 0 <= k < |answers| ==> Combine(ListedFirst(answers, k)).facts == facts)
       <==> OneReport(answers, facts)
  {
    hide Combine, ListedFirst;
    forall k | 0 <= k < |answers|
      ensures Combine(ListedFirst(answers, k)).CombinedFinal?
      ensures answers[k].out.Final? ==> Combine(ListedFirst(answers, k)).facts == answers[k].out.facts
      ensures OneReport(answers, facts) ==> Combine(ListedFirst(answers, k)).facts == facts
    {
      FactsWhenListedFirst(answers, k, facts);
    }
    if forall k :: 0 <= k < |answers| ==> Combine(ListedFirst(answers, k)).facts == facts {
      forall a | a in answers && a.out.Final?
        ensures a.out.facts == facts
      {
        var k :| 0 <= k < |answers| && answers[k] == a;
        assert Combine(ListedFirst(answers, k)).facts == facts;
      }
    }
  }
}
