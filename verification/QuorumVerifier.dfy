/**
 * Several providers, one verdict, no vote: `QuorumChainVerifier.verifyTransfer` of packages/adapters/src/tron.ts.
 */
module QuorumVerifier {
  import opened Sequences
  import opened Hex
  import opened TronChain

  /** `group` is who operates the data behind the provider; spellings that differ in case are one group. */
  datatype Provider = Provider(name: string, group: string)

  datatype Answer =
    | AnsweredFound(provider: Provider, transfer: Transfer, solidified: int)
    | AnsweredFailed(provider: Provider, blockNumber: int, blockTime: int, result: string, solidified: int)
    | AnsweredNotFound(provider: Provider)
    | Errored(provider: Provider)

  datatype Verification =
    | Conflict(unavailable: seq<string>)
    | Verified(transfer: Transfer, solidifiedBlock: int, agreedBy: seq<string>, agreedGroups: seq<string>,
               unavailable: seq<string>)
    | Failed(blockNumber: int, blockTime: int, result: string, agreedBy: seq<string>, agreedGroups: seq<string>,
             unavailable: seq<string>)
    | Absent(absentBy: seq<string>, absentGroups: seq<string>, unavailable: seq<string>)
    | Unavailable(unavailable: seq<string>)

  function Names(answers: seq<Answer>): (r: seq<string>)
    ensures |r| == |answers| && forall i :: 0 <= i < |r| ==> r[i] == answers[i].provider.name
  {
    seq(|answers|, i requires 0 <= i < |answers| => answers[i].provider.name)
  }

  /** Every fact two providers must agree on; the block's time is not one of them. */
  predicate SameTransfer(a: Transfer, b: Transfer) {
    a.(blockTime := 0) == b.(blockTime := 0)
  }

  // ---- independence groups --------------------------------------------------------------------------------------

  ghost function FoldedGroups(answers: seq<Answer>): set<string> {
    set a | a in answers :: Lower(a.provider.group)
  }

  function KnownGroup(groups: seq<string>, group: string): bool {
    exists i :: 0 <= i < |groups| && Lower(groups[i]) == Lower(group)
  }

  /** The groups of the answers' providers, each in the first spelling met. */
  function DistinctGroups(answers: seq<Answer>): seq<string> {
    if answers == [] then []
    else
      var before, group := DistinctGroups(answers[..|answers| - 1]), answers[|answers| - 1].provider.group;
      if KnownGroup(before, group) then before else before + [group]
  }

  ghost function FoldAll(groups: seq<string>): set<string> {
    set i | 0 <= i < |groups| :: Lower(groups[i])
  }

  /** Each group is counted once, whatever its spelling. */
  lemma {:induction false} GroupsCountedOnce(answers: seq<Answer>)
    ensures FoldAll(DistinctGroups(answers)) == FoldedGroups(answers)
    ensures |DistinctGroups(answers)| == |FoldedGroups(answers)|
  {
    if answers != [] {
      var init, last := answers[..|answers| - 1], answers[|answers| - 1];
      GroupsCountedOnce(init);
      var before, group := DistinctGroups(init), last.provider.group;
      FoldedGroupsAppend(init, last);
      assert answers == init + [last];
      if KnownGroup(before, group) {
        var i :| 0 <= i < |before| && Lower(before[i]) == Lower(group);
        assert Lower(group) in FoldAll(before);
      } else {
        FoldAllAppend(before, group);
        assert Lower(group) !in FoldAll(before);
      }
    }
  }

  /** The spelling listed for a group is the one met first. */
  lemma {:induction false} FirstSpelling(answers: seq<Answer>, g: string)
    requires g in DistinctGroups(answers)
    ensures exists k :: 0 <= k < |answers| && answers[k].provider.group == g
              && forall j :: 0 <= j < k ==> Lower(answers[j].provider.group) != Lower(g)
  {
    hide Lower;
    var init, last := answers[..|answers| - 1], answers[|answers| - 1];
    if g in DistinctGroups(init) {
      FirstSpelling(init, g);
      var k :| 0 <= k < |init| && init[k].provider.group == g
               && forall j :: 0 <= j < k ==> Lower(init[j].provider.group) != Lower(g);
      assert answers[k] == init[k];
    } else {
      GroupsCountedOnce(init);
      assert Lower(g) !in FoldAll(DistinctGroups(init));
      forall j | 0 <= j < |init|
        ensures Lower(answers[j].provider.group) != Lower(g)
      {
        assert answers[j] == init[j] && init[j] in init;
        assert Lower(init[j].provider.group) in FoldedGroups(init);
      }
      assert answers[|answers| - 1].provider.group == g;
    }
  }

  lemma FoldedGroupsAppend(answers: seq<Answer>, last: Answer)
    ensures FoldedGroups(answers + [last]) == FoldedGroups(answers) + {Lower(last.provider.group)}
  {
    var all := answers + [last];
    assert last in all;
    forall g | g in FoldedGroups(answers)
      ensures g in FoldedGroups(all)
    {
      var a :| a in answers && Lower(a.provider.group) == g;
      assert a in all;
    }
  }

  lemma FoldAllAppend(groups: seq<string>, last: string)
    ensures FoldAll(groups + [last]) == FoldAll(groups) + {Lower(last)}
  {
    var all := groups + [last];
    assert all[|groups|] == last;
    forall g | g in FoldAll(groups)
      ensures g in FoldAll(all)
    {
      var i :| 0 <= i < |groups| && Lower(groups[i]) == g;
      assert all[i] == groups[i];
    }
  }

  // ---- the verdict ------------------------------------------------------------------------------------------------

  function Lowest(answers: seq<Answer>): (m: int)
    requires answers != [] && forall a :: a in answers ==> a.AnsweredFound?
    ensures exists a :: a in answers && a.solidified == m
    ensures forall a :: a in answers ==> m <= a.solidified
  {
    if |answers| == 1 then answers[0].solidified
    else
      var m := Lowest(answers[1..]);
      assert forall a :: a in answers <==> a == answers[0] || a in answers[1..];
      if answers[0].solidified < m then answers[0].solidified else m
  }

  function Highest(answers: seq<Answer>): (m: int)
    requires answers != [] && forall a :: a in answers ==> a.AnsweredFound?
    ensures exists a :: a in answers && a.solidified == m
    ensures forall a :: a in answers ==> a.solidified <= m
  {
    if |answers| == 1 then answers[0].solidified
    else
      var m := Highest(answers[1..]);
      assert forall a :: a in answers <==> a == answers[0] || a in answers[1..];
      if answers[0].solidified > m then answers[0].solidified else m
  }

  function FoundOf(answers: seq<Answer>): seq<Answer> {
    Filter(answers, (a: Answer) => a.AnsweredFound?)
  }

  function FailedOf(answers: seq<Answer>): seq<Answer> {
    Filter(answers, (a: Answer) => a.AnsweredFailed?)
  }

  function AbsentOf(answers: seq<Answer>): seq<Answer> {
    Filter(answers, (a: Answer) => a.AnsweredNotFound?)
  }

  function ErroredOf(answers: seq<Answer>): seq<Answer> {
    Filter(answers, (a: Answer) => a.Errored?)
  }

  function FinalFound(found: seq<Answer>, block: int): seq<Answer> {
    Filter(found, (a: Answer) => a.AnsweredFound? && a.solidified >= block)
  }

  function FinalFailed(failed: seq<Answer>, block: int): seq<Answer> {
    Filter(failed, (a: Answer) => a.AnsweredFailed? && a.solidified >= block)
  }

  function FromFound(found: seq<Answer>, failed: seq<Answer>, unavailable: seq<string>): Verification
    requires found != [] && forall a :: a in found ==> a.AnsweredFound?
  {
    var t := found[0].transfer;
    if failed != [] || exists a :: a in found && !SameTransfer(a.transfer, t) then Conflict(unavailable)
    else
      var final := FinalFound(found, t.blockNumber);
      var backing := if final != [] then final else found;
      Verified(t, if final != [] then Lowest(final) else Highest(found),
               Names(backing), DistinctGroups(backing), unavailable)
  }

  function FromFailed(failed: seq<Answer>, unavailable: seq<string>): Verification
    requires failed != [] && forall a :: a in failed ==> a.AnsweredFailed?
  {
    var anchor := failed[0];
    if exists a :: a in failed && a.blockNumber != anchor.blockNumber then Conflict(unavailable)
    else
      var final := FinalFailed(failed, anchor.blockNumber);
      Failed(anchor.blockNumber, anchor.blockTime, anchor.result, Names(final), DistinctGroups(final), unavailable)
  }

  function VerifyTransfer(answers: seq<Answer>): Verification {
    var found, failed, absent := FoundOf(answers), FailedOf(answers), AbsentOf(answers);
    var unavailable := Names(ErroredOf(answers));
    if found != [] then FromFound(found, failed, unavailable)
    else if failed != [] then FromFailed(failed, unavailable)
    else if absent != [] then Absent(Names(absent), DistinctGroups(absent), unavailable)
    else Unavailable(unavailable)
  }

  // ---- what a verdict means ---------------------------------------------------------------------------------------

  /** A verified transfer is contradicted by nobody who answered. */
  lemma VerifiedIsUncontradicted(answers: seq<Answer>)
    requires VerifyTransfer(answers).Verified?
    ensures var v := VerifyTransfer(answers);
            && (exists a :: a in answers && a.AnsweredFound?)
            && forall a ::
                a in answers ==> !a.AnsweredFailed? && (a.AnsweredFound? ==> Agree(a.transfer, v.transfer))
  {
    var found, failed := FoundOf(answers), FailedOf(answers);
    assert found[0] in found;
    forall a | a in answers
      ensures !a.AnsweredFailed?
    {
      assert a in failed <==> a.AnsweredFailed?;
    }
  }

  /** Finders report the same transfer, whatever they say of the block's time. */
  ghost predicate FindersAgree(answers: seq<Answer>) {
    forall a, b :: a in answers && b in answers && a.AnsweredFound? && b.AnsweredFound? ==>
      Agree(a.transfer, b.transfer)
  }

  ghost predicate Agree(a: Transfer, b: Transfer) {
    && a.txHash == b.txHash && a.logIndex == b.logIndex && a.contract == b.contract && a.from == b.from
    && a.to == b.to && a.amount == b.amount && a.blockNumber == b.blockNumber && a.success == b.success
  }

  ghost predicate FailersAgree(answers: seq<Answer>) {
    forall a, b ::
        a in answers && b in answers && a.AnsweredFailed? && b.AnsweredFailed? ==> a.blockNumber == b.blockNumber
  }

  ghost predicate SomeSay(answers: seq<Answer>, says: Answer -> bool) {
    exists a :: a in answers && says(a)
  }

  /** Exactly when each verdict is given. */
  lemma VerdictMeaning(answers: seq<Answer>)
    ensures var found, failed := SomeSay(answers, (a: Answer) => a.AnsweredFound?),
            SomeSay(answers, (a: Answer) => a.AnsweredFailed?);
            var v := VerifyTransfer(answers);
            && (v.Verified? <==> found && !failed && FindersAgree(answers))
            && (v.Conflict? <==> if found then failed || !FindersAgree(answers) else !FailersAgree(answers))
            && (v.Failed? <==> !found && failed && FailersAgree(answers))
            && (v.Absent? <==> !found && !failed && SomeSay(answers, (a: Answer) => a.AnsweredNotFound?))
            && (v.Unavailable? <==> forall a :: a in answers ==> a.Errored?)
  {
    hide FinalFound, FinalFailed, Lowest, Highest, Names, DistinctGroups;
    var found, failed, absent := FoundOf(answers), FailedOf(answers), AbsentOf(answers);
    EmptyIfNone(found);
    EmptyIfNone(failed);
    EmptyIfNone(absent);
    if found != [] {
      assert found[0] in found;
      assert FindersAgree(answers) <==> forall a :: a in found ==> SameTransfer(a.transfer, found[0].transfer);
    } else if failed != [] {
      assert failed[0] in failed;
      assert FailersAgree(answers) <==> forall a :: a in failed ==> a.blockNumber == failed[0].blockNumber;
    }
  }

  /** Finders who call the block final, if there are any; else all of them. */
  ghost predicate Backs(answers: seq<Answer>, block: int, a: Answer) {
    && a in answers && a.AnsweredFound?
    && (a.solidified >= block || forall b :: b in answers && b.AnsweredFound? ==> b.solidified < block)
  }

  /** The solidified block reaches the transfer's block exactly when some finder calls it final. */
  lemma FinalWhenSomeFinderSaysSo(answers: seq<Answer>)
    requires VerifyTransfer(answers).Verified?
    ensures var v := VerifyTransfer(answers);
            v.solidifiedBlock >= v.transfer.blockNumber
            <==> exists a :: a in answers && a.AnsweredFound? && a.solidified >= v.transfer.blockNumber
  {
    BackingIs(answers, VerifyTransfer(answers).transfer.blockNumber);
  }

  /**
   * The names that agree are those of exactly the backing finders, each of whose heads is as high as the one reported.
   */
  lemma AgreedByBackers(answers: seq<Answer>, n: string)
    requires VerifyTransfer(answers).Verified?
    ensures var v := VerifyTransfer(answers);
            && (n in v.agreedBy <==> exists a :: Backs(answers, v.transfer.blockNumber, a) && a.provider.name == n)
            && (v.solidifiedBlock >= v.transfer.blockNumber ==>
                  forall a :: Backs(answers, v.transfer.blockNumber, a) ==> a.solidified >= v.solidifiedBlock)
  {
    var v := VerifyTransfer(answers);
    var block, found := v.transfer.blockNumber, FoundOf(answers);
    var final := FinalFound(found, block);
    var backing := if final != [] then final else found;
    BackingIs(answers, block);
    if n in v.agreedBy {
      var i :| 0 <= i < |v.agreedBy| && v.agreedBy[i] == n;
      assert backing[i] in backing;
    }
    forall a | Backs(answers, block, a)
      ensures a.provider.name in v.agreedBy
    {
      var i :| 0 <= i < |backing| && backing[i] == a;
      assert v.agreedBy[i] == a.provider.name;
    }
  }

  /** The independent sources counted are the groups of those finders, each once. */
  lemma AgreedGroupsAreBackers(answers: seq<Answer>)
    requires VerifyTransfer(answers).Verified?
    ensures var v := VerifyTransfer(answers);
            var groups := set a | a in answers && Backs(answers, v.transfer.blockNumber, a) :: Lower(a.provider.group);
            FoldAll(v.agreedGroups) == groups && |v.agreedGroups| == |groups|
  {
    var v := VerifyTransfer(answers);
    var block, found := v.transfer.blockNumber, FoundOf(answers);
    var final := FinalFound(found, block);
    var backing := if final != [] then final else found;
    BackingIs(answers, block);
    GroupsCountedOnce(backing);
    assert FoldedGroups(backing) == (set a | a in answers && Backs(answers, block, a) :: Lower(a.provider.group));
  }

  lemma NamesAre(answers: seq<Answer>, n: string)
    ensures n in Names(answers) <==> exists a :: a in answers && a.provider.name == n
  {
    if n in Names(answers) {
      var i :| 0 <= i < |answers| && Names(answers)[i] == n;
      assert answers[i] in answers;
    }
    if a :| a in answers && a.provider.name == n {
      var i :| 0 <= i < |answers| && answers[i] == a;
      assert Names(answers)[i] == n;
    }
  }

  /** A provider is reported unavailable, whatever the verdict, exactly when it gave no answer. */
  lemma UnavailableAreSilent(answers: seq<Answer>, n: string)
    ensures n in VerifyTransfer(answers).unavailable <==> exists a :: a in answers && a.Errored? && a.provider.name == n
  {
    hide FromFound, FromFailed;
    NamesAre(ErroredOf(answers), n);
    UnavailableIs(answers);
  }

  lemma UnavailableIs(answers: seq<Answer>)
    ensures VerifyTransfer(answers).unavailable == Names(ErroredOf(answers))
  {
    hide Filter, Names, DistinctGroups, Lowest, Highest, FinalFound, FinalFailed;
  }

  /** Reporters of a failure who call its block final. */
  ghost predicate Confirms(answers: seq<Answer>, block: int, a: Answer) {
    a in answers && a.AnsweredFailed? && a.solidified >= block
  }

  /** A failure is agreed on by exactly those of its reporters who call its block final, each of their groups once. */
  lemma FailureAgreedBy(answers: seq<Answer>, n: string)
    requires VerifyTransfer(answers).Failed?
    ensures var v := VerifyTransfer(answers);
            var groups :=
              set a | a in answers && Confirms(answers, v.blockNumber, a) :: Lower(a.provider.group);
            && (n in v.agreedBy <==> exists a :: Confirms(answers, v.blockNumber, a) && a.provider.name == n)
            && FoldAll(v.agreedGroups) == groups && |v.agreedGroups| == |groups|
  {
    hide Lowest, Highest, DistinctGroups, Names;
    var v := VerifyTransfer(answers);
    var final := FinalFailed(FailedOf(answers), v.blockNumber);
    NamesAre(final, n);
    GroupsCountedOnce(final);
    assert forall a :: a in final <==> Confirms(answers, v.blockNumber, a);
    assert FoldedGroups(final)
        == set a | a in answers && Confirms(answers, v.blockNumber, a) :: Lower(a.provider.group);
  }

  /** Absence is reported by exactly those who did not find the transfer. */
  lemma AbsenceReportedBy(answers: seq<Answer>, n: string)
    requires VerifyTransfer(answers).Absent?
    ensures var v := VerifyTransfer(answers);
            var groups := set a | a in answers && a.AnsweredNotFound? :: Lower(a.provider.group);
            && (n in v.absentBy <==> exists a :: a in answers && a.AnsweredNotFound? && a.provider.name == n)
            && FoldAll(v.absentGroups) == groups && |v.absentGroups| == |groups|
  {
    hide Lowest, Highest, DistinctGroups, Names;
    NamesAre(AbsentOf(answers), n);
    GroupsCountedOnce(AbsentOf(answers));
    assert FoldedGroups(AbsentOf(answers))
        == set a | a in answers && a.AnsweredNotFound? :: Lower(a.provider.group);
  }

  /**
   * The solidified block of a verdict is the lowest head of the finders that call the transfer final, or the highest of
   * all finders when none does; the facts are those of the finder asked first.
   */
  lemma SolidifiedBlockIs(answers: seq<Answer>)
    requires VerifyTransfer(answers).Verified?
    ensures var v := VerifyTransfer(answers);
            && (exists a :: Backs(answers, v.transfer.blockNumber, a) && a.solidified == v.solidifiedBlock)
            && forall a :: Backs(answers, v.transfer.blockNumber, a) ==>
                if v.solidifiedBlock >= v.transfer.blockNumber then v.solidifiedBlock <= a.solidified
                else a.solidified <= v.solidifiedBlock
  {
    BackingIs(answers, VerifyTransfer(answers).transfer.blockNumber);
  }

  /** The facts of a verdict, compared or not, are those of the first provider that has them. */
  lemma FactsAreTheFirsts(answers: seq<Answer>, k: nat)
    requires k < |answers|
    ensures VerifyTransfer(answers).Verified? && answers[k].AnsweredFound?
            && (forall j :: 0 <= j < k ==> !answers[j].AnsweredFound?) ==>
              VerifyTransfer(answers).transfer == answers[k].transfer
    ensures VerifyTransfer(answers).Failed? && answers[k].AnsweredFailed?
            && (forall j :: 0 <= j < k ==> !answers[j].AnsweredFailed?) ==>
              && VerifyTransfer(answers).blockNumber == answers[k].blockNumber
              && VerifyTransfer(answers).blockTime == answers[k].blockTime
              && VerifyTransfer(answers).result == answers[k].result
  {
    hide Names, DistinctGroups, Lowest, Highest, FinalFound, FinalFailed;
    FirstKept(answers, (a: Answer) => a.AnsweredFound?, k);
    FirstKept(answers, (a: Answer) => a.AnsweredFailed?, k);
  }

  lemma {:induction false} FirstKept(answers: seq<Answer>, keep: Answer -> bool, k: nat)
    requires k < |answers|
    ensures keep(answers[k]) && (forall j :: 0 <= j < k ==> !keep(answers[j])) ==>
              Filter(answers, keep) != [] && Filter(answers, keep)[0] == answers[k]
  {
    if k > 0 && !keep(answers[0]) {
      FirstKept(answers[1..], keep, k - 1);
    }
  }

  /** Two groups are one exactly when they differ in nothing but the case of their ASCII letters. */
  lemma OneGroup(a: string, b: string)
    ensures Lower(a) == Lower(b)
       <==> |a| == |b| && forall i :: 0 <= i < |a| ==> DifferInCase(a[i], b[i]) || DifferInCase(b[i], a[i])
  {
    if |a| == |b| && forall i :: 0 <= i < |a| ==> DifferInCase(a[i], b[i]) || DifferInCase(b[i], a[i]) {
      assert forall i :: 0 <= i < |a| ==> Lower(a)[i] == Lower(b)[i];
    }
    if Lower(a) == Lower(b) {
      forall i | 0 <= i < |a|
        ensures DifferInCase(a[i], b[i]) || DifferInCase(b[i], a[i])
      {
        assert Lower(a)[i] == Lower(b)[i];
      }
    }
  }

  ghost predicate DifferInCase(x: char, y: char) {
    x == y || ('A' <= x <= 'Z' && x + ' ' == y)
  }

  lemma BackingIs(answers: seq<Answer>, block: int)
    ensures var found := FoundOf(answers);
            var final := FinalFound(found, block);
            var backing := if final != [] then final else found;
            && (forall a :: a in backing <==> Backs(answers, block, a))
            && (final != [] <==> exists a :: a in answers && a.AnsweredFound? && a.solidified >= block)
  {
    var found := FoundOf(answers);
    var final := FinalFound(found, block);
    if final != [] { assert final[0] in final; }
  }

  // ---- no vote: the order of the providers does not matter ---------------------------------------------------------

  ghost predicate SameAnswers(a: seq<Answer>, b: seq<Answer>) {
    forall x :: x in a <==> x in b
  }

  ghost function Set(s: seq<string>): set<string> {
    set x | x in s
  }

  /** The same verdict, up to the order of names, the spelling of groups, and what no provider is compared on. */
  ghost predicate SameVerdict(v: Verification, w: Verification) {
    Set(v.unavailable) == Set(w.unavailable) &&
    match v
    case Conflict(_) => w.Conflict?
    case Verified(t, s, names, groups, _) =>
      && w.Verified? && SameTransfer(t, w.transfer) && s == w.solidifiedBlock && Set(names) == Set(w.agreedBy)
      && FoldAll(groups) == FoldAll(w.agreedGroups) && |groups| == |w.agreedGroups|
    case Failed(block, _, _, names, groups, _) =>
      && w.Failed? && block == w.blockNumber && Set(names) == Set(w.agreedBy)
      && FoldAll(groups) == FoldAll(w.agreedGroups) && |groups| == |w.agreedGroups|
    case Absent(names, groups, _) =>
      w.Absent? && Set(names) == Set(w.absentBy) && FoldAll(groups) == FoldAll(w.absentGroups)
        && |groups| == |w.absentGroups|
    case Unavailable(_) => w.Unavailable?
  }

  lemma NamesOfSame(a: seq<Answer>, b: seq<Answer>)
    requires SameAnswers(a, b)
    ensures Set(Names(a)) == Set(Names(b))
    ensures FoldAll(DistinctGroups(a)) == FoldAll(DistinctGroups(b)) && |DistinctGroups(a)| == |DistinctGroups(b)|
  {
    NamesWithin(a, b);
    NamesWithin(b, a);
    GroupsCountedOnce(a);
    GroupsCountedOnce(b);
    assert FoldedGroups(a) == FoldedGroups(b);
  }

  lemma NamesWithin(a: seq<Answer>, b: seq<Answer>)
    requires forall x :: x in a ==> x in b
    ensures Set(Names(a)) <= Set(Names(b))
  {
    forall n | n in Names(a)
      ensures n in Names(b)
    {
      var i :| 0 <= i < |a| && Names(a)[i] == n;
      assert a[i] in b;
      var j :| 0 <= j < |b| && b[j] == a[i];
      assert Names(b)[j] == n;
    }
  }

  lemma SameConflict(found: seq<Answer>, found': seq<Answer>, failed: seq<Answer>, failed': seq<Answer>, u: seq<string>,
                     u': seq<string>)
    requires found != [] && (forall a :: a in found ==> a.AnsweredFound?) && found' != []
             && (forall a :: a in found' ==> a.AnsweredFound?)
    requires SameAnswers(found, found') && (failed == [] <==> failed' == [])
    ensures FromFound(found, failed, u).Conflict? <==> FromFound(found', failed', u').Conflict?
    ensures FromFound(found, failed, u).Verified? ==> SameTransfer(found[0].transfer, found'[0].transfer)
  {
    hide FinalFound, Names, DistinctGroups, Lowest, Highest;
    assert found[0] in found' && found'[0] in found;
  }

  lemma SameFound(found: seq<Answer>, found': seq<Answer>, failed: seq<Answer>, failed': seq<Answer>, u: seq<string>,
                  u': seq<string>)
    requires found != [] && forall a :: a in found ==> a.AnsweredFound?
    requires SameAnswers(found, found') && SameAnswers(failed, failed') && Set(u) == Set(u')
    ensures found' != [] && forall a :: a in found' ==> a.AnsweredFound?
    ensures SameVerdict(FromFound(found, failed, u), FromFound(found', failed', u'))
  {
    hide Filter, Names, DistinctGroups, FoldAll, Set, Lowest, Highest;
    NonemptyTogether(found, found');
    NonemptyTogether(failed, failed');
    SameConflict(found, found', failed, failed', u, u');
    if FromFound(found, failed, u).Verified? {
      var block := found[0].transfer.blockNumber;
      var final, final' := FinalFound(found, block), FinalFound(found', block);
      assert found'[0].transfer.blockNumber == block;
      NonemptyTogether(final, final');
      if final != [] { NamesOfSame(final, final'); } else { NamesOfSame(found, found'); }
    }
  }

  lemma SameFailed(failed: seq<Answer>, failed': seq<Answer>, u: seq<string>, u': seq<string>)
    requires failed != [] && forall a :: a in failed ==> a.AnsweredFailed?
    requires SameAnswers(failed, failed') && Set(u) == Set(u')
    ensures failed' != [] && forall a :: a in failed' ==> a.AnsweredFailed?
    ensures SameVerdict(FromFailed(failed, u), FromFailed(failed', u'))
  {
    assert failed[0] in failed';
    assert failed'[0] in failed;
    var block, block' := failed[0].blockNumber, failed'[0].blockNumber;
    if FromFailed(failed, u).Failed? {
      assert block == block';
      assert SameAnswers(FinalFailed(failed, block), FinalFailed(failed', block'));
      NamesOfSame(FinalFailed(failed, block), FinalFailed(failed', block'));
    } else {
      var a :| a in failed && a.blockNumber != block;
      assert a.blockNumber != block' || failed[0].blockNumber != block';
    }
  }

  /** Whatever order the providers are configured in, the verdict is the same. */
  lemma OrderDoesNotMatter(answers: seq<Answer>, reordered: seq<Answer>)
    requires SameAnswers(answers, reordered)
    ensures SameVerdict(VerifyTransfer(answers), VerifyTransfer(reordered))
  {
    var found, found' := FoundOf(answers), FoundOf(reordered);
    var failed, failed' := FailedOf(answers), FailedOf(reordered);
    var absent, absent' := AbsentOf(answers), AbsentOf(reordered);
    assert SameAnswers(found, found') && SameAnswers(failed, failed') && SameAnswers(absent, absent');
    assert SameAnswers(ErroredOf(answers), ErroredOf(reordered));
    NamesOfSame(ErroredOf(answers), ErroredOf(reordered));
    var u, u' := Names(ErroredOf(answers)), Names(ErroredOf(reordered));
    NonemptyTogether(found, found');
    NonemptyTogether(failed, failed');
    NonemptyTogether(absent, absent');
    if found != [] {
      SameFound(found, found', failed, failed', u, u');
    } else if failed != [] {
      SameFailed(failed, failed', u, u');
    } else {
      NamesOfSame(absent, absent');
    }
  }

  lemma NonemptyTogether(a: seq<Answer>, b: seq<Answer>)
    requires SameAnswers(a, b)
    ensures a == [] <==> b == []
  {
    assert a != [] ==> a[0] in b;
    assert b != [] ==> b[0] in a;
  }

  /** The answers with one of them asked first. */
  function AskedFirst(answers: seq<Answer>, k: nat): seq<Answer>
    requires k < |answers|
  {
    [answers[k]] + answers[..k] + answers[k + 1..]
  }

  lemma AskedFirstIsSame(answers: seq<Answer>, k: nat)
    requires k < |answers|
    ensures SameAnswers(answers, AskedFirst(answers, k))
  {
    var b := AskedFirst(answers, k);
    forall x | x in answers
      ensures x in b
    {
      var i :| 0 <= i < |answers| && answers[i] == x;
      assert if i < k then b[i + 1] == x else if i == k then b[0] == x else b[i] == x;
    }
  }

  ghost function VerdictTime(answers: seq<Answer>): Option<int> {
    var v := VerifyTransfer(answers);
    if v.Verified? then Some(v.transfer.blockTime) else None
  }

  ghost predicate OneBlockTime(answers: seq<Answer>, time: int) {
    forall k :: 0 <= k < |answers| && answers[k].AnsweredFound? ==> answers[k].transfer.blockTime == time
  }

  /** The time a verdict reports is one finder's, and the one asked first if it found the transfer. */
  lemma TimeIsSomeFinders(answers: seq<Answer>)
    requires VerifyTransfer(answers).Verified?
    ensures answers != []
    ensures exists k ::
              0 <= k < |answers| && answers[k].AnsweredFound?
              && VerdictTime(answers) == Some(answers[k].transfer.blockTime)
    ensures answers[0].AnsweredFound? ==> VerdictTime(answers) == Some(answers[0].transfer.blockTime)
  {
    var first := FoundOf(answers)[0];
    assert first in FoundOf(answers);
    var k :| 0 <= k < |answers| && answers[k] == first;
  }

  lemma TimeWhenAskedFirst(answers: seq<Answer>, k: nat)
    requires VerifyTransfer(answers).Verified? && k < |answers|
    ensures answers[k].AnsweredFound? ==> VerdictTime(AskedFirst(answers, k)) == Some(answers[k].transfer.blockTime)
    ensures exists j ::
              0 <= j < |answers| && answers[j].AnsweredFound?
              && VerdictTime(AskedFirst(answers, k)) == Some(answers[j].transfer.blockTime)
  {
    var b := AskedFirst(answers, k);
    AskedFirstIsSame(answers, k);
    OrderDoesNotMatter(answers, b);
    TimeIsSomeFinders(b);
    var i :| 0 <= i < |b| && b[i].AnsweredFound? && VerdictTime(b) == Some(b[i].transfer.blockTime);
    assert b[i] in answers;
    var j :| 0 <= j < |answers| && answers[j] == b[i];
  }

  /**
   * The block time is the one reported fact that no provider is held to: the verdict gives the same time whoever is
   * asked first exactly when all who found the transfer report one time.
   */
  lemma BlockTimeIsTheFirstFinders(answers: seq<Answer>, time: int)
    requires VerifyTransfer(answers).Verified?
    ensures (forall k :: 0 <= k < |answers| ==> VerdictTime(AskedFirst(answers, k)) == Some(time))
            <==> OneBlockTime(answers, time)
  {
    hide VerdictTime, VerifyTransfer, AskedFirst;
    forall k | 0 <= k < |answers|
      ensures answers[k].AnsweredFound? ==> VerdictTime(AskedFirst(answers, k)) == Some(answers[k].transfer.blockTime)
      ensures OneBlockTime(answers, time) ==> VerdictTime(AskedFirst(answers, k)) == Some(time)
    {
      TimeWhenAskedFirst(answers, k);
    }
  }

  ghost function VerdictFailure(answers: seq<Answer>): Option<(int, string)> {
    var v := VerifyTransfer(answers);
    if v.Failed? then Some((v.blockTime, v.result)) else None
  }

  /** Everyone who reports the failure reports it at this time and with this result. */
  ghost predicate OneFailure(answers: seq<Answer>, time: int, result: string) {
    forall k :: 0 <= k < |answers| && answers[k].AnsweredFailed? ==>
      answers[k].blockTime == time && answers[k].result == result
  }

  lemma FailureIsSomeReporters(answers: seq<Answer>)
    requires VerifyTransfer(answers).Failed?
    ensures answers != []
    ensures exists k :: 0 <= k < |answers| && answers[k].AnsweredFailed?
              && VerdictFailure(answers) == Some((answers[k].blockTime, answers[k].result))
    ensures answers[0].AnsweredFailed? ==> VerdictFailure(answers) == Some((answers[0].blockTime, answers[0].result))
  {
    var first := FailedOf(answers)[0];
    assert first in FailedOf(answers);
    var k :| 0 <= k < |answers| && answers[k] == first;
  }

  lemma FailureWhenAskedFirst(answers: seq<Answer>, k: nat)
    requires VerifyTransfer(answers).Failed? && k < |answers|
    ensures answers[k].AnsweredFailed? ==>
              VerdictFailure(AskedFirst(answers, k)) == Some((answers[k].blockTime, answers[k].result))
    ensures exists j :: 0 <= j < |answers| && answers[j].AnsweredFailed?
              && VerdictFailure(AskedFirst(answers, k)) == Some((answers[j].blockTime, answers[j].result))
  {
    hide VerifyTransfer, VerdictFailure;
    var b := AskedFirst(answers, k);
    AskedFirstIsSame(answers, k);
    OrderDoesNotMatter(answers, b);
    FailureIsSomeReporters(b);
    var i :| 0 <= i < |b| && b[i].AnsweredFailed? && VerdictFailure(b) == Some((b[i].blockTime, b[i].result));
    assert b[i] in answers;
    var j :| 0 <= j < |answers| && answers[j] == b[i];
  }

  /**
   * Nor is anyone held to a failure's time and result: the verdict gives the same whoever is asked first exactly when
   * all who report the failure report them.
   */
  lemma FailureIsTheFirstReporters(answers: seq<Answer>, time: int, result: string)
    requires VerifyTransfer(answers).Failed?
    ensures (forall k :: 0 <= k < |answers| ==> VerdictFailure(AskedFirst(answers, k)) == Some((time, result)))
            <==> OneFailure(answers, time, result)
  {
    hide VerdictFailure, VerifyTransfer, AskedFirst;
    forall k | 0 <= k < |answers|
      ensures answers[k].AnsweredFailed? ==>
                VerdictFailure(AskedFirst(answers, k)) == Some((answers[k].blockTime, answers[k].result))
      ensures OneFailure(answers, time, result) ==> VerdictFailure(AskedFirst(answers, k)) == Some((time, result))
    {
      FailureWhenAskedFirst(answers, k);
    }
  }
}
