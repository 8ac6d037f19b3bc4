/**
 * The global lock order of packages/db/src/transaction.ts, and why transactions that keep it never wait for each other
 * in a circle. Row identifiers are taken in the order both sort and the database put them in.
 */
module LockOrder {
  import opened Sequences

  const LOCK_ORDER: seq<string> := [
    "trade_request", "quote", "acceptance_challenge", "trader_profile", "trader_order", "trader_block", "trade",
    "route_obligation", "settlement_leg", "route_settlement", "movement", "inr_account_day", "treasury_wallet",
    "deposit_address"
  ]

  datatype Row = Row(rank: nat, id: nat)

  predicate Before(a: Row, b: Row) {
    a.rank < b.rank || (a.rank == b.rank && a.id < b.id)
  }

  function Unique(ids: seq<nat>): (r: seq<nat>)
    ensures Distinct(r) && forall x :: x in r <==> x in ids
  {
    if ids == [] then []
    else
      var rest := Unique(ids[1..]);
      if ids[0] in rest then rest else [ids[0]] + rest
  }

  function Rows(rank: nat, ids: seq<nat>): seq<Row> {
    var sorted := Sort((a: nat, b: nat) => a < b, Unique(ids));
    seq(|sorted|, i requires 0 <= i < |sorted| => Row(rank, sorted[i]))
  }

  ghost predicate Ascends(rows: seq<Row>) {
    forall i, j :: 0 <= i < j < |rows| ==> Before(rows[i], rows[j])
  }

  /** A call locks exactly the rows asked for, each once, in key order. */
  lemma RowsAscend(rank: nat, ids: seq<nat>)
    ensures Ascends(Rows(rank, ids))
    ensures forall r :: r in Rows(rank, ids) <==> r.rank == rank && r.id in ids
  {
    hide Sort, Unique;
    var before := (a: nat, b: nat) => a < b;
    var sorted := Sort(before, Unique(ids));
    SortKeeps(before, Unique(ids));
    SortAscending(before, Unique(ids));
    forall i, j | 0 <= i < j < |sorted|
      ensures sorted[i] < sorted[j]
    {
      assert !before(sorted[j], sorted[i]);
    }
    forall r: Row
      ensures r in Rows(rank, ids) <==> r.rank == rank && r.id in ids
    {
      if r.rank == rank && r.id in ids {
        assert r.id in sorted;
        var i :| 0 <= i < |sorted| && sorted[i] == r.id;
        assert Rows(rank, ids)[i] == r;
      }
    }
  }

  class Tracker {
    var highestRank: map<nat, nat>

    /** Refuses a resource of a lower rank than the transaction has locked; an equal rank it lets pass. */
    method AssertLockOrder(tx: nat, resource: string) returns (ok: bool)
      requires resource in LOCK_ORDER
      modifies this
      ensures ok <==> (tx in old(highestRank) ==> old(highestRank)[tx] <= IndexOf(LOCK_ORDER, resource))
      ensures highestRank == if ok then old(highestRank)[tx := IndexOf(LOCK_ORDER, resource)] else old(highestRank)
    {
      var rank := IndexOf(LOCK_ORDER, resource);
      var current := if tx in highestRank then highestRank[tx] else -1;
      if rank < current { return false; }
      highestRank := highestRank[tx := rank];
      ok := true;
    }

    /** The rows that a call goes on to lock, one after the other; none if it is refused. */
    method LockInOrder(tx: nat, resource: string, ids: seq<nat>) returns (rows: Option<seq<Row>>)
      requires resource in LOCK_ORDER
      modifies this
      ensures rows.None? <==> tx in old(highestRank) && IndexOf(LOCK_ORDER, resource) < old(highestRank)[tx]
      ensures rows.Some? ==>
                rows.value == Rows(IndexOf(LOCK_ORDER, resource), ids)
                && highestRank == old(highestRank)[tx := IndexOf(LOCK_ORDER, resource)]
      ensures rows.None? ==> highestRank == old(highestRank)
    {
      var ok := AssertLockOrder(tx, resource);
      if !ok { return None; }
      if ids == [] {
        RowsAscend(IndexOf(LOCK_ORDER, resource), ids);
        EmptyIfNone(Rows(IndexOf(LOCK_ORDER, resource), ids));
        return Some([]);
      }
      rows := Some(Rows(IndexOf(LOCK_ORDER, resource), ids));
    }
  }

  // ---- transactions that lock -------------------------------------------------------------------------------------

  /**
   * A transaction: the highest rank it has asked for, the rows it has locked, and those its current call has yet to
   * lock.
   */
  datatype Tx = Tx(highest: int, held: set<Row>, queue: seq<Row>)

  const FRESH := Tx(-1, {}, [])

  datatype Step =
    | Call(tx: nat, rank: nat, ids: seq<nat>)
    | Acquire(tx: nat)
    /** Commit or rollback; a refused call rolls back too. */
    | End(tx: nat)

  /** Sessions, each in one transaction at a time. */
  type State = seq<Tx>

  ghost predicate Waits(s: State, a: nat, b: nat) {
    a < |s| && b < |s| && a != b && s[a].queue != [] && s[a].queue[0] in s[b].held
  }

  ghost predicate Blocked(s: State, a: nat) {
    exists b :: Waits(s, a, b)
  }

  /** What the database and the tracker let happen. */
  ghost predicate Possible(s: State, step: Step) {
    step.tx < |s| &&
    match step
    case Call(t, rank, _) => s[t].queue == [] && rank >= s[t].highest
    case Acquire(t) => s[t].queue != [] && !Blocked(s, t)
    case End(_) => true
  }

  function After(s: State, step: Step): State
    requires step.tx < |s| && (step.Acquire? ==> s[step.tx].queue != [])
  {
    match step
    case Call(t, rank, ids) => s[t := s[t].(highest := rank, queue := Rows(rank, ids))]
    case Acquire(t) => s[t := s[t].(held := s[t].held + {s[t].queue[0]}, queue := s[t].queue[1..])]
    case End(t) => s[t := FRESH]
  }

  /** A row that a transaction may ask for: one it holds already, or one after all that it holds. */
  ghost predicate MayAsk(t: Tx, row: Row) {
    row in t.held || forall r :: r in t.held ==> Before(r, row)
  }

  /** A call asks for such rows only; so does the only call for a resource. */
  ghost predicate InOrder(s: State, step: Step) {
    step.Call? && step.tx < |s| ==> forall id :: id in step.ids ==> MayAsk(s[step.tx], Row(step.rank, id))
  }

  ghost predicate Goes(s: State, step: Step, t: State) {
    Possible(s, step) && t == After(s, step)
  }

  ghost predicate Idle(s: State) {
    forall i :: 0 <= i < |s| ==> s[i] == FRESH
  }

  ghost predicate Run(run: seq<State>, steps: seq<Step>) {
    && |run| == |steps| + 1 && Idle(run[0])
    && forall i, j :: 0 <= i < |steps| && j == i + 1 ==> Goes(run[i], steps[i], run[j])
  }

  ghost predicate AllInOrder(run: seq<State>, steps: seq<Step>) {
    |run| == |steps| + 1 && forall i :: 0 <= i < |steps| ==> InOrder(run[i], steps[i])
  }

  // ---- the invariant ----------------------------------------------------------------------------------------------

  ghost predicate TxOrdered(t: Tx) {
    && Ascends(t.queue) && (forall r :: r in t.queue ==> r.rank == t.highest)
    && (forall r :: r in t.held ==> r.rank <= t.highest)
    && forall q :: q in t.queue ==> MayAsk(t, q)
  }

  ghost predicate Ordered(s: State) {
    forall i :: 0 <= i < |s| ==> TxOrdered(s[i])
  }

  /** A row is locked by one transaction at a time. */
  ghost predicate Exclusive(s: State) {
    forall i, j, r :: 0 <= i < |s| && 0 <= j < |s| && r in s[i].held && r in s[j].held ==> i == j
  }

  lemma AcquireOrdered(t: Tx)
    requires TxOrdered(t) && t.queue != []
    ensures TxOrdered(t.(held := t.held + {t.queue[0]}, queue := t.queue[1..]))
  {
    var u := t.(held := t.held + {t.queue[0]}, queue := t.queue[1..]);
    forall q | q in u.queue
      ensures MayAsk(u, q)
    {
      var k :| 0 <= k < |u.queue| && u.queue[k] == q;
      assert t.queue[k + 1] == q && q in t.queue;
      assert Before(t.queue[0], t.queue[k + 1]);
    }
  }

  lemma StepOrdered(s: State, step: Step)
    requires Ordered(s) && Possible(s, step) && InOrder(s, step)
    ensures Ordered(After(s, step))
  {
    match step {
      case Call(t, rank, ids) =>
        RowsAscend(rank, ids);
        assert TxOrdered(s[t]);
      case Acquire(t) => AcquireOrdered(s[t]);
      case End(_) =>
    }
  }

  lemma {:induction false} RunsOrdered(run: seq<State>, steps: seq<Step>, k: nat)
    requires Run(run, steps) && AllInOrder(run, steps) && k < |run|
    ensures Ordered(run[k])
  {
    hide Possible, After, InOrder, Ordered;
    if k > 0 {
      RunsOrdered(run, steps, k - 1);
      assert Goes(run[k - 1], steps[k - 1], run[k]);
      StepOrdered(run[k - 1], steps[k - 1]);
    } else {
      IdleOrdered(run[0]);
    }
  }

  lemma IdleOrdered(s: State)
    requires Idle(s)
    ensures Ordered(s) && Exclusive(s)
  {
  }

  /** No row is ever locked twice at once, in order or not. */
  lemma {:induction false} RunsExclusive(run: seq<State>, steps: seq<Step>, k: nat)
    requires Run(run, steps) && k < |run|
    ensures Exclusive(run[k])
  {
    hide Rows;
    if k > 0 {
      RunsExclusive(run, steps, k - 1);
      assert Goes(run[k - 1], steps[k - 1], run[k]);
      var s, step := run[k - 1], steps[k - 1];
      if step.Acquire? {
        forall b | 0 <= b < |s| && b != step.tx
          ensures s[step.tx].queue[0] !in s[b].held
        {
          assert !Waits(s, step.tx, b);
        }
      }
    } else {
      IdleOrdered(run[0]);
    }
  }

  // ---- no deadlock --------------------------------------------------------------------------------------------------

  /** The transaction that waits for the last row, of those among the first `n` that wait. */
  lemma {:induction false} LastWaiter(s: State, n: nat) returns (m: nat)
    requires n <= |s| && exists a: nat :: a < n && Blocked(s, a)
    ensures m < n && Blocked(s, m) && s[m].queue != []
    ensures forall a: nat :: a < n && Blocked(s, a) ==> !Before(s[m].queue[0], s[a].queue[0])
  {
    hide Before;
    var i := n - 1;
    if exists a: nat :: a < i && Blocked(s, a) {
      m := LastWaiter(s, i);
      if Blocked(s, i) {
        BeforeIsStrict(s[m].queue[0], s[i].queue[0]);
        if Before(s[m].queue[0], s[i].queue[0]) {
          forall a: nat | a < n && Blocked(s, a)
            ensures !Before(s[i].queue[0], s[a].queue[0])
          {
            if a < i && Before(s[i].queue[0], s[a].queue[0]) { BeforeOn(s[m].queue[0], s[i].queue[0], s[a].queue[0]); }
            BeforeIsStrict(s[i].queue[0], s[a].queue[0]);
          }
          m := i;
        }
      }
    } else {
      m := i;
      BeforeIsStrict(s[m].queue[0], s[m].queue[0]);
    }
  }

  lemma BeforeIsStrict(a: Row, b: Row)
    ensures !Before(a, a) && !Before(b, b) && (Before(a, b) ==> !Before(b, a))
  {
  }

  lemma BeforeOn(a: Row, b: Row, c: Row)
    requires Before(a, b) && Before(b, c)
    ensures Before(a, c)
  {
  }

  /**
   * Whenever transactions wait, one that is waited for does not wait itself: it can go on, and there is no circle of
   * transactions each waiting for the next.
   */
  lemma SomeoneGoesOn(run: seq<State>, steps: seq<Step>, k: nat) returns (a: nat, b: nat)
    requires Run(run, steps) && AllInOrder(run, steps) && k < |run|
    requires exists c: nat :: c < |run[k]| && Blocked(run[k], c)
    ensures Waits(run[k], a, b) && !Blocked(run[k], b)
  {
    hide Run, AllInOrder, Before;
    RunsOrdered(run, steps, k);
    RunsExclusive(run, steps, k);
    var s := run[k];
    a := LastWaiter(s, |s|);
    b :| Waits(s, a, b);
    if Blocked(s, b) { WaitRises(s, a, b); }
  }

  /** A circle of waiting transactions. */
  ghost predicate Circle(s: State, c: seq<nat>) {
    |c| > 1 && c[0] == Last(c) && forall i, j :: 0 <= i && j == i + 1 && j < |c| ==> Waits(s, c[i], c[j])
  }

  /** A transaction that waits for one that waits too waits for an earlier row. */
  lemma WaitRises(s: State, a: nat, b: nat)
    requires Ordered(s) && Exclusive(s) && Waits(s, a, b) && Blocked(s, b)
    ensures s[b].queue != [] && Before(s[a].queue[0], s[b].queue[0])
  {
    hide Before, Ascends;
    assert TxOrdered(s[b]);
    assert s[b].queue[0] in s[b].queue;
    assert MayAsk(s[b], s[b].queue[0]);
  }

  lemma {:induction false} ChainRises(s: State, c: seq<nat>, j: nat)
    requires Ordered(s) && Exclusive(s)
    requires forall i, j :: 0 <= i && j == i + 1 && j < |c| ==> Waits(s, c[i], c[j])
    requires 0 < j < |c| && Blocked(s, c[j])
    ensures c[0] < |s| && s[c[0]].queue != [] && s[c[j]].queue != []
    ensures Before(s[c[0]].queue[0], s[c[j]].queue[0])
    decreases j
  {
    hide Before, Ordered, Exclusive;
    assert Waits(s, c[j - 1], c[j]);
    WaitRises(s, c[j - 1], c[j]);
    if j > 1 {
      ChainRises(s, c, j - 1);
      BeforeOn(s[c[0]].queue[0], s[c[j - 1]].queue[0], s[c[j]].queue[0]);
    }
  }

  lemma NoCircle(run: seq<State>, steps: seq<Step>, k: nat, c: seq<nat>)
    requires Run(run, steps) && AllInOrder(run, steps) && k < |run|
    ensures !Circle(run[k], c)
  {
    hide Run, AllInOrder, Before, Ordered, Exclusive;
    RunsOrdered(run, steps, k);
    RunsExclusive(run, steps, k);
    var s := run[k];
    if Circle(s, c) {
      assert Waits(s, c[0], c[1]);
      ChainRises(s, c, |c| - 1);
      BeforeIsStrict(s[c[0]].queue[0], s[c[0]].queue[0]);
    }
  }

  // ---- out of order -------------------------------------------------------------------------------------------------

  /** Steps from any state. */
  ghost predicate Path(run: seq<State>, steps: seq<Step>) {
    |run| == |steps| + 1 && forall i, j :: 0 <= i < |steps| && j == i + 1 ==> Goes(run[i], steps[i], run[j])
  }

  /** A path of steps that are all in order. */
  ghost predicate Leads(s: State, run: seq<State>, steps: seq<Step>, t: State) {
    Path(run, steps) && AllInOrder(run, steps) && run[0] == s && Last(run) == t
  }

  lemma NoStep(s: State)
    ensures Leads(s, [s], [], s)
  {
  }

  lemma OneMore(s: State, run: seq<State>, steps: seq<Step>, t: State, step: Step, u: State)
    requires Leads(s, run, steps, t) && Goes(t, step, u) && InOrder(t, step)
    ensures Leads(s, run + [u], steps + [step], u)
  {
    hide Goes, InOrder;
    assert run[|steps|] == t;
  }

  /** Of the first `n` sessions, every one but `t` rolls back. */
  lemma {:induction false} OthersEnd(s: State, t: nat, n: nat) returns (run: seq<State>, steps: seq<Step>, u: State)
    requires t < |s| && n <= |s|
    ensures Leads(s, run, steps, u) && |u| == |s| && u[t] == s[t]
    ensures forall i :: 0 <= i < n && i != t ==> u[i] == FRESH
  {
    hide Leads;
    if n == 0 {
      NoStep(s);
      run, steps, u := [s], [], s;
    } else {
      run, steps, u := OthersEnd(s, t, n - 1);
      if n - 1 != t {
        var step := End(n - 1);
        OneMore(s, run, steps, u, step, After(u, step));
        run, steps, u := run + [After(u, step)], steps + [step], After(u, step);
      }
    }
  }

  /** A transaction locks the first `k` rows of its call, none of which anybody else holds. */
  lemma {:induction false} LocksSome(
    s: State, run: seq<State>, steps: seq<Step>, u: State, t: nat, k: nat)
    returns (run': seq<State>, steps': seq<Step>, v: State)
    requires Leads(s, run, steps, u) && t < |u| && k <= |u[t].queue|
    requires forall i, j :: 0 <= i < k && 0 <= j < |u| && j != t ==> u[t].queue[i] !in u[j].held
    ensures Leads(s, run', steps', v) && |v| == |u| && v[t].queue == u[t].queue[k..] && u[t].held <= v[t].held
    ensures forall j :: 0 <= j < |u| && j != t ==> v[j] == u[j]
    decreases k
  {
    hide Leads;
    if k == 0 {
      run', steps', v := run, steps, u;
    } else {
      NobodyHolds(u, t);
      var step := Acquire(t);
      var w := After(u, step);
      OneMore(s, run, steps, u, step, w);
      assert forall i :: 0 <= i < k - 1 ==> w[t].queue[i] == u[t].queue[i + 1];
      run', steps', v := LocksSome(s, run + [w], steps + [step], w, t, k - 1);
      assert w[t].queue[k - 1..] == u[t].queue[k..];
    }
  }

  /**
   * Two sessions in a circle: once the others are gone, one takes the row that `t` asked for late and then asks for
   * the later one that `t` holds.
   */
  lemma CircleFrom(s: State, t: nat, other: nat, low: Row, high: Row)
    returns (run: seq<State>, steps: seq<Step>, v: State)
    requires t < |s| && other < |s| && t != other && Ascends(s[t].queue)
    requires low.rank == high.rank && low.id < high.id
    requires low in s[t].queue && low !in s[t].held && high in s[t].held
    ensures Leads(s, run, steps, v) && Circle(v, [t, other, t])
  {
    hide Leads, Goes, InOrder, Blocked, Rows;
    var u: State;
    run, steps, u := OthersEnd(s, t, |s|);
    var w := u[other := Tx(low.rank, {low}, [high])];
    assert low == Row(low.rank, low.id) && high == Row(low.rank, high.id);
    var between := LocksFirst(u, other, low.rank, low.id, high.id, w);
    OneMore(s, run, steps, u, Call(other, low.rank, [low.id, high.id]), between);
    run, steps := run + [between], steps + [Call(other, low.rank, [low.id, high.id])];
    CallsOnly(between, other);
    OneMore(s, run, steps, between, Acquire(other), w);
    run, steps := run + [w], steps + [Acquire(other)];
    var k := IndexOf(w[t].queue, low);
    run, steps, v := LocksSome(s, run, steps, w, t, k);
    assert v[t].queue[0] == w[t].queue[k] == low;
    assert Waits(v, t, other) && Waits(v, other, t);
  }

  /** What a call may not ask for is an earlier row of the very resource the transaction locked last. */
  lemma LateRow(s: State, call: Step) returns (low: Row, high: Row)
    requires Ordered(s) && Possible(s, call) && call.Call? && !InOrder(s, call)
    ensures low.rank == high.rank == call.rank && low.id < high.id && low.id in call.ids
    ensures low !in s[call.tx].held && high in s[call.tx].held
  {
    var id :| id in call.ids && !MayAsk(s[call.tx], Row(call.rank, id));
    low := Row(call.rank, id);
    high :| high in s[call.tx].held && !Before(high, low);
    assert TxOrdered(s[call.tx]);
  }

  /** A run goes on with a call, and after it in order. */
  ghost predicate GoesOn(run: seq<State>, steps: seq<Step>, call: Step, more: seq<State>, moreSteps: seq<Step>) {
    && Run(more, moreSteps) && |more| > |run| && more[..|run|] == run && |steps| < |moreSteps|
    && moreSteps[..|steps|] == steps && moreSteps[|steps|] == call
    && forall i :: |steps| < i < |moreSteps| ==> InOrder(more[i], moreSteps[i])
  }

  lemma Joined(run: seq<State>, steps: seq<Step>, call: Step, tail: seq<State>, tailSteps: seq<Step>, v: State)
    requires Run(run, steps) && tail != [] && Goes(Last(run), call, tail[0]) && Leads(tail[0], tail, tailSteps, v)
    ensures GoesOn(run, steps, call, run + tail, steps + [call] + tailSteps) && Last(run + tail) == v
  {
    hide Goes, InOrder;
    var more, moreSteps := run + tail, steps + [call] + tailSteps;
    forall i, j | 0 <= i < |moreSteps| && j == i + 1
      ensures Goes(more[i], moreSteps[i], more[j])
      ensures i > |steps| ==> InOrder(more[i], moreSteps[i])
    {
      if i < |steps| {
        assert moreSteps[i] == steps[i] && more[i] == run[i] && more[j] == run[j];
      } else if i > |steps| {
        assert moreSteps[i] == tailSteps[i - |steps| - 1];
        assert more[i] == tail[i - |run|] && more[j] == tail[j - |run|];
      }
    }
  }

  /** A possible call out of order can be followed, in order, by a circle with any other session. */
  lemma OutOfOrderDeadlocks(run: seq<State>, steps: seq<Step>, call: Step, other: nat)
    returns (more: seq<State>, moreSteps: seq<Step>)
    requires Run(run, steps) && AllInOrder(run, steps) && Possible(Last(run), call) && call.Call?
    requires !InOrder(Last(run), call) && other < |Last(run)| && other != call.tx
    ensures GoesOn(run, steps, call, more, moreSteps) && Circle(Last(more), [call.tx, other, call.tx])
  {
    hide AllInOrder, InOrder, Rows, Circle, Leads, GoesOn;
    RunsOrdered(run, steps, |run| - 1);
    var s := Last(run);
    var low, high := LateRow(s, call);
    var t := After(s, call);
    RowsAscend(call.rank, call.ids);
    var tail, tailSteps, v := CircleFrom(t, call.tx, other, low, high);
    assert tail[0] == t by { LeadsFrom(t, tail, tailSteps, v); }
    Joined(run, steps, call, tail, tailSteps, v);
    more, moreSteps := run + tail, steps + [call] + tailSteps;
  }

  lemma LeadsFrom(s: State, run: seq<State>, steps: seq<Step>, t: State)
    requires Leads(s, run, steps, t)
    ensures run != [] && run[0] == s
  {
  }

  /**
   * Exactly which calls are safe, of those that the tracker lets pass after a run in order: with another session
   * about, no continuation in order comes to a circle if and only if the call is in order.
   */
  lemma OrderIsExact(run: seq<State>, steps: seq<Step>, call: Step)
    requires Run(run, steps) && AllInOrder(run, steps) && Possible(Last(run), call) && call.Call? && |Last(run)| > 1
    ensures InOrder(Last(run), call)
       <==> forall more, moreSteps, c :: GoesOn(run, steps, call, more, moreSteps) ==> !Circle(Last(more), c)
  {
    hide AllInOrder, InOrder, Possible, Circle, Idle, Goes;
    if InOrder(Last(run), call) {
      forall more, moreSteps, c | GoesOn(run, steps, call, more, moreSteps)
        ensures !Circle(Last(more), c)
      {
        StillInOrder(run, steps, call, more, moreSteps);
        NoCircle(more, moreSteps, |more| - 1, c);
      }
    } else {
      var other := if call.tx == 0 then 1 else 0;
      var more, moreSteps := OutOfOrderDeadlocks(run, steps, call, other);
    }
  }

  lemma StillInOrder(run: seq<State>, steps: seq<Step>, call: Step, more: seq<State>, moreSteps: seq<Step>)
    requires Run(run, steps) && AllInOrder(run, steps) && InOrder(Last(run), call)
    requires GoesOn(run, steps, call, more, moreSteps)
    ensures Run(more, moreSteps) && AllInOrder(more, moreSteps)
  {
    hide Goes, InOrder;
    forall i | 0 <= i < |moreSteps|
      ensures InOrder(more[i], moreSteps[i])
    {
      if i < |run| { assert more[i] == more[..|run|][i]; }
      if i < |steps| { assert moreSteps[i] == moreSteps[..|steps|][i]; }
    }
  }

  // ---- the tracker keeps the machine's highest rank -----------------------------------------------------------------

  ghost predicate Tracks(highestRank: map<nat, nat>, s: State) {
    forall t: nat :: t < |s| ==> s[t].highest == if t in highestRank then highestRank[t] else -1
  }

  /** A call goes through in the machine exactly when the tracker accepts it, and both record the same rank. */
  lemma TrackerIsTheMachine(highestRank: map<nat, nat>, s: State, t: nat, rank: nat, ids: seq<nat>)
    requires Tracks(highestRank, s) && t < |s| && s[t].queue == []
    ensures Possible(s, Call(t, rank, ids)) <==> (t in highestRank ==> highestRank[t] <= rank)
    ensures Tracks(highestRank[t := rank], After(s, Call(t, rank, ids)))
    ensures Tracks(highestRank - {t}, After(s, End(t)))
  {
  }

  /** Locking each resource at most once in a transaction is in order. */
  lemma OncePerResource(s: State, step: Step)
    requires Ordered(s) && Possible(s, step) && (step.Call? ==> step.rank != s[step.tx].highest)
    ensures InOrder(s, step)
  {
    if step.Call? { assert TxOrdered(s[step.tx]); }
  }

  /**
   * Out of order is not safe, and the tracker lets it pass: two calls for rows of the same resource, the second for
   * the lower row, deadlock with one call for both.
   */
  lemma SameRankDeadlocks(rank: nat, low: nat, high: nat) returns (run: seq<State>, steps: seq<Step>)
    requires low < high
    ensures Run(run, steps) && Circle(Last(run), [0, 1, 0])
    ensures |steps| > 0 && Last(steps) == Call(0, rank, [low])
            && forall i :: 0 <= i < |steps| - 1 ==> InOrder(run[i], steps[i])
  {
    hide Goes, Rows, InOrder, Circle;
    var h := Row(rank, high);
    var s0: State := [FRESH, FRESH];
    var s2: State := [Tx(rank, {h}, []), FRESH];
    var s4: State := [Tx(rank, {h}, []), Tx(rank, {Row(rank, low)}, [h])];
    var s1 := LocksOne(s0, 0, rank, high, s2);
    var s3 := LocksFirst(s2, 1, rank, low, high, s4);
    var s5 := SecondCallBlocks(s4, rank, low, high);
    CallsOnly(s1, 0);
    CallsOnly(s3, 1);
    assert Idle(s0);
    run, steps := FiveSteps(s0, Call(0, rank, [high]), s1, Acquire(0), s2, Call(1, rank, [low, high]), s3, Acquire(1),
                            s4, Call(0, rank, [low]), s5);
  }

  lemma FiveSteps(s0: State, a: Step, s1: State, b: Step, s2: State, c: Step, s3: State, d: Step, s4: State, e: Step,
                  s5: State) returns (run: seq<State>, steps: seq<Step>)
    requires Idle(s0) && Goes(s0, a, s1) && Goes(s1, b, s2) && Goes(s2, c, s3) && Goes(s3, d, s4) && Goes(s4, e, s5)
    requires InOrder(s0, a) && InOrder(s1, b) && InOrder(s2, c) && InOrder(s3, d)
    ensures Run(run, steps) && Last(run) == s5 && |steps| == 5 && Last(steps) == e
            && forall i :: 0 <= i < |steps| - 1 ==> InOrder(run[i], steps[i])
  {
    hide Goes, InOrder;
    run, steps := [s0, s1, s2, s3, s4, s5], [a, b, c, d, e];
  }

  lemma SecondCallBlocks(s: State, rank: nat, low: nat, high: nat) returns (t: State)
    requires low < high && s == [Tx(rank, {Row(rank, high)}, []), Tx(rank, {Row(rank, low)}, [Row(rank, high)])]
    ensures Goes(s, Call(0, rank, [low]), t) && Circle(t, [0, 1, 0])
  {
    RowsOfOne(rank, low);
    t := [Tx(rank, {Row(rank, high)}, [Row(rank, low)]), Tx(rank, {Row(rank, low)}, [Row(rank, high)])];
    hide Rows;
    assert Waits(t, 0, 1) && Waits(t, 1, 0);
  }

  lemma CallsOnly(s: State, t: nat)
    ensures InOrder(s, Acquire(t))
  {
  }

  lemma LocksOne(s: State, t: nat, rank: nat, id: nat, u: State) returns (between: State)
    requires t < |s| && s[t] == FRESH && u == s[t := Tx(rank, {Row(rank, id)}, [])]
    requires forall b :: 0 <= b < |s| ==> Row(rank, id) !in s[b].held
    ensures InOrder(s, Call(t, rank, [id])) && Goes(s, Call(t, rank, [id]), between) && Goes(between, Acquire(t), u)
  {
    hide Rows;
    RowsOfOne(rank, id);
    between := s[t := Tx(rank, {}, [Row(rank, id)])];
    NobodyHolds(between, t);
    assert {} + {Row(rank, id)} == {Row(rank, id)} && [Row(rank, id)][1..] == [];
  }

  lemma LocksFirst(s: State, t: nat, rank: nat, low: nat, high: nat, u: State) returns (between: State)
    requires low < high && t < |s| && s[t] == FRESH && u == s[t := Tx(rank, {Row(rank, low)}, [Row(rank, high)])]
    requires forall b :: 0 <= b < |s| ==> Row(rank, low) !in s[b].held
    ensures InOrder(s, Call(t, rank, [low, high])) && Goes(s, Call(t, rank, [low, high]), between)
            && Goes(between, Acquire(t), u)
  {
    hide Rows;
    RowsOfTwo(rank, low, high);
    between := s[t := Tx(rank, {}, [Row(rank, low), Row(rank, high)])];
    NobodyHolds(between, t);
    assert {} + {Row(rank, low)} == {Row(rank, low)} && [Row(rank, low), Row(rank, high)][1..] == [Row(rank, high)];
  }

  lemma NobodyHolds(s: State, a: nat)
    requires a < |s| && s[a].queue != [] && forall b :: 0 <= b < |s| && b != a ==> s[a].queue[0] !in s[b].held
    ensures !Blocked(s, a)
  {
  }

  lemma RowsOfOne(rank: nat, id: nat)
    ensures Rows(rank, [id]) == [Row(rank, id)]
  {
    assert Unique([id]) == [id];
    assert Sort((a: nat, b: nat) => a < b, [id]) == [id];
  }

  lemma RowsOfTwo(rank: nat, low: nat, high: nat)
    requires low < high
    ensures Rows(rank, [low, high]) == [Row(rank, low), Row(rank, high)]
  {
    var before, ids := (a: nat, b: nat) => a < b, [low, high];
    assert ids[1..] == [high] && Unique([high]) == [high];
    assert Unique(ids) == ids;
    assert ids[..1] == [low];
    assert Sort(before, ids[..1]) == [low];
    assert Sort(before, ids) == Insert(before, high, [low]) == [low] + Insert(before, high, [low][1..]) == ids;
  }
}
