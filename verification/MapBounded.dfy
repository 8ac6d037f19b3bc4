/**
 * `mapBounded` of packages/adapters/src/tron.ts: workers that share one counter and one output, and interleave wherever
 * they await a call.
 */
module MapBounded {
  import opened Sequences

  /**
   * What a worker does: it has yet to run, it awaits the call for an item, it has returned, or its call was rejected.
   */
  datatype Worker = Idle | Awaiting(i: nat) | Returned | Rejected(i: nat)

  /** `calls` lists the items called for, in order. */
  datatype State<R> = State(out: seq<Option<R>>, next: nat, workers: seq<Worker>, calls: seq<nat>)

  datatype Step =
    | Start(w: nat)
    | Resolve(w: nat)
    | Reject(w: nat)

  function Min(a: int, b: int): int {
    if a < b then a else b
  }

  function Max(a: int, b: int): int {
    if a > b then a else b
  }

  /** How many workers there are. */
  function Workers(limit: int, items: nat): nat {
    Min(Max(limit, 1), items)
  }

  function Begin<R>(limit: int, items: nat): State<R> {
    State(seq(items, _ => None), 0, seq(Workers(limit, items), _ => Idle), [])
  }

  predicate Possible<R>(s: State<R>, step: Step) {
    step.w < |s.workers| &&
    match step
    case Start(w) => s.workers[w].Idle?
    case Resolve(w) => s.workers[w].Awaiting? && s.workers[w].i < |s.out|
    case Reject(w) => s.workers[w].Awaiting?
  }

  /** The head of the loop: take the next item and call for it, or return. */
  function Loop<R>(s: State<R>, w: nat): State<R>
    requires w < |s.workers|
  {
    if s.next < |s.out| then
      s.(next := s.next + 1, workers := s.workers[w := Awaiting(s.next)], calls := s.calls + [s.next])
    else s.(workers := s.workers[w := Returned])
  }

  function After<T, R>(items: seq<T>, fn: T -> R, s: State<R>, step: Step): State<R>
    requires Possible(s, step) && |s.out| == |items|
  {
    match step
    case Start(w) => Loop(s, w)
    case Resolve(w) => Loop(s.(out := s.out[s.workers[w].i := Some(fn(items[s.workers[w].i]))]), w)
    case Reject(w) => s.(workers := s.workers[w := Rejected(s.workers[w].i)])
  }

  ghost predicate Goes<T, R>(items: seq<T>, fn: T -> R, s: State<R>, step: Step, u: State<R>) {
    Possible(s, step) && |s.out| == |items| && u == After(items, fn, s, step)
  }

  ghost predicate Run<T, R(!new)>(items: seq<T>, fn: T -> R, limit: int, run: seq<State<R>>, steps: seq<Step>) {
    && |run| == |steps| + 1 && run[0] == Begin(limit, |items|)
    && forall i, j :: 0 <= i < |steps| && j == i + 1 ==> Goes(items, fn, run[i], steps[i], run[j])
  }

  /** The worker that has an item in hand. */
  ghost predicate Has<R>(s: State<R>, w: nat, i: nat) {
    w < |s.workers| && (s.workers[w] == Awaiting(i) || s.workers[w] == Rejected(i))
  }

  ghost predicate InHand<R>(s: State<R>, i: nat) {
    exists w :: Has(s, w, i)
  }

  /** Items below the counter are written or in hand of one worker; those above are untouched. */
  ghost predicate Inv<T, R>(items: seq<T>, fn: T -> R, limit: int, s: State<R>) {
    && |s.out| == |items| && s.next <= |items| && |s.workers| == Workers(limit, |items|)
    && s.calls == seq(s.next, i => i)
    && (forall i: nat :: i < s.next ==> s.out[i] == Some(fn(items[i])) || (s.out[i].None? && InHand(s, i)))
    && (forall i: nat :: s.next <= i < |items| ==> s.out[i].None?)
    && (forall w: nat, i: nat :: Has(s, w, i) ==> i < s.next && s.out[i].None?)
    && (forall w: nat, x: nat, i: nat :: Has(s, w, i) && Has(s, x, i) ==> w == x)
    && (forall w :: 0 <= w < |s.workers| && s.workers[w].Returned? ==> s.next == |items|)
  }

  lemma LoopKeeps<T, R>(items: seq<T>, fn: T -> R, limit: int, s: State<R>, w: nat)
    requires Inv(items, fn, limit, s) && w < |s.workers| && s.workers[w].Idle?
    ensures Inv(items, fn, limit, Loop(s, w))
  {
    var u := Loop(s, w);
    assert forall x, i :: x != w ==> (Has(u, x, i) <==> Has(s, x, i));
    assert forall i :: !Has(s, w, i);
    assert forall i :: Has(u, w, i) <==> s.next < |items| && i == s.next;
    forall i: nat | i < u.next && u.out[i].None?
      ensures InHand(u, i)
    {
      if i == s.next { assert Has(u, w, i); } else {
        var x :| Has(s, x, i);
        assert Has(u, x, i);
      }
    }
    assert u.calls == seq(u.next, i => i);
  }

  /** A resolved call writes its item, and leaves its worker where a loop begins. */
  lemma WriteKeeps<T, R>(items: seq<T>, fn: T -> R, limit: int, s: State<R>, w: nat)
    requires Inv(items, fn, limit, s) && w < |s.workers| && s.workers[w].Awaiting? && s.workers[w].i < |items|
    ensures var i := s.workers[w].i;
            Inv(items, fn, limit, s.(out := s.out[i := Some(fn(items[i]))], workers := s.workers[w := Idle]))
  {
    var n := s.workers[w].i;
    var u := s.(out := s.out[n := Some(fn(items[n]))], workers := s.workers[w := Idle]);
    assert Has(s, w, n);
    assert forall x, i :: Has(u, x, i) <==> x != w && Has(s, x, i);
    forall i: nat | i < u.next && u.out[i] != Some(fn(items[i]))
      ensures u.out[i].None? && InHand(u, i)
    {
      var x :| Has(s, x, i);
      assert Has(u, x, i);
    }
  }

  lemma StepKeeps<T, R>(items: seq<T>, fn: T -> R, limit: int, s: State<R>, step: Step)
    requires Inv(items, fn, limit, s) && Possible(s, step)
    ensures Inv(items, fn, limit, After(items, fn, s, step))
  {
    match step {
      case Start(w) => LoopKeeps(items, fn, limit, s, w);
      case Resolve(w) =>
        WriteKeeps(items, fn, limit, s, w);
        var i := s.workers[w].i;
        var t := s.(out := s.out[i := Some(fn(items[i]))], workers := s.workers[w := Idle]);
        LoopKeeps(items, fn, limit, t, w);
        assert Loop(t, w) == After(items, fn, s, step) by {
          var x := Loop(t, w).workers[w];
          assert s.workers[w := Idle][w := x] == s.workers[w := x];
        }
      case Reject(w) =>
        var u := After(items, fn, s, step);
        assert forall x, i :: Has(u, x, i) <==> Has(s, x, i);
        assert forall i :: InHand(s, i) ==> InHand(u, i) by {
          forall i | InHand(s, i)
            ensures InHand(u, i)
          {
            var x :| Has(s, x, i);
            assert Has(u, x, i);
          }
        }
    }
  }

  lemma {:induction false} RunsKeep<T, R(!new)>(items: seq<T>, fn: T -> R, limit: int, run: seq<State<R>>,
                                                steps: seq<Step>, k: nat)
    requires Run(items, fn, limit, run, steps) && k < |run|
    ensures Inv(items, fn, limit, run[k])
  {
    hide Inv, Possible, After;
    if k > 0 {
      RunsKeep(items, fn, limit, run, steps, k - 1);
      assert Goes(items, fn, run[k - 1], steps[k - 1], run[k]);
      StepKeeps(items, fn, limit, run[k - 1], steps[k - 1]);
    } else {
      BeginHolds(items, fn, limit);
    }
  }

  lemma BeginHolds<T, R>(items: seq<T>, fn: T -> R, limit: int)
    ensures Inv(items, fn, limit, Begin<R>(limit, |items|))
  {
    assert forall w, i :: !Has(Begin<R>(limit, |items|), w, i);
  }

  /** The calls that are awaited. */
  function InFlight(workers: seq<Worker>): nat {
    if workers == [] then 0 else InFlight(workers[..|workers| - 1]) + if Last(workers).Awaiting? then 1 else 0
  }

  lemma {:induction false} AtMostAll(workers: seq<Worker>)
    ensures InFlight(workers) <= |workers|
  {
    if workers != [] { AtMostAll(workers[..|workers| - 1]); }
  }

  /** Each item is called for once at most, in order, and never more than the limit are awaited at once. */
  lemma CallsOnceWithinLimit<T, R(!new)>(items: seq<T>, fn: T -> R, limit: int, run: seq<State<R>>, steps: seq<Step>,
                                         k: nat)
    requires Run(items, fn, limit, run, steps) && k < |run|
    ensures run[k].next <= |items| && run[k].calls == seq(run[k].next, i => i)
    ensures InFlight(run[k].workers) <= if limit < 1 then 1 else limit
  {
    RunsKeep(items, fn, limit, run, steps, k);
    AtMostAll(run[k].workers);
  }

  lemma {:induction false} AllAwait(workers: seq<Worker>)
    requires forall w :: 0 <= w < |workers| ==> workers[w].Awaiting?
    ensures InFlight(workers) == |workers|
  {
    if workers != [] { AllAwait(workers[..|workers| - 1]); }
  }

  /** And the limit is used: while items are left, workers that have started and not failed are all awaiting a call. */
  lemma UsesTheLimit<T, R(!new)>(items: seq<T>, fn: T -> R, limit: int, run: seq<State<R>>, steps: seq<Step>, k: nat)
    requires Run(items, fn, limit, run, steps) && k < |run| && run[k].next < |items|
    requires forall w :: 0 <= w < |run[k].workers| ==> !run[k].workers[w].Idle? && !run[k].workers[w].Rejected?
    ensures var most := if limit < 1 then 1 else limit;
            InFlight(run[k].workers) == if most < |items| then most else |items|
  {
    RunsKeep(items, fn, limit, run, steps, k);
    AllAwait(run[k].workers);
  }

  /**
   * When every worker has returned, every item has been called for, and the output is the map of the input, in order.
   */
  lemma EndsWithTheMap<T, R(!new)>(items: seq<T>, fn: T -> R, limit: int, run: seq<State<R>>, steps: seq<Step>, k: nat)
    requires Run(items, fn, limit, run, steps) && k < |run|
    requires forall w :: 0 <= w < |run[k].workers| ==> run[k].workers[w].Returned?
    ensures run[k].next == |items| == |run[k].out|
    ensures forall i :: 0 <= i < |items| ==> run[k].out[i] == Some(fn(items[i]))
  {
    RunsKeep(items, fn, limit, run, steps, k);
    var s := run[k];
    if items != [] { assert s.workers[0].Returned?; }
    forall i | 0 <= i < |items|
      ensures s.out[i] == Some(fn(items[i]))
    {
      assert forall w :: !Has(s, w, i);
    }
  }

  /** Every step uses something up, so workers whose calls all settle do end. */
  lemma StepsRunOut<T, R>(items: seq<T>, fn: T -> R, limit: int, s: State<R>, step: Step)
    requires Inv(items, fn, limit, s) && Possible(s, step)
    ensures 0 <= Left(After(items, fn, s, step)) < Left(s)
  {
    var u := After(items, fn, s, step);
    Working(s.workers, step.w, u.workers[step.w]);
    assert u.workers == s.workers[step.w := u.workers[step.w]];
  }

  /** Items not called for, and workers that have not ended. */
  function Left<R>(s: State<R>): int {
    2 * (|s.out| - s.next) + Weight(s.workers)
  }

  function Weight(workers: seq<Worker>): nat {
    if workers == [] then 0 else Weight(workers[..|workers| - 1]) + WeightOf(Last(workers))
  }

  function WeightOf(w: Worker): nat {
    match w
    case Idle => 2
    case Awaiting(_) => 1
    case _ => 0
  }

  lemma {:induction false} Working(workers: seq<Worker>, w: nat, x: Worker)
    requires w < |workers|
    ensures Weight(workers[w := x]) == Weight(workers) - WeightOf(workers[w]) + WeightOf(x)
    decreases |workers|
  {
    var n := |workers| - 1;
    var u := workers[w := x];
    if w < n {
      Working(workers[..n], w, x);
      assert u[..n] == workers[..n][w := x];
    } else {
      assert u[..n] == workers[..n];
    }
  }
}
