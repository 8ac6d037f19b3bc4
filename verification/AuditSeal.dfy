/**
 * The audit trail and its hourly seals: packages/audit/src/seal.ts over the tables of
 * packages/db/migrations/0003_audit.sql. Times are database times; an event's `at` is when its statement started.
 */
module AuditSeal {
  import opened Sequences

  datatype Event = Event(number: nat, at: int, content: nat)

  /** The range hash, taken as ideal: it stands for exactly the hash it continues and the events it covers. */
  datatype Hash = Hash(prev: Option<Hash>, events: seq<Event>)

  datatype Seal = Seal(id: nat, fromSeq: nat, toSeq: nat, count: nat, prev: Option<Hash>, hash: Hash, sealedAt: int)

  /** The committed events, by sequence number. */
  type Trail = map<nat, Event>

  ghost predicate ValidTrail(trail: Trail) {
    forall n :: n in trail ==> trail[n].number == n
  }

  /** The events numbered from `a` to `b`, in order; numbers that never committed are simply not there. */
  function Range(trail: Trail, a: nat, b: nat): seq<Event>
    decreases b
  {
    if b < a || b == 0 then []
    else Range(trail, a, b - 1) + if b in trail then [trail[b]] else []
  }

  function LastTo(seals: seq<Seal>): nat {
    if seals == [] then 0 else Last(seals).toSeq
  }

  function LastHash(seals: seq<Seal>): Option<Hash> {
    if seals == [] then None else Some(Last(seals).hash)
  }

  /** `max(seq)` of the events from `a` up to `top` that are older than `limit`. */
  function HighestSettled(trail: Trail, a: nat, limit: int, top: nat): (r: Option<nat>)
    ensures r.Some? ==> a <= r.value <= top && r.value in trail && trail[r.value].at < limit
    ensures forall n :: n in trail && trail[n].at < limit && a <= n <= top ==> r.Some? && n <= r.value
    decreases top
  {
    if top < a then None
    else if top in trail && trail[top].at < limit then Some(top)
    else if top == 0 then None
    else HighestSettled(trail, a, limit, top - 1)
  }

  /** The next seal, if any event from where the last one ended is older than the settle window. */
  function NextSeal(trail: Trail, top: nat, seals: seq<Seal>, id: nat, now: int, settle: nat): Option<Seal> {
    var a := LastTo(seals) + 1;
    var upper := HighestSettled(trail, a, now - settle, top);
    if upper.None? then None
    else
      var events := Range(trail, a, upper.value);
      Some(Seal(id, a, upper.value, |events|, LastHash(seals), Hash(LastHash(seals), events), now))
  }

  // ---- what a chain of seals is ---------------------------------------------------------------------------------

  /** A seal that still says what the trail holds. */
  predicate Matches(trail: Trail, s: Seal) {
    var events := Range(trail, s.fromSeq, s.toSeq);
    s.hash == Hash(s.prev, events) && s.count == |events|
  }

  /** Seals start at the first event, follow each other without gap or overlap, and chain hash to hash. */
  ghost predicate Chained(seals: seq<Seal>) {
    && (forall k :: 0 <= k < |seals| ==> seals[k].fromSeq <= seals[k].toSeq)
    && (seals != [] ==> seals[0].fromSeq == 1 && seals[0].prev == None)
    && (forall j, k :: 0 <= j && k == j + 1 && k < |seals| ==>
          seals[k].fromSeq == seals[j].toSeq + 1 && seals[k].prev == Some(seals[j].hash) && seals[j].id < seals[k].id)
  }

  ghost predicate AllMatch(trail: Trail, seals: seq<Seal>) {
    forall k :: 0 <= k < |seals| ==> Matches(trail, seals[k])
  }

  /** `verifyAuditSeals`: the first seal that does not match, if there is one. */
  method VerifyAuditSeals(trail: Trail, seals: seq<Seal>) returns (firstBad: Option<nat>)
    ensures firstBad.None? <==> AllMatch(trail, seals)
    ensures firstBad.Some? ==>
              exists k ::
                  0 <= k < |seals| && seals[k].id == firstBad.value && !Matches(trail, seals[k])
                  && AllMatch(trail, seals[..k])
  {
    for k := 0 to |seals|
      invariant AllMatch(trail, seals[..k])
    {
      if !Matches(trail, seals[k]) { return Some(seals[k].id); }
      assert seals[..k + 1] == seals[..k] + [seals[k]];
    }
    assert seals[..|seals|] == seals;
    firstBad := None;
  }

  lemma {:induction false} RangeNumbers(trail: Trail, a: nat, b: nat)
    requires ValidTrail(trail)
    ensures forall e :: e in Range(trail, a, b) ==> a <= e.number <= b && e.number in trail && trail[e.number] == e
    ensures forall n :: n in trail && a <= n <= b && n > 0 ==> trail[n] in Range(trail, a, b)
    decreases b
  {
    if b >= a && b > 0 { RangeNumbers(trail, a, b - 1); }
  }

  lemma {:induction false} SameRange(t: Trail, u: Trail, a: nat, b: nat)
    requires forall n :: a <= n <= b ==> (n in t <==> n in u) && (n in t ==> t[n] == u[n])
    ensures Range(t, a, b) == Range(u, a, b)
    decreases b
  {
    if b >= a && b > 0 { SameRange(t, u, a, b - 1); }
  }

  /** A seal pins the events of its range: two trails that it matches hold the same ones there. */
  lemma SealPinsEvents(t: Trail, u: Trail, s: Seal, n: nat)
    requires ValidTrail(t) && ValidTrail(u) && Matches(t, s) && Matches(u, s) && s.fromSeq <= n <= s.toSeq && n > 0
    ensures (n in t <==> n in u) && (n in t ==> t[n] == u[n])
  {
    RangeNumbers(t, s.fromSeq, s.toSeq);
    RangeNumbers(u, s.fromSeq, s.toSeq);
    assert Range(t, s.fromSeq, s.toSeq) == Range(u, s.fromSeq, s.toSeq);
    if n in t { assert t[n].number == n && t[n] in Range(u, s.fromSeq, s.toSeq); }
    if n in u { assert u[n].number == n && u[n] in Range(t, s.fromSeq, s.toSeq); }
  }

  lemma {:induction false} ChainCovers(seals: seq<Seal>, n: nat)
    requires Chained(seals) && 1 <= n <= LastTo(seals)
    ensures exists k :: 0 <= k < |seals| && seals[k].fromSeq <= n <= seals[k].toSeq
    decreases |seals|
  {
    var k := |seals| - 1;
    if n < seals[k].fromSeq {
      assert seals[k].fromSeq == seals[k - 1].toSeq + 1;
      ChainCovers(seals[..k], n);
      var j :| 0 <= j < k && seals[..k][j].fromSeq <= n <= seals[..k][j].toSeq;
      assert seals[j].fromSeq <= n <= seals[j].toSeq;
    }
  }

  /** Any edited, inserted or deleted event of the sealed range is detected. */
  lemma TamperingIsDetected(sealed: Trail, trail: Trail, seals: seq<Seal>, n: nat)
    requires ValidTrail(sealed) && ValidTrail(trail) && Chained(seals) && AllMatch(sealed, seals)
             && 1 <= n <= LastTo(seals)
    requires (n in sealed) != (n in trail) || (n in sealed && sealed[n] != trail[n])
    ensures !AllMatch(trail, seals)
  {
    ChainCovers(seals, n);
    var k :| 0 <= k < |seals| && seals[k].fromSeq <= n <= seals[k].toSeq;
    assert Matches(sealed, seals[k]);
    if Matches(trail, seals[k]) { SealPinsEvents(sealed, trail, seals[k], n); }
  }

  // ---- transactions, the clock and the sealing job --------------------------------------------------------------

  /**
   * `stay` bounds how long after its number is allocated a transaction ends; `skew` how long after its statement
   * started an event's number is allocated. `born[n]` is when number `n` was allocated, and `flights` are the events
   * whose transactions have not ended.
   */
  datatype Limits = Limits(settle: nat, stay: nat, skew: nat)

  datatype State = State(now: int, born: seq<int>, flights: set<Event>, trail: Trail, seals: seq<Seal>, nextId: nat)

  datatype Step =
    | Tick(now: int)
    | Insert(at: int, content: nat)
    | Commit(event: Event)
    | Abort(event: Event)
    | SealAudit
    /** A sealing transaction that rolls back still uses up a seal number. */
    | SealRolledBack

  function Initial(now: int): State {
    State(now, [now], {}, map[], [], 1)
  }

  /** The number the next event gets. */
  function NextNumber(s: State): nat {
    |s.born|
  }

  ghost predicate Allowed(l: Limits, s: State, step: Step) {
    match step
    case Tick(now) => s.now <= now
      && forall e :: e in s.flights && e.number < |s.born| ==> now <= s.born[e.number] + l.stay
    case Insert(at, _) => at <= s.now <= at + l.skew
    case Commit(e) => e in s.flights
    case Abort(e) => e in s.flights
    case SealAudit => true
    case SealRolledBack => true
  }

  function Sealed(l: Limits, s: State): State {
    var seal := NextSeal(s.trail, |s.born|, s.seals, s.nextId, s.now, l.settle);
    if seal.None? then s else s.(seals := s.seals + [seal.value], nextId := s.nextId + 1)
  }

  function After(l: Limits, s: State, step: Step): State {
    match step
    case Tick(now) => s.(now := now)
    case Insert(at, content) => s.(born := s.born + [s.now], flights := s.flights + {Event(NextNumber(s), at, content)})
    case Commit(e) => s.(flights := s.flights - {e}, trail := s.trail[e.number := e])
    case Abort(e) => s.(flights := s.flights - {e})
    case SealAudit => Sealed(l, s)
    case SealRolledBack => s.(nextId := s.nextId + 1)
  }

  ghost predicate Run(l: Limits, run: seq<State>, steps: seq<Step>) {
    && |run| == |steps| + 1 && run[0] == Initial(run[0].now)
    && forall i :: 0 <= i < |steps| ==> Takes(l, run[i], steps[i], run[i + 1])
  }

  ghost predicate Takes(l: Limits, s: State, step: Step, t: State) {
    Allowed(l, s, step) && t == After(l, s, step)
  }

  /** The settle window outlasts every transaction, counted from the time its event bears. */
  ghost predicate SettlesLongEnough(l: Limits) {
    l.skew + l.stay <= l.settle
  }

  // ---- the invariant ---------------------------------------------------------------------------------------------

  /** Numbers are allocated in time order. */
  ghost predicate BornInOrder(s: State) {
    |s.born| >= 1 && forall i, j :: 0 <= i <= j < |s.born| ==> s.born[i] <= s.born[j] <= s.now
  }

  /** An event has one of the numbers allocated, and bears a time at most `skew` before its number was. */
  ghost predicate Dated(l: Limits, s: State, e: Event) {
    1 <= e.number < |s.born| && e.at <= s.born[e.number] <= e.at + l.skew
  }

  ghost predicate TrailDated(l: Limits, s: State) {
    ValidTrail(s.trail) && forall n :: n in s.trail ==> Dated(l, s, s.trail[n])
  }

  ghost predicate FlightsDated(l: Limits, s: State) {
    && (forall e :: e in s.flights ==> Dated(l, s, e) && e.number !in s.trail && s.now <= s.born[e.number] + l.stay)
    && (forall e, f :: e in s.flights && f in s.flights && e.number == f.number ==> e == f)
  }

  ghost predicate Numbered(l: Limits, s: State) {
    BornInOrder(s) && TrailDated(l, s) && FlightsDated(l, s)
  }

  /** What sealing promises: no event of a sealed range is still to come, and every seal chains and matches. */
  ghost predicate SealsSound(s: State) {
    && (forall e :: e in s.flights ==> e.number > LastTo(s.seals))
    && LastTo(s.seals) < |s.born|
    && Chained(s.seals) && AllMatch(s.trail, s.seals)
    && (forall k :: 0 <= k < |s.seals| ==> s.seals[k].id < s.nextId)
  }

  lemma InsertKeepsNumbered(l: Limits, s: State, at: int, content: nat)
    requires Numbered(l, s) && Allowed(l, s, Insert(at, content))
    ensures Numbered(l, After(l, s, Insert(at, content)))
  {
    var t := After(l, s, Insert(at, content));
    assert forall i :: 0 <= i < |s.born| ==> t.born[i] == s.born[i];
    assert t.born[|s.born|] == s.now;
    assert BornInOrder(t);
    assert forall e :: Dated(l, s, e) ==> Dated(l, t, e);
    assert TrailDated(l, t);
    forall e | e in t.flights
      ensures Dated(l, t, e) && e.number !in t.trail && t.now <= t.born[e.number] + l.stay
    {
      if e !in s.flights { assert e.number == |s.born|; }
    }
  }

  lemma EndKeepsNumbered(l: Limits, s: State, e: Event)
    requires Numbered(l, s) && e in s.flights
    ensures Numbered(l, After(l, s, Commit(e))) && Numbered(l, After(l, s, Abort(e)))
  {
    var t, u := After(l, s, Commit(e)), After(l, s, Abort(e));
    assert forall f :: Dated(l, s, f) ==> Dated(l, t, f) && Dated(l, u, f);
    assert TrailDated(l, t) && TrailDated(l, u);
    assert FlightsDated(l, t) && FlightsDated(l, u);
  }

  lemma TickKeepsNumbered(l: Limits, s: State, now: int)
    requires Numbered(l, s) && Allowed(l, s, Tick(now))
    ensures Numbered(l, After(l, s, Tick(now)))
  {
    var t := After(l, s, Tick(now));
    assert forall f :: Dated(l, s, f) ==> Dated(l, t, f);
    assert TrailDated(l, t) && FlightsDated(l, t) && BornInOrder(t);
  }

  lemma SealKeepsNumbered(l: Limits, s: State, t: State)
    requires Numbered(l, s) && t.now == s.now && t.born == s.born && t.flights == s.flights && t.trail == s.trail
    ensures Numbered(l, t)
  {
    assert forall f :: Dated(l, s, f) ==> Dated(l, t, f);
    assert TrailDated(l, t) && FlightsDated(l, t) && BornInOrder(t);
  }

  lemma NumberedIsKept(l: Limits, s: State, step: Step)
    requires Numbered(l, s) && Allowed(l, s, step)
    ensures Numbered(l, After(l, s, step))
  {
    hide Numbered;
    match step {
      case Tick(now) => TickKeepsNumbered(l, s, now);
      case Insert(at, content) => InsertKeepsNumbered(l, s, at, content);
      case Commit(e) => EndKeepsNumbered(l, s, e);
      case Abort(e) => EndKeepsNumbered(l, s, e);
      case SealAudit => SealKeepsNumbered(l, s, After(l, s, step));
      case SealRolledBack => SealKeepsNumbered(l, s, After(l, s, step));
    }
  }

  /** Nothing that is in flight when a seal is made can be numbered within it. */
  lemma NothingInFlightIsSealed(l: Limits, s: State, e: Event, to: nat)
    requires Numbered(l, s) && SettlesLongEnough(l)
    requires e in s.flights && to in s.trail && s.trail[to].at < s.now - l.settle
    ensures e.number > to
  {
    assert Dated(l, s, e) && Dated(l, s, s.trail[to]);
    assert s.born[to] < s.born[e.number];
  }

  lemma {:induction false} ChainToLast(seals: seq<Seal>, k: nat)
    requires Chained(seals) && k < |seals|
    ensures seals[k].toSeq <= LastTo(seals)
    decreases |seals| - k
  {
    if k + 1 < |seals| {
      assert seals[k + 1].fromSeq == seals[k].toSeq + 1;
      ChainToLast(seals, k + 1);
    }
  }

  lemma CommitKeepsSeals(s: State, e: Event)
    requires SealsSound(s) && e in s.flights
    ensures AllMatch(s.trail[e.number := e], s.seals)
  {
    forall k | 0 <= k < |s.seals|
      ensures Matches(s.trail[e.number := e], s.seals[k])
    {
      ChainToLast(s.seals, k);
      assert Matches(s.trail, s.seals[k]);
      SameRange(s.trail, s.trail[e.number := e], s.seals[k].fromSeq, s.seals[k].toSeq);
    }
  }

  lemma AppendedChain(trail: Trail, seals: seq<Seal>, s: Seal)
    requires Chained(seals) && AllMatch(trail, seals) && Matches(trail, s)
    requires s.fromSeq == LastTo(seals) + 1 && s.fromSeq <= s.toSeq && s.prev == LastHash(seals)
    requires forall k :: 0 <= k < |seals| ==> seals[k].id < s.id
    ensures Chained(seals + [s]) && AllMatch(trail, seals + [s]) && LastTo(seals + [s]) == s.toSeq
  {
    var all := seals + [s];
    assert forall k :: 0 <= k < |seals| ==> all[k] == seals[k];
    assert all[|seals|] == s;
  }

  lemma SealKeepsSound(l: Limits, s: State)
    requires Numbered(l, s) && SettlesLongEnough(l) && SealsSound(s)
    ensures SealsSound(Sealed(l, s))
  {
    var seal := NextSeal(s.trail, |s.born|, s.seals, s.nextId, s.now, l.settle);
    if seal.Some? {
      AppendedChain(s.trail, s.seals, seal.value);
      forall e | e in s.flights
        ensures e.number > seal.value.toSeq
      {
        NothingInFlightIsSealed(l, s, e, seal.value.toSeq);
      }
      assert Dated(l, s, s.trail[seal.value.toSeq]);
    }
  }

  lemma SoundIsKept(l: Limits, s: State, step: Step)
    requires Numbered(l, s) && SettlesLongEnough(l) && SealsSound(s) && Allowed(l, s, step)
    ensures SealsSound(After(l, s, step))
  {
    hide Numbered, AllMatch, Chained;
    match step {
      case Tick(_) =>
      case Insert(_, _) =>
      case Commit(e) => CommitKeepsSeals(s, e);
      case Abort(_) =>
      case SealAudit => SealKeepsSound(l, s);
      case SealRolledBack =>
    }
  }

  /** In every run, at every moment: the seals partition the trail's beginning, chain, and match. */
  lemma {:induction false} SealsStaySound(l: Limits, run: seq<State>, steps: seq<Step>, k: nat)
    requires Run(l, run, steps) && SettlesLongEnough(l) && k < |run|
    ensures Numbered(l, run[k]) && SealsSound(run[k])
  {
    hide After, Allowed, SettlesLongEnough;
    if k > 0 {
      SealsStaySound(l, run, steps, k - 1);
      assert Takes(l, run[k - 1], steps[k - 1], run[k - 1 + 1]);
      NumberedIsKept(l, run[k - 1], steps[k - 1]);
      SoundIsKept(l, run[k - 1], steps[k - 1]);
    }
  }

  /** In particular no event ever commits into a sealed range. */
  lemma NoCommitIntoSealed(l: Limits, run: seq<State>, steps: seq<Step>, k: nat)
    requires Run(l, run, steps) && SettlesLongEnough(l) && k < |steps| && steps[k].Commit?
    ensures steps[k].event.number > LastTo(run[k].seals)
  {
    SealsStaySound(l, run, steps, k);
    assert Takes(l, run[k], steps[k], run[k + 1]);
  }

  /**
   * A shorter window is not enough, by however little: one event is numbered late in its statement, right after
   * another that is still open; the first is then old enough to seal while the second, numbered below it, has yet to
   * commit.
   */
  lemma ShorterWindowIsUnsound(l: Limits) returns (run: seq<State>, steps: seq<Step>)
    requires !SettlesLongEnough(l)
    ensures Run(l, run, steps) && !AllMatch(Last(run).trail, Last(run).seals)
  {
    var early, late := Event(1, l.skew, 0), Event(2, 0, 0);
    var end := l.skew + l.stay;
    var s0 := Initial(l.skew);
    var s1 := State(l.skew, [l.skew, l.skew], {early}, map[], [], 1);
    var s2 := State(l.skew, [l.skew, l.skew, l.skew], {early, late}, map[], [], 1);
    var s3 := State(l.skew, [l.skew, l.skew, l.skew], {early}, map[2 := late], [], 1);
    var s4 := s3.(now := end);
    var range := [late];
    var seal := Seal(1, 1, 2, 1, None, Hash(None, range), end);
    var s5 := s4.(seals := [seal], nextId := 2);
    var s6 := s5.(flights := {}, trail := map[2 := late][1 := early]);
    steps := [Insert(l.skew, 0), Insert(0, 0), Commit(late), Tick(end), SealAudit, Commit(early)];
    run := [s0, s1, s2, s3, s4, s5, s6];
    assert s2.flights - {late} == {early} && s5.flights - {early} == {};
    assert Range(s4.trail, 1, 2) == range by {
      assert Range(s4.trail, 1, 1) == Range(s4.trail, 1, 0) == [];
    }
    assert HighestSettled(s4.trail, 1, end - l.settle, 3) == Some(2);
    assert Range(s6.trail, 1, 2) == [early, late] by {
      assert Range(s6.trail, 1, 1) == Range(s6.trail, 1, 0) + [early] == [early];
    }
    assert !Matches(s6.trail, s6.seals[0]);
  }

  // ---- the job, as it runs against the tables ---------------------------------------------------------------------

  class SealJob {
    var trail: Trail
    var seals: seq<Seal>
    var nextId: nat

    /** Seals all events older than the settle window, under the advisory lock; `top` is the highest number there is. */
    method Run(top: nat, now: int, settle: nat) returns (made: Option<Seal>)
      requires Chained(seals) && AllMatch(trail, seals) && (forall k :: 0 <= k < |seals| ==> seals[k].id < nextId)
      modifies this`seals, this`nextId
      ensures made == NextSeal(trail, top, old(seals), old(nextId), now, settle)
      ensures seals == old(seals) + if made.Some? then [made.value] else []
      ensures Chained(seals) && AllMatch(trail, seals) && forall k :: 0 <= k < |seals| ==> seals[k].id < nextId
      ensures made.None? <==> forall n :: n in trail && LastTo(old(seals)) < n <= top ==> trail[n].at >= now - settle
      // The seal made covers all from the last seal to the latest event that has settled.
      ensures made.Some? ==>
                && made.value.fromSeq == LastTo(old(seals)) + 1
                && made.value.toSeq in trail && made.value.fromSeq <= made.value.toSeq <= top
                && trail[made.value.toSeq].at < now - settle
                && (forall n :: n in trail && made.value.toSeq < n <= top ==> trail[n].at >= now - settle)
                && made.value.id == old(nextId) && nextId == old(nextId) + 1 && made.value.sealedAt == now
      ensures made.None? ==> nextId == old(nextId)
    {
      hide Chained, AllMatch, Range;
      var last := if seals == [] then None else Some(Last(seals));
      var fromSeq := if last.Some? then last.value.toSeq + 1 else 1;
      var upper := HighestSettled(trail, fromSeq, now - settle, top);
      if upper.None? { return None; }
      var prev := if last.Some? then Some(last.value.hash) else None;
      var events := Range(trail, fromSeq, upper.value);
      var seal := Seal(nextId, fromSeq, upper.value, |events|, prev, Hash(prev, events), now);
      AppendedChain(trail, seals, seal);
      seals := seals + [seal];
      nextId := nextId + 1;
      made := Some(seal);
    }
  }
}
