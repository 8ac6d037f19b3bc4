/**
 * `executeCommand` of packages/commands/src/pipeline.ts over the idempotency keys of
 * packages/db/migrations/0002_idempotency.sql: any number of attempts at once, each failing wherever it may.
 */
module CommandPipeline {
  import opened Sequences
  import opened CanonicalJson

  datatype Actor = Actor(id: string, surface: string)

  datatype Request = Request(name: string, actor: Actor, payload: Value, key: Option<string>, financial: bool)

  /** The digest is taken as ideal: it stands for what it was taken of. */
  type Digest = Json

  function RequestHash(name: string, actor: Actor, payload: Value): Digest {
    Canonical(Obj(["name", "actor", "surface", "payload"],
                  map["name" := Str(name), "actor" := Str(actor.id), "surface" := Str(actor.surface),
                      "payload" := payload]))
  }

  function HashOf(r: Request): Digest {
    RequestHash(r.name, r.actor, r.payload)
  }

  datatype Slot = Slot(name: string, key: string)

  datatype Row = Row(hash: Digest, status: Status)

  datatype Status = Pending | Completed(response: Json)

  datatype Outcome<+T> =
    | Executed(result: T)
    | Replayed(result: T)
    | KeyRequired
    | KeyReused
    | InProgress
    | Failed

  /** The stored form of a result. */
  function Response(result: Value): Json {
    Canonical(Obj(["result"], map["result" := result]))
  }

  function StoredResult(response: Json): Option<Value> {
    var v := Revive(response);
    if v.Some? && v.value.Obj? && "result" in v.value.fields then Some(v.value.fields["result"]) else None
  }

  /**
   * Where an attempt is: it has begun; it has inserted its claim; it has found a committed row instead; it has been
   * authorized to replay that row, or to run the handler; the handler has returned; its row, if any, is completed.
   */
  datatype Phase =
    | Begun
    | Claimed
    | Found(row: Row)
    | MayReplay(response: Json)
    | MayHandle
    | Handled(result: Value)
    | Stored(result: Value)
    | Ended(outcome: Outcome<Value>)

  datatype Attempt = Attempt(request: Request, phase: Phase, authorized: bool)

  /** An effect is what a handler wrote, committed with its attempt. */
  datatype Effect = Effect(attempt: nat, request: Request, result: Value)

  datatype State = State(attempts: seq<Attempt>, rows: map<Slot, Row>, effects: seq<Effect>)

  datatype Step =
    | Begin(request: Request)
    | Claim(a: nat)
    | Authorize(a: nat, passes: bool)
    | Handle(a: nat, result: Value)
    | Store(a: nat)
    | Commit(a: nat)
    /** A handler that throws, a lost connection, a failed serialization: the transaction rolls back. */
    | Fail(a: nat)

  const START := State([], map[], [])

  function SlotOf(r: Request): Slot
    requires r.key.Some?
  {
    Slot(r.name, r.key.value)
  }

  /** The attempt's own claim, written and not yet committed. */
  predicate HoldsClaim(t: Attempt) {
    t.request.key.Some? && (t.phase.Claimed? || t.phase.MayHandle? || t.phase.Handled? || t.phase.Stored?)
  }

  /** Someone's uncommitted claim of a slot, which an insert of the same key waits for. */
  ghost predicate ClaimedBy(s: State, slot: Slot, a: nat) {
    a < |s.attempts| && HoldsClaim(s.attempts[a]) && SlotOf(s.attempts[a].request) == slot
  }

  ghost predicate InFlight(s: State, slot: Slot) {
    exists a :: ClaimedBy(s, slot, a)
  }

  ghost predicate Possible(s: State, step: Step) {
    (!step.Begin? ==> step.a < |s.attempts|) &&
    match step
    case Begin(_) => true
    case Claim(a) => s.attempts[a].phase.Begun? && s.attempts[a].request.key.Some?
      && !InFlight(s, SlotOf(s.attempts[a].request))
    case Authorize(a, _) =>
      var t := s.attempts[a];
      t.phase.Claimed? || (t.phase.Begun? && t.request.key.None?) || t.phase.Found?
    case Handle(a, _) => s.attempts[a].phase.MayHandle?
    case Store(a) => s.attempts[a].phase.Handled?
    case Commit(a) => s.attempts[a].phase.Stored? || s.attempts[a].phase.MayReplay?
    case Fail(a) => !s.attempts[a].phase.Ended?
  }

  function Started(r: Request): Attempt {
    Attempt(r, if r.financial && r.key.None? then Ended(KeyRequired) else Begun, false)
  }

  function Claiming(t: Attempt, rows: map<Slot, Row>): Attempt
    requires t.request.key.Some?
  {
    var slot := SlotOf(t.request);
    t.(phase := if slot in rows then Found(rows[slot]) else Claimed)
  }

  function Authorizing(t: Attempt, passes: bool): Attempt {
    if t.phase.Found? && t.phase.row.hash != HashOf(t.request) then t.(phase := Ended(KeyReused))
    else if t.phase.Found? && t.phase.row.status.Pending? then t.(phase := Ended(InProgress))
    else if !passes then t.(phase := Ended(Failed))
    else t.(phase := if t.phase.Found? then MayReplay(t.phase.row.status.response) else MayHandle, authorized := true)
  }

  function Replaying(t: Attempt): Attempt
    requires t.phase.MayReplay?
  {
    var r := StoredResult(t.phase.response);
    t.(phase := Ended(if r.Some? then Replayed(r.value) else Failed))
  }

  function After(s: State, step: Step): State
    requires Possible(s, step)
  {
    match step
    case Begin(r) => s.(attempts := s.attempts + [Started(r)])
    case Claim(a) => s.(attempts := s.attempts[a := Claiming(s.attempts[a], s.rows)])
    case Authorize(a, passes) => s.(attempts := s.attempts[a := Authorizing(s.attempts[a], passes)])
    case Handle(a, result) => s.(attempts := s.attempts[a := s.attempts[a].(phase := Handled(result))])
    case Store(a) => s.(attempts := s.attempts[a := s.attempts[a].(phase := Stored(s.attempts[a].phase.result))])
    case Commit(a) => Committed(s, a)
    case Fail(a) => s.(attempts := s.attempts[a := s.attempts[a].(phase := Ended(Failed))])
  }

  function Committed(s: State, a: nat): State
    requires a < |s.attempts| && (s.attempts[a].phase.Stored? || s.attempts[a].phase.MayReplay?)
  {
    var t := s.attempts[a];
    if t.phase.MayReplay? then s.(attempts := s.attempts[a := Replaying(t)])
    else
      var result := t.phase.result;
      State(s.attempts[a := t.(phase := Ended(Executed(result)))],
            if t.request.key.Some? then s.rows[SlotOf(t.request) := Row(HashOf(t.request), Completed(Response(result)))]
            else s.rows,
            s.effects + [Effect(a, t.request, result)])
  }

  ghost predicate Goes(s: State, step: Step, t: State) {
    Possible(s, step) && t == After(s, step)
  }

  ghost predicate Run(run: seq<State>, steps: seq<Step>) {
    && |run| == |steps| + 1 && run[0] == START
    && forall i, j :: 0 <= i < |steps| && j == i + 1 ==> Goes(run[i], steps[i], run[j])
  }

  // ---- the invariant ----------------------------------------------------------------------------------------------

  /** One committed effect at most for each slot. */
  ghost predicate OnceEach(effects: seq<Effect>) {
    forall i, j :: 0 <= i < j < |effects| && effects[i].request.key.Some? && effects[j].request.key.Some? ==>
      SlotOf(effects[i].request) != SlotOf(effects[j].request)
  }

  ghost predicate Wrote(effects: seq<Effect>, i: nat, slot: Slot) {
    i < |effects| && effects[i].request.key.Some? && SlotOf(effects[i].request) == slot
  }

  /** Which effect a row tells of: of its request, with its result. */
  ghost predicate Tells(effects: seq<Effect>, i: nat, slot: Slot, row: Row) {
    Wrote(effects, i, slot) && row == Row(HashOf(effects[i].request), Completed(Response(effects[i].result)))
  }

  /**
   * A committed row is never pending: it tells of the one effect of its slot; and every effect with a key has its row.
   */
  ghost predicate RowsTell(s: State) {
    && (forall slot :: slot in s.rows ==> exists i: nat :: Tells(s.effects, i, slot, s.rows[slot]))
    && (forall i: nat, slot :: Wrote(s.effects, i, slot) ==> slot in s.rows)
  }

  /** An uncommitted claim is the only one of its slot, and no row is committed there. */
  ghost predicate ClaimsExclude(s: State) {
    && (forall slot, a, b :: ClaimedBy(s, slot, a) && ClaimedBy(s, slot, b) ==> a == b)
    && (forall slot, a :: ClaimedBy(s, slot, a) ==> slot !in s.rows)
  }

  /** What an attempt has come by honestly, at each phase. */
  ghost predicate Earned(s: State, a: nat)
    requires a < |s.attempts|
  {
    var t := s.attempts[a];
    match t.phase
    case Found(row) => t.request.key.Some? && exists i: nat :: Tells(s.effects, i, SlotOf(t.request), row)
    case MayReplay(response) => t.authorized && ReplayOf(s, t.request, response)
    case MayHandle => t.authorized
    case Handled(_) => t.authorized
    case Stored(_) => t.authorized
    case Ended(o) =>
      && (o.Executed? ==> t.authorized && Effect(a, t.request, o.result) in s.effects)
      && (o.Replayed? ==>
            t.authorized
            && exists response :: ReplayOf(s, t.request, response) && StoredResult(response) == Some(o.result))
      && !o.InProgress?
    case _ => true
  }

  /** A response stored by a committed request of the same slot and hash. */
  ghost predicate ReplayOf(s: State, r: Request, response: Json) {
    r.key.Some? && exists i: nat :: Tells(s.effects, i, SlotOf(r), Row(HashOf(r), Completed(response)))
  }

  ghost predicate AllEarned(s: State) {
    forall a :: 0 <= a < |s.attempts| ==> Earned(s, a)
  }

  ghost predicate Inv(s: State) {
    OnceEach(s.effects) && RowsTell(s) && ClaimsExclude(s) && AllEarned(s)
  }

  /** Effects only ever grow, and what was earned stays so. */
  lemma EarnedStays(s: State, u: State, a: nat)
    requires a < |s.attempts| && a < |u.attempts| && u.attempts[a] == s.attempts[a] && Earned(s, a)
    requires |s.effects| <= |u.effects| && u.effects[..|s.effects|] == s.effects
    ensures Earned(u, a)
  {
    hide HashOf, Response, StoredResult;
    forall i: nat, slot, row | Tells(s.effects, i, slot, row)
      ensures Tells(u.effects, i, slot, row)
    {
      assert u.effects[..|s.effects|][i] == u.effects[i];
    }
    forall r, response | ReplayOf(s, r, response)
      ensures ReplayOf(u, r, response)
    {
      var i: nat :| Tells(s.effects, i, SlotOf(r), Row(HashOf(r), Completed(response)));
      assert Tells(u.effects, i, SlotOf(r), Row(HashOf(r), Completed(response)));
    }
    assert forall e :: e in s.effects ==> e in u.effects by {
      forall e | e in s.effects
        ensures e in u.effects
      {
        var i :| 0 <= i < |s.effects| && s.effects[i] == e;
        assert u.effects[..|s.effects|][i] == u.effects[i];
      }
    }
  }

  /** A step of attempt `a` alone, that commits nothing. */
  ghost predicate Moves(s: State, u: State, a: nat) {
    a < |s.attempts| == |u.attempts| && u == s.(attempts := s.attempts[a := u.attempts[a]])
    && u.attempts[a].request == s.attempts[a].request
  }

  lemma MoveKeeps(s: State, u: State, a: nat)
    requires Inv(s) && Moves(s, u, a) && Earned(u, a)
    requires HoldsClaim(u.attempts[a]) ==>
               HoldsClaim(s.attempts[a])
                 || (!InFlight(s, SlotOf(s.attempts[a].request)) && SlotOf(s.attempts[a].request) !in s.rows)
    ensures Inv(u)
  {
    hide HashOf, Response, StoredResult, Earned, OnceEach, RowsTell;
    forall b | 0 <= b < |u.attempts|
      ensures Earned(u, b)
    {
      if b != a { EarnedStays(s, u, b); }
    }
    forall slot, b | ClaimedBy(u, slot, b)
      ensures slot !in u.rows
    {
      if b != a || HoldsClaim(s.attempts[a]) { assert ClaimedBy(s, slot, b); }
    }
    forall slot, b, c | ClaimedBy(u, slot, b) && ClaimedBy(u, slot, c)
      ensures b == c
    {
      assert b != a ==> ClaimedBy(s, slot, b);
      assert c != a ==> ClaimedBy(s, slot, c);
      assert HoldsClaim(s.attempts[a]) ==> (b == a ==> ClaimedBy(s, slot, a)) && (c == a ==> ClaimedBy(s, slot, a));
    }
    assert RowsTell(u) by { SameRows(s, u); }
  }

  lemma SameRows(s: State, u: State)
    requires RowsTell(s) && u.rows == s.rows && u.effects == s.effects
    ensures RowsTell(u)
  {
  }

  lemma BeginKeeps(s: State, r: Request)
    requires Inv(s)
    ensures Inv(After(s, Begin(r)))
  {
    hide HashOf, Response, StoredResult, OnceEach, RowsTell;
    var u := After(s, Begin(r));
    forall b | 0 <= b < |u.attempts|
      ensures Earned(u, b)
    {
      if b < |s.attempts| { EarnedStays(s, u, b); }
    }
    assert forall slot, b :: ClaimedBy(u, slot, b) ==> ClaimedBy(s, slot, b);
    assert RowsTell(u) by { SameRows(s, u); }
  }

  /** A found row is one that a committed effect tells of, so it is never pending. */
  lemma AuthorizeEarns(s: State, a: nat, passes: bool)
    requires Inv(s) && Possible(s, Authorize(a, passes))
    ensures Earned(After(s, Authorize(a, passes)), a)
  {
    hide HashOf, Response, StoredResult, OnceEach, RowsTell, ClaimsExclude, InFlight;
    var t, u := s.attempts[a], After(s, Authorize(a, passes));
    assert Earned(s, a);
    if t.phase.Found? {
      var i: nat :| Tells(s.effects, i, SlotOf(t.request), t.phase.row);
      assert Tells(u.effects, i, SlotOf(t.request), t.phase.row);
    }
  }

  lemma ClaimEarns(s: State, a: nat)
    requires Inv(s) && Possible(s, Claim(a))
    ensures Earned(After(s, Claim(a)), a)
  {
    hide HashOf, Response, StoredResult, OnceEach, ClaimsExclude, InFlight, AllEarned;
    var slot := SlotOf(s.attempts[a].request);
    if slot in s.rows {
      var i: nat :| Tells(s.effects, i, slot, s.rows[slot]);
      assert Tells(After(s, Claim(a)).effects, i, slot, s.rows[slot]);
    }
  }

  lemma ReplayEarns(s: State, a: nat)
    requires Inv(s) && a < |s.attempts| && s.attempts[a].phase.MayReplay?
    ensures Earned(After(s, Commit(a)), a)
  {
    hide HashOf, Response, StoredResult, OnceEach, ClaimsExclude, RowsTell;
    assert Earned(s, a);
    var t, u := s.attempts[a], After(s, Commit(a));
    assert ReplayOf(s, t.request, t.phase.response);
    assert ReplayOf(u, t.request, t.phase.response) by { SameEffects(s, u, t.request, t.phase.response); }
  }

  lemma SameEffects(s: State, u: State, r: Request, response: Json)
    requires ReplayOf(s, r, response) && u.effects == s.effects
    ensures ReplayOf(u, r, response)
  {
  }

  /** Committing a handled request: its slot, if it has one, had no row and nobody else's claim. */
  lemma CommitKeeps(s: State, a: nat)
    requires Inv(s) && a < |s.attempts| && s.attempts[a].phase.Stored?
    ensures Inv(After(s, Commit(a)))
  {
    hide HashOf, Response, StoredResult, OnceEach, RowsTell;
    var t, u := s.attempts[a], After(s, Commit(a));
    assert Earned(s, a);
    assert Last(u.effects) == Effect(a, t.request, t.phase.result) && u.effects[..|s.effects|] == s.effects;
    forall b | 0 <= b < |u.attempts|
      ensures Earned(u, b)
    {
      if b != a { EarnedStays(s, u, b); }
    }
    assert t.request.key.Some? ==> ClaimedBy(s, SlotOf(t.request), a);
    assert forall slot, b :: ClaimedBy(u, slot, b) ==> b != a && ClaimedBy(s, slot, b);
    CommitTells(s, a);
  }

  lemma CommitTells(s: State, a: nat)
    requires OnceEach(s.effects) && RowsTell(s) && a < |s.attempts| && s.attempts[a].phase.Stored?
    requires s.attempts[a].request.key.Some? ==> SlotOf(s.attempts[a].request) !in s.rows
    ensures var u := After(s, Commit(a));
            OnceEach(u.effects) && RowsTell(u)
  {
    hide HashOf, Response;
    var t, u, n := s.attempts[a], After(s, Commit(a)), |s.effects|;
    assert forall i :: 0 <= i < n ==> u.effects[i] == s.effects[i];
    assert forall i: nat, slot :: i < n ==> (Wrote(u.effects, i, slot) <==> Wrote(s.effects, i, slot));
    forall slot | slot in u.rows
      ensures exists i: nat :: Tells(u.effects, i, slot, u.rows[slot])
    {
      if t.request.key.Some? && slot == SlotOf(t.request) {
        assert Tells(u.effects, n, slot, u.rows[slot]);
      } else {
        var i: nat :| Tells(s.effects, i, slot, s.rows[slot]);
        assert Tells(u.effects, i, slot, u.rows[slot]);
      }
    }
    forall i, j | 0 <= i < j < |u.effects| && u.effects[i].request.key.Some? && u.effects[j].request.key.Some?
      ensures SlotOf(u.effects[i].request) != SlotOf(u.effects[j].request)
    {
      assert Wrote(s.effects, i, SlotOf(u.effects[i].request));
    }
  }

  lemma StepKeeps(s: State, step: Step)
    requires Inv(s) && Possible(s, step)
    ensures Inv(After(s, step))
  {
    hide Inv, HashOf, Response, StoredResult, InFlight, Earned;
    var u := After(s, step);
    match step {
      case Begin(r) => BeginKeeps(s, r);
      case Claim(a) =>
        ClaimEarns(s, a);
        MoveKeeps(s, u, a);
      case Authorize(a, passes) =>
        AuthorizeEarns(s, a, passes);
        MoveKeeps(s, u, a);
      case Handle(a, _) =>
        HandlerEarns(s, step);
        MoveKeeps(s, u, a);
      case Store(a) =>
        HandlerEarns(s, step);
        MoveKeeps(s, u, a);
      case Commit(a) =>
        if s.attempts[a].phase.Stored? {
          CommitKeeps(s, a);
        } else {
          ReplayEarns(s, a);
          MoveKeeps(s, u, a);
        }
      case Fail(a) =>
        HandlerEarns(s, step);
        MoveKeeps(s, u, a);
    }
  }

  lemma HandlerEarns(s: State, step: Step)
    requires Inv(s) && Possible(s, step) && (step.Handle? || step.Store? || step.Fail?)
    ensures Earned(After(s, step), step.a)
  {
    hide OnceEach, RowsTell, ClaimsExclude;
    assert Earned(s, step.a);
  }

  lemma {:induction false} RunsKeep(run: seq<State>, steps: seq<Step>, k: nat)
    requires Run(run, steps) && k < |run|
    ensures Inv(run[k])
  {
    hide Inv, Possible, After;
    if k > 0 {
      RunsKeep(run, steps, k - 1);
      assert Goes(run[k - 1], steps[k - 1], run[k]);
      StepKeeps(run[k - 1], steps[k - 1]);
    } else {
      StartHolds();
    }
  }

  lemma StartHolds()
    ensures Inv(START)
  {
  }

  // ---- what it comes to -------------------------------------------------------------------------------------------

  /**
   * Whatever is interleaved, fails or is retried, the effects of a command's key commit at most once, and completed.
   */
  lemma CommitsAtMostOnce(run: seq<State>, steps: seq<Step>, k: nat)
    requires Run(run, steps) && k < |run|
    ensures forall i, j ::
              0 <= i < j < |run[k].effects| && run[k].effects[i].request.key.Some? ==>
                  run[k].effects[i].request.name != run[k].effects[j].request.name
                  || run[k].effects[i].request.key != run[k].effects[j].request.key
    ensures forall slot :: slot in run[k].rows ==> run[k].rows[slot].status.Completed?
  {
    hide Run, ClaimsExclude, AllEarned, HashOf, Response;
    RunsKeep(run, steps, k);
    forall slot | slot in run[k].rows
      ensures run[k].rows[slot].status.Completed?
    {
      var i: nat :| Tells(run[k].effects, i, slot, run[k].rows[slot]);
    }
  }

  ghost predicate IsExecuted(s: State, i: nat)
    requires i < |s.effects|
  {
    var e := s.effects[i];
    e.attempt < |s.attempts| && s.attempts[e.attempt].request == e.request
      && s.attempts[e.attempt].phase == Ended(Executed(e.result))
  }

  /** Every committed effect is that of an attempt answered with it: an attempt that fails leaves nothing behind. */
  lemma {:induction false} EffectsAreExecuted(run: seq<State>, steps: seq<Step>, k: nat, i: nat)
    requires Run(run, steps) && k < |run| && i < |run[k].effects|
    ensures IsExecuted(run[k], i)
    decreases k
  {
    hide HashOf, Response, StoredResult, InFlight;
    if k > 0 {
      var s, u := run[k - 1], run[k];
      assert Goes(s, steps[k - 1], u);
      if i < |s.effects| { EffectsAreExecuted(run, steps, k - 1, i); }
    }
  }

  /**
   * Two keyed requests are taken for the same one exactly when they are: the command, who asks, from where, for what.
   */
  lemma SameHashSameRequest(r: Request, q: Request)
    requires Proper(r.payload) && Proper(q.payload) && NoBigintKey(r.payload) && NoBigintKey(q.payload)
    ensures HashOf(r) == HashOf(q) <==> r.name == q.name && r.actor == q.actor && Like(r.payload, q.payload)
  {
    hide Like, NoBigintKey, Proper;
    var f := Canonicals(r);
    var g := Canonicals(q);
    if HashOf(r) == HashOf(q) {
      assert f["name"] == g["name"] && f["actor"] == g["actor"] && f["surface"] == g["surface"]
             && f["payload"] == g["payload"];
      CanonicalIsLike(r.payload, q.payload);
    }
    if r.name == q.name && r.actor == q.actor && Like(r.payload, q.payload) {
      LikeIsCanonical(r.payload, q.payload);
      assert f == g;
    }
  }

  /** A request that hashes like one without a `$bigint` key asks for something else exactly when it has such a key. */
  lemma SharedHash(r: Request, q: Request)
    requires NoBigintKey(r.payload) && HashOf(r) == HashOf(q)
    ensures r.name == q.name && r.actor == q.actor
    ensures Like(r.payload, q.payload) <==> NoBigintKey(q.payload)
  {
    hide Like, NoBigintKey;
    var f := Canonicals(r);
    var g := Canonicals(q);
    assert f["name"] == g["name"] && f["actor"] == g["actor"] && f["surface"] == g["surface"]
           && f["payload"] == g["payload"];
    BigintKeysCollide(r.payload, q.payload);
  }

  /** The fields that a request's hash is of. */
  lemma Canonicals(r: Request) returns (fields: map<string, Json>)
    ensures HashOf(r) == JObj(Sort(Less, ["name", "actor", "surface", "payload"]), fields)
    ensures fields == map["name" := JStr(r.name), "actor" := JStr(r.actor.id), "surface" := JStr(r.actor.surface),
                          "payload" := Canonical(r.payload)]
  {
    hide Sort;
    assert "surface"[0] != "payload"[0];
    fields := HashOf(r).fields;
    var m := map["name" := Str(r.name), "actor" := Str(r.actor.id), "surface" := Str(r.actor.surface),
                 "payload" := r.payload];
    assert fields == map k | k in m :: Canonical(m[k]);
    assert m["name"] == Str(r.name) && m["actor"] == Str(r.actor.id) && m["surface"] == Str(r.actor.surface)
           && m["payload"] == r.payload;
    assert fields.Keys == {"name", "actor", "surface", "payload"};
  }

  lemma StoredResultIs(v: Value)
    ensures StoredResult(Response(v)) == Revive(Canonical(v))
  {
    hide Sort, AsBig;
    var j := Response(v);
    assert j.fields == map["result" := Canonical(v)];
    assert "result" in j.fields && BIGINT != "result";
    var r := Revive(j);
    assert r.Some? <==> Revive(Canonical(v)).Some?;
  }

  /**
   * A replay is authorized now; it answers a request whose hash is that of the one request of its key that was
   * executed; and its answer is that one's, exactly when no object in that holds a `$bigint` key.
   */
  lemma ReplaysTheFirst(run: seq<State>, steps: seq<Step>, k: nat, a: nat) returns (first: Effect)
    requires Run(run, steps) && k < |run| && a < |run[k].attempts|
    requires run[k].attempts[a].phase.Ended? && run[k].attempts[a].phase.outcome.Replayed?
    ensures var t := run[k].attempts[a];
            && t.authorized && t.request.key.Some? && first in run[k].effects
            && first.request.key.Some? && SlotOf(first.request) == SlotOf(t.request)
            && HashOf(first.request) == HashOf(t.request)
            && (Proper(first.result) ==> (Like(first.result, t.phase.outcome.result) <==> NoBigintKey(first.result)))
  {
    hide Run, ClaimsExclude, OnceEach, RowsTell, HashOf, Response, StoredResult, Like, NoBigintKey, Proper, Canonical,
         Revive;
    RunsKeep(run, steps, k);
    var s, t := run[k], run[k].attempts[a];
    assert Earned(s, a);
    var response :| ReplayOf(s, t.request, response) && StoredResult(response) == Some(t.phase.outcome.result);
    var i: nat :| Tells(s.effects, i, SlotOf(t.request), Row(HashOf(t.request), Completed(response)));
    first := s.effects[i];
    StoredResultIs(first.result);
    if Proper(first.result) { ReadsBackIff(first.result); }
  }

  /** What an attempt answers is true: executed means committed and authorized, and nobody is ever told to wait. */
  lemma AnswersAreTrue(run: seq<State>, steps: seq<Step>, k: nat, a: nat)
    requires Run(run, steps) && k < |run| && a < |run[k].attempts| && run[k].attempts[a].phase.Ended?
    ensures var t := run[k].attempts[a];
            && t.phase.outcome != InProgress
            && (t.phase.outcome.Executed? ==>
                  t.authorized && Effect(a, t.request, t.phase.outcome.result) in run[k].effects)
  {
    hide Run, ClaimsExclude, OnceEach, RowsTell, HashOf, Response, StoredResult;
    RunsKeep(run, steps, k);
    assert Earned(run[k], a);
  }

  ghost predicate WasAuthorized(steps: seq<Step>, k: nat, a: nat) {
    exists j :: 0 <= j < k && j < |steps| && steps[j] == Authorize(a, true)
  }

  /** Phases that only a passed authorization leads to. */
  predicate BeyondAuthorization(p: Phase) {
    || p.MayReplay? || p.MayHandle? || p.Handled? || p.Stored?
    || (p.Ended? && (p.outcome.Executed? || p.outcome.Replayed?))
  }

  lemma StepFromAuthorization(s: State, step: Step, u: State, a: nat)
    requires Goes(s, step, u) && a < |u.attempts| && BeyondAuthorization(u.attempts[a].phase)
    ensures step == Authorize(a, true) || (a < |s.attempts| && BeyondAuthorization(s.attempts[a].phase))
  {
    hide HashOf, StoredResult, Response, InFlight;
  }

  /** No attempt comes to its handler, or to a replay, but by an authorization that passed. */
  lemma {:induction false} OnlyIfAuthorized(run: seq<State>, steps: seq<Step>, k: nat, a: nat)
    requires Run(run, steps) && k < |run| && a < |run[k].attempts| && BeyondAuthorization(run[k].attempts[a].phase)
    ensures WasAuthorized(steps, k, a)
    decreases k
  {
    hide Goes, BeyondAuthorization;
    assert k > 0;
    assert Goes(run[k - 1], steps[k - 1], run[k]);
    StepFromAuthorization(run[k - 1], steps[k - 1], run[k], a);
    if steps[k - 1] != Authorize(a, true) {
      OnlyIfAuthorized(run, steps, k - 1, a);
      var j :| 0 <= j < k - 1 && steps[j] == Authorize(a, true);
      assert steps[j] == Authorize(a, true);
    }
  }

  /** So whoever is answered with a result, executed or replayed, has passed authorization in this very attempt. */
  lemma AnsweredIsAuthorized(run: seq<State>, steps: seq<Step>, k: nat, a: nat)
    requires Run(run, steps) && k < |run| && a < |run[k].attempts|
    requires run[k].attempts[a].phase.Ended?
    requires run[k].attempts[a].phase.outcome.Executed? || run[k].attempts[a].phase.outcome.Replayed?
    ensures exists j :: 0 <= j < k && steps[j] == Authorize(a, true)
  {
    OnlyIfAuthorized(run, steps, k, a);
  }

  // ---- one attempt, statement by statement ------------------------------------------------------------------------

  datatype Attempted = Attempted(outcome: Outcome<Value>, rows: map<Slot, Row>)

  /** What an attempt that nothing interleaves with comes to; `result` is what its handler returns, if it returns. */
  function Alone(rows: map<Slot, Row>, r: Request, passes: bool, result: Option<Value>): Attempted {
    if r.financial && r.key.None? then Attempted(KeyRequired, rows)
    else if r.key.Some? && SlotOf(r) in rows then Attempted(Finding(rows[SlotOf(r)], r, passes), rows)
    else if !passes || result.None? then Attempted(Failed, rows)
    else
      Attempted(Executed(result.value),
                if r.key.Some? then rows[SlotOf(r) := Row(HashOf(r), Completed(Response(result.value)))] else rows)
  }

  function Finding(row: Row, r: Request, passes: bool): Outcome<Value> {
    if row.hash != HashOf(r) then KeyReused
    else if row.status.Pending? then InProgress
    else if !passes then Failed
    else
      var stored := StoredResult(row.status.response);
      if stored.Some? then Replayed(stored.value) else Failed
  }

  class Store {
    var rows: map<Slot, Row>

    /** Any failure restores the rows, the claim among them. */
    method ExecuteCommand(r: Request, passes: bool, result: Option<Value>) returns (o: Outcome<Value>)
      modifies this
      ensures Attempted(o, rows) == Alone(old(rows), r, passes, result)
      // A command that moves money is refused without a key, and no other.
      ensures o.KeyRequired? <==> r.financial && r.key.None?
      // It is executed, and the rows change, exactly when nothing is committed under its name and key, authorization
      // passes and the handler returns.
      ensures o.Executed? <==>
                && !(r.financial && r.key.None?) && (r.key.Some? ==> Slot(r.name, r.key.value) !in old(rows))
                && passes && result.Some?
      ensures o.Executed? ==> o.result == result.value
      ensures rows == if o.Executed? && r.key.Some? then
                        old(rows)[Slot(r.name, r.key.value) := Row(HashOf(r), Completed(Response(result.value)))]
                      else old(rows)
      // What is committed there is replayed exactly to a request of the same hash that passes authorization.
      ensures o.KeyReused? <==>
                && r.key.Some? && Slot(r.name, r.key.value) in old(rows)
                && old(rows)[Slot(r.name, r.key.value)].hash != HashOf(r)
      ensures o.Replayed? <==>
                && r.key.Some? && Slot(r.name, r.key.value) in old(rows) && passes
                && var row := old(rows)[Slot(r.name, r.key.value)];
                   row.hash == HashOf(r) && row.status.Completed? && StoredResult(row.status.response).Some?
      ensures o.Replayed? ==>
                Some(o.result) == StoredResult(old(rows)[Slot(r.name, r.key.value)].status.response)
      ensures !passes ==> !o.Executed? && !o.Replayed? && rows == old(rows)
    {
      hide HashOf, Response, StoredResult;
      if r.financial && r.key.None? { return KeyRequired; }
      var hash, before := HashOf(r), rows;
      if r.key.Some? {
        var slot := SlotOf(r);
        if slot in rows {
          var existing := rows[slot];
          if existing.hash != hash { return KeyReused; }
          if existing.status.Pending? { return InProgress; }
          if !passes { return Failed; }
          var stored := StoredResult(existing.status.response);
          return if stored.Some? then Replayed(stored.value) else Failed;
        }
        rows := rows[slot := Row(hash, Pending)];
      }
      if !passes || result.None? {
        rows := before;
        return Failed;
      }
      if r.key.Some? {
        rows := rows[SlotOf(r) := Row(hash, Completed(Response(result.value)))];
        assert rows == before[SlotOf(r) := Row(hash, Completed(Response(result.value)))];
      }
      o := Executed(result.value);
    }
  }

  /** Where some steps lead, if they can all be taken. */
  ghost function Follow(s: State, steps: seq<Step>): Option<State>
    decreases |steps|
  {
    if steps == [] then Some(s) else if Possible(s, steps[0]) then Follow(After(s, steps[0]), steps[1..]) else None
  }

  lemma FollowFrom(s: State, step: Step, rest: seq<Step>)
    requires Possible(s, step)
    ensures Follow(s, [step] + rest) == Follow(After(s, step), rest)
  {
    assert ([step] + rest)[1..] == rest;
  }

  /** Authorization and handler do in these steps what they are said to do. */
  ghost predicate AsTold(steps: seq<Step>, a: nat, passes: bool, result: Option<Value>) {
    forall step :: step in steps ==>
      && (step.Authorize? ==> step == Authorize(a, passes))
      && (step.Handle? ==> step.a == a && result == Some(step.result))
  }

  lemma ToldFirst(step: Step, rest: seq<Step>, a: nat, passes: bool, result: Option<Value>)
    requires AsTold(rest, a, passes, result) && (step.Authorize? ==> step == Authorize(a, passes)) && !step.Handle?
    ensures AsTold([step] + rest, a, passes, result)
  {
  }

  /** The last attempt as it stands, over rows, with everything else as it was. */
  ghost predicate At(s: State, u: State, t: Attempt, rows: map<Slot, Row>) {
    u.attempts == s.attempts + [t] && u.rows == rows
  }

  /** From a handler that may run on: whatever it does, the answer is that of the attempt by itself. */
  lemma RunsOn(s: State, u: State, t: Attempt, result: Option<Value>) returns (steps: seq<Step>)
    requires At(s, u, t, s.rows) && t.phase.MayHandle?
    ensures forall passes :: AsTold(steps, |s.attempts|, passes, result)
    ensures var v, a := Follow(u, steps), |s.attempts|;
            v.Some? && |v.value.attempts| == a + 1 && v.value.attempts[..a] == s.attempts &&
            if result.None? then v.value.attempts[a].phase == Ended(Failed) && v.value.rows == s.rows
            else
              && v.value.attempts[a].phase == Ended(Executed(result.value))
              && v.value.rows
                 == if t.request.key.Some? then
                      s.rows[SlotOf(t.request) := Row(HashOf(t.request), Completed(Response(result.value)))]
                    else s.rows
  {
    hide HashOf, Response, StoredResult, InFlight, Follow;
    var a := |s.attempts|;
    if result.None? {
      steps := [Fail(a)] + [];
      FollowFrom(u, Fail(a), []);
      FollowNone(After(u, Fail(a)));
    } else {
      var u1 := After(u, Handle(a, result.value));
      var u2 := After(u1, Store(a));
      steps := [Handle(a, result.value)] + ([Store(a)] + ([Commit(a)] + []));
      FollowFrom(u, Handle(a, result.value), [Store(a)] + ([Commit(a)] + []));
      FollowFrom(u1, Store(a), [Commit(a)] + []);
      FollowFrom(u2, Commit(a), []);
      FollowNone(After(u2, Commit(a)));
    }
  }

  lemma FollowNone(s: State)
    ensures Follow(s, []) == Some(s)
  {
  }

  /** From a committed row that was found. */
  lemma RunsOut(s: State, u: State, t: Attempt, row: Row, passes: bool) returns (steps: seq<Step>)
    requires At(s, u, t, s.rows) && t.phase == Found(row)
    ensures forall result :: AsTold(steps, |s.attempts|, passes, result)
    ensures var v, a := Follow(u, steps), |s.attempts|;
            && v.Some? && |v.value.attempts| == a + 1 && v.value.attempts[..a] == s.attempts
            && v.value.attempts[a].phase == Ended(Finding(row, t.request, passes)) && v.value.rows == s.rows
  {
    hide HashOf, Response, StoredResult, InFlight, Follow;
    var a := |s.attempts|;
    var u1 := After(u, Authorize(a, passes));
    if u1.attempts[a].phase.Ended? {
      steps := [Authorize(a, passes)] + [];
      FollowFrom(u, Authorize(a, passes), []);
      FollowNone(u1);
    } else {
      steps := [Authorize(a, passes)] + ([Commit(a)] + []);
      FollowFrom(u, Authorize(a, passes), [Commit(a)] + []);
      FollowFrom(u1, Commit(a), []);
      FollowNone(After(u1, Commit(a)));
    }
  }

  /** An attempt that nothing interleaves with is one of the ways the attempts above can go: same answer, same rows. */
  lemma AloneIsARun(s: State, r: Request, passes: bool, result: Option<Value>) returns (steps: seq<Step>)
    requires r.key.Some? ==> !InFlight(s, SlotOf(r))
    ensures var v, alone, a := Follow(s, steps), Alone(s.rows, r, passes, result), |s.attempts|;
            && v.Some? && |v.value.attempts| == a + 1 && v.value.attempts[..a] == s.attempts
            && v.value.attempts[a].phase == Ended(alone.outcome) && v.value.rows == alone.rows
    ensures AsTold(steps, |s.attempts|, passes, result)
  {
    hide HashOf, Response, StoredResult, InFlight, Follow, Finding;
    var a := |s.attempts|;
    var u := After(s, Begin(r));
    if r.financial && r.key.None? {
      steps := [Begin(r)] + [];
      FollowFrom(s, Begin(r), []);
      FollowNone(u);
      return;
    }
    var rest, w := [], u;
    if r.key.Some? {
      BegunClaimsNothing(s, r);
      w := After(u, Claim(a));
    }
    if w.attempts[a].phase.Found? {
      rest := RunsOut(s, w, w.attempts[a], s.rows[SlotOf(r)], passes);
    } else {
      rest := Authorizes(s, w, w.attempts[a], passes, result);
    }
    if r.key.Some? {
      FollowFrom(u, Claim(a), rest);
      ToldFirst(Claim(a), rest, a, passes, result);
      rest := [Claim(a)] + rest;
    }
    FollowFrom(s, Begin(r), rest);
    ToldFirst(Begin(r), rest, a, passes, result);
    steps := [Begin(r)] + rest;
  }

  lemma BegunClaimsNothing(s: State, r: Request)
    requires r.key.Some? && !InFlight(s, SlotOf(r))
    ensures !InFlight(After(s, Begin(r)), SlotOf(r))
  {
    var u := After(s, Begin(r));
    assert forall b, slot :: ClaimedBy(u, slot, b) ==> ClaimedBy(s, slot, b);
  }

  lemma Authorizes(s: State, u: State, t: Attempt, passes: bool, result: Option<Value>) returns (steps: seq<Step>)
    requires At(s, u, t, s.rows) && (t.phase.Claimed? || (t.phase.Begun? && t.request.key.None?))
    ensures AsTold(steps, |s.attempts|, passes, result)
    ensures var v, a := Follow(u, steps), |s.attempts|;
            v.Some? && |v.value.attempts| == a + 1 && v.value.attempts[..a] == s.attempts &&
            if !passes || result.None? then v.value.attempts[a].phase == Ended(Failed) && v.value.rows == s.rows
            else
              && v.value.attempts[a].phase == Ended(Executed(result.value))
              && v.value.rows
                 == if t.request.key.Some? then
                      s.rows[SlotOf(t.request) := Row(HashOf(t.request), Completed(Response(result.value)))]
                    else s.rows
  {
    hide HashOf, Response, StoredResult, InFlight, Follow;
    var a := |s.attempts|;
    var u1 := After(u, Authorize(a, passes));
    assert u1.attempts == s.attempts + [u1.attempts[a]];
    var rest := [];
    if passes { rest := RunsOn(s, u1, u1.attempts[a], result); } else { FollowNone(u1); }
    FollowFrom(u, Authorize(a, passes), rest);
    ToldFirst(Authorize(a, passes), rest, a, passes, result);
    steps := [Authorize(a, passes)] + rest;
  }
}
