/**
 * Moving sealed values to another key: scripts/reseal-fields.ts over packages/adapters/src/rewrap.ts and
 * packages/adapters/src/field-protection.ts. Wrapping, authenticated encryption and keyed hashes are taken as ideal:
 * each stands for exactly what it was made from.
 */
module Reseal {
  import opened Sequences

  /** A key-encryption key: the id values name it by, and what it is. */
  datatype Kek = Kek(id: nat, secret: nat)

  datatype Dek = Dek(material: nat, length: nat)

  datatype Wrapped = Wrapped(secret: nat, dek: Dek)

  /** Ciphertext and tag. */
  datatype Cipher = Cipher(dek: Dek, iv: nat, context: string, value: string)

  /**
   * `v1.<key id>.<wrapped data key>.<iv>.<ciphertext>.<tag>`, or text that only has something in the key id's place.
   */
  datatype Sealed =
    | Malformed(keyId: nat)
    | Sealed(keyId: nat, wrapped: Wrapped, iv: nat, body: Cipher)

  datatype Hmac = Hmac(key: nat, context: string, value: string)

  // ---- field protection -------------------------------------------------------------------------------------------

  function Unwrap(k: Kek, w: Wrapped): Option<Dek> {
    if w.secret == k.secret then Some(w.dek) else None
  }

  function Decrypt(dek: Dek, iv: nat, context: string, body: Cipher): Option<string> {
    if dek.length == 32 && body == Cipher(dek, iv, context, body.value) then Some(body.value) else None
  }

  /** Of keys put into a map one by one, the one an id leads to. */
  function LastWith(keks: seq<Kek>, id: nat): (r: Option<Kek>)
    ensures r.Some? ==> r.value in keks && r.value.id == id
    ensures r.None? ==> forall k :: k in keks ==> k.id != id
  {
    if keks == [] then None else if Last(keks).id == id then Some(Last(keks)) else LastWith(keks[..|keks| - 1], id)
  }

  function Seal(kek: Kek, dek: Dek, iv: nat, value: string, context: string): Sealed {
    Sealed(kek.id, Wrapped(kek.secret, dek), iv, Cipher(dek, iv, context, value))
  }

  function Open(keks: seq<Kek>, s: Sealed, context: string): Option<string> {
    if s.Malformed? then None
    else
      var kek := LastWith(keks, s.keyId);
      if kek.None? then None
      else
        var dek := Unwrap(kek.value, s.wrapped);
        if dek.None? then None else Decrypt(dek.value, s.iv, context, s.body)
  }

  /** Ids tell keys apart. */
  ghost predicate DistinctIds(keks: seq<Kek>) {
    forall k, l :: k in keks && l in keks && k.id == l.id ==> k == l
  }

  /** What was sealed opens to the same value, and under no other context. */
  lemma OpensWhatWasSealed(keks: seq<Kek>, kek: Kek, dek: Dek, iv: nat, value: string, context: string, other: string)
    requires DistinctIds(keks) && kek in keks && dek.length == 32
    ensures Open(keks, Seal(kek, dek, iv, value, context), other) == if other == context then Some(value) else None
  {
    var k := LastWith(keks, kek.id);
  }

  // ---- moving one value -------------------------------------------------------------------------------------------

  function Rewrap(s: Sealed, from: seq<Kek>, target: Kek): Option<Sealed> {
    if s.Malformed? then None
    else if s.keyId == target.id then Some(s)
    else
      var source := Find(from, (k: Kek) => k.id == s.keyId);
      if source.None? then None
      else
        var dek := Unwrap(source.value, s.wrapped);
        if dek.None? || dek.value.length != 32 then None
        else Some(s.(keyId := target.id, wrapped := Wrapped(target.secret, dek.value)))
  }

  datatype Lookup = Lookup(context: string, stored: Hmac)

  /** A row of a sealed column: the context it was sealed under, and the lookup hash kept beside it, if any. */
  datatype Row = Row(id: nat, context: string, sealed: Sealed, lookup: Option<Lookup>)

  datatype Keys = Keys(target: Kek, sources: seq<Kek>, hmacKey: nat)

  function WithSources(keys: Keys): seq<Kek> {
    [keys.target] + keys.sources
  }

  function TargetOnly(keys: Keys): seq<Kek> {
    [keys.target]
  }

  /** The value, when it opens and matches its lookup hash. */
  function Check(keks: seq<Kek>, hmacKey: nat, row: Row, s: Sealed): Option<string> {
    var value := Open(keks, s, row.context);
    if value.Some? && row.lookup.Some?
      && Hmac(hmacKey, row.lookup.value.context, value.value) != row.lookup.value.stored then None
    else value
  }

  /** The key that an id leads to: the last of that id. */
  ghost predicate LeadsTo(keks: seq<Kek>, id: nat, secret: nat) {
    exists j :: && 0 <= j < |keks| && keks[j].id == id && keks[j].secret == secret
                && forall i :: j < i < |keks| ==> keks[i].id != id
  }

  /**
   * The value under these keys: its data key was wrapped by the key its id leads to, it was encrypted with that data
   * key, this iv and the row's context, and the row's lookup hash, if it has one, is that of the value.
   */
  ghost predicate Says(keks: seq<Kek>, hmacKey: nat, row: Row, value: string) {
    && row.sealed.Sealed? && LeadsTo(keks, row.sealed.keyId, row.sealed.wrapped.secret)
    && row.sealed.wrapped.dek.length == 32
    && row.sealed.body == Cipher(row.sealed.wrapped.dek, row.sealed.iv, row.context, value)
    && (row.lookup.Some? ==> row.lookup.value.stored == Hmac(hmacKey, row.lookup.value.context, value))
  }

  /** Some value is said. */
  ghost predicate Speaks(keks: seq<Kek>, hmacKey: nat, row: Row) {
    exists value :: Says(keks, hmacKey, row, value)
  }

  lemma {:induction false} LastLeads(keks: seq<Kek>, id: nat, secret: nat)
    ensures LeadsTo(keks, id, secret) <==> LastWith(keks, id).Some? && LastWith(keks, id).value.secret == secret
  {
    if keks != [] {
      var n := |keks| - 1;
      LastLeads(keks[..n], id, secret);
      if keks[n].id == id {
        if keks[n].secret == secret { assert LeadsTo(keks, id, secret); }
      } else {
        LeadsOn(keks, id, secret);
      }
    }
  }

  lemma LeadsOn(keks: seq<Kek>, id: nat, secret: nat)
    requires keks != [] && keks[|keks| - 1].id != id
    ensures LeadsTo(keks, id, secret) <==> LeadsTo(keks[..|keks| - 1], id, secret)
  {
    var init := keks[..|keks| - 1];
    if j :| 0 <= j < |init| && init[j].id == id && init[j].secret == secret
            && forall i :: j < i < |init| ==> init[i].id != id {
      assert keks[j] == init[j];
      assert forall i :: j < i < |keks| ==> keks[i].id != id;
    }
    if j :| 0 <= j < |keks| && keks[j].id == id && keks[j].secret == secret
            && forall i :: j < i < |keks| ==> keks[i].id != id {
      assert init[j] == keks[j];
    }
  }

  /** What the check returns is what the value says. */
  lemma CheckSays(keks: seq<Kek>, hmacKey: nat, row: Row, value: string)
    ensures Check(keks, hmacKey, row, row.sealed) == Some(value) <==> Says(keks, hmacKey, row, value)
  {
    hide LeadsTo;
    if row.sealed.Sealed? { LastLeads(keks, row.sealed.keyId, row.sealed.wrapped.secret); }
  }

  lemma CheckSpeaks(keks: seq<Kek>, hmacKey: nat, row: Row)
    ensures Check(keks, hmacKey, row, row.sealed).Some? <==> Speaks(keks, hmacKey, row)
  {
    hide Check, Says;
    var r := Check(keks, hmacKey, row, row.sealed);
    if r.Some? { CheckSays(keks, hmacKey, row, r.value); }
    if value :| Says(keks, hmacKey, row, value) { CheckSays(keks, hmacKey, row, value); }
  }

  datatype Move = Skipped | Moved(row: Row) | Failed

  /** One row's transaction; `up` says that nothing outside failed it. */
  function MoveRow(keys: Keys, row: Row, up: bool): Move {
    if row.sealed.Malformed? then Failed
    else if row.sealed.keyId == keys.target.id then Skipped
    else
      var before := Check(WithSources(keys), keys.hmacKey, row, row.sealed);
      var next := Rewrap(row.sealed, keys.sources, keys.target);
      if !up || before.None? || next.None?
        || Check(TargetOnly(keys), keys.hmacKey, row, next.value) != before then Failed
      else Moved(row.(sealed := next.value))
  }

  /** A row as it was, or as it was but for the key id and the wrapped data key, now under the target. */
  ghost predicate Carried(keys: Keys, a: Row, b: Row) {
    a == b ||
    (a.sealed.Sealed? && b.sealed.Sealed?
     && b == a.(sealed := a.sealed.(keyId := b.sealed.keyId, wrapped := b.sealed.wrapped)) &&
     a.sealed.keyId != keys.target.id && b.sealed.keyId == keys.target.id && Sound(keys, b)
     && forall value :: Says([keys.target] + keys.sources, keys.hmacKey, a, value)
                   <==> Says([keys.target], keys.hmacKey, b, value))
  }

  /** What verification asks of a row: that it says something with the target alone. */
  ghost predicate Sound(keys: Keys, row: Row) {
    Speaks([keys.target], keys.hmacKey, row)
  }

  /** What the plan asks of a row: that it says something with the target and the sources. */
  ghost predicate Readable(keys: Keys, row: Row) {
    Speaks([keys.target] + keys.sources, keys.hmacKey, row)
  }

  lemma MoveCarries(keys: Keys, row: Row, up: bool)
    ensures MoveRow(keys, row, up).Moved? ==>
              Carried(keys, row, MoveRow(keys, row, up).row)
              && MoveRow(keys, row, up).row.sealed.keyId == keys.target.id
  {
    hide Open, Says;
    if MoveRow(keys, row, up).Moved? {
      var next := MoveRow(keys, row, up).row;
      forall value
        ensures Says([keys.target] + keys.sources, keys.hmacKey, row, value)
           <==> Says([keys.target], keys.hmacKey, next, value)
      {
        CheckSays([keys.target] + keys.sources, keys.hmacKey, row, value);
        CheckSays([keys.target], keys.hmacKey, next, value);
      }
      CheckSpeaks([keys.target], keys.hmacKey, next);
    }
  }

  /** The key a move unwraps with and the key a value opens with are the same one. */
  ghost predicate SameKey(keys: Keys, id: nat) {
    var moves, opens := Find(keys.sources, (k: Kek) => k.id == id), LastWith(WithSources(keys), id);
    moves.Some? && opens.Some? && moves.value.secret == opens.value.secret
  }

  lemma DistinctIdsAgree(keys: Keys, id: nat)
    requires DistinctIds(WithSources(keys)) && id != keys.target.id && LastWith(WithSources(keys), id).Some?
    ensures SameKey(keys, id)
  {
    var opens := LastWith(WithSources(keys), id).value;
    assert opens in keys.sources;
    var moves := Find(keys.sources, (k: Kek) => k.id == id).value;
    assert moves in WithSources(keys);
  }

  /**
   * Exactly which rows move: those not under the target that say something and are opened by the key they are moved by,
   * unless something outside fails it. A row under the target is passed over, and any other row fails.
   */
  lemma MovesExactly(keys: Keys, row: Row, up: bool)
    ensures MoveRow(keys, row, up).Skipped? <==> row.sealed.Sealed? && row.sealed.keyId == keys.target.id
    ensures MoveRow(keys, row, up).Moved?
       <==> up && row.sealed.keyId != keys.target.id && Readable(keys, row) && SameKey(keys, row.sealed.keyId)
  {
    hide Says, Open, SameKey;
    CheckSpeaks(WithSources(keys), keys.hmacKey, row);
    if row.sealed.keyId != keys.target.id && Readable(keys, row) {
      SealedSpeaks(keys, row);
      OpensAsBefore(keys, row);
    }
  }

  lemma SealedSpeaks(keys: Keys, row: Row)
    requires Readable(keys, row)
    ensures row.sealed.Sealed?
  {
  }

  lemma OpensAsBefore(keys: Keys, row: Row)
    requires row.sealed.keyId != keys.target.id
    requires Check(WithSources(keys), keys.hmacKey, row, row.sealed).Some?
    ensures var next := Rewrap(row.sealed, keys.sources, keys.target);
            && (SameKey(keys, row.sealed.keyId) <==> next.Some?)
            && (next.None? || Check(TargetOnly(keys), keys.hmacKey, row, next.value)
                           == Check(WithSources(keys), keys.hmacKey, row, row.sealed))
  {
    var s, k := row.sealed, LastWith(WithSources(keys), row.sealed.keyId);
    assert k.value in keys.sources;
    var source := Find(keys.sources, (x: Kek) => x.id == s.keyId);
    if source.value.secret == k.value.secret {
      assert LastWith(TargetOnly(keys), keys.target.id) == Some(keys.target);
      var next := Rewrap(s, keys.sources, keys.target).value;
      assert Open(TargetOnly(keys), next, row.context) == Open(WithSources(keys), s, row.context);
    }
  }

  /** With distinct key ids, a value that the plan opens does move, unless something outside fails it. */
  lemma PlannedMoves(keys: Keys, row: Row)
    requires DistinctIds([keys.target] + keys.sources) && row.sealed.keyId != keys.target.id && Readable(keys, row)
    ensures MoveRow(keys, row, true).Moved?
  {
    hide MoveRow, DistinctIds, Check;
    CheckSpeaks(WithSources(keys), keys.hmacKey, row);
    assert LastWith(WithSources(keys), row.sealed.keyId).Some? by { OpenLeads(keys, row); }
    DistinctIdsAgree(keys, row.sealed.keyId);
    MovesExactly(keys, row, true);
  }

  lemma OpenLeads(keys: Keys, row: Row)
    requires Check(WithSources(keys), keys.hmacKey, row, row.sealed).Some?
    ensures LastWith(WithSources(keys), row.sealed.keyId).Some?
  {
  }

  /** Two sources of one id: the plan opens a value with the later of them, the move tries only the first. */
  lemma SharedIdStays(target: Kek, first: Kek, second: Kek, dek: Dek, iv: nat, value: string, row: Row)
    requires first.id == second.id != target.id && first.secret != second.secret && dek.length == 32 && row.lookup.None?
    requires row.sealed == Seal(second, dek, iv, value, row.context)
    ensures var keys := Keys(target, [first, second], 0);
            Readable(keys, row) && MoveRow(keys, row, true).Failed?
  {
    var keys := Keys(target, [first, second], 0);
    var keks := [target] + [first, second];
    assert keks == [target, first, second] && Last(keks) == second;
    CheckSpeaks(keks, 0, row);
    assert Open(keks, row.sealed, row.context) == Some(value);
    assert [first, second][0] == first;
  }

  // ---- runs -------------------------------------------------------------------------------------------------------

  datatype Report = Report(moved: nat, failed: seq<nat>, remaining: nat, ok: bool)

  predicate Pending(keys: Keys, row: Row) {
    row.sealed.keyId != keys.target.id
  }

  function Remaining(keys: Keys, rows: seq<Row>): nat {
    if rows == [] then 0 else Remaining(keys, rows[..|rows| - 1]) + if Pending(keys, Last(rows)) then 1 else 0
  }

  lemma {:induction false} NoneRemain(keys: Keys, rows: seq<Row>)
    ensures Remaining(keys, rows) == 0 <==> forall i :: 0 <= i < |rows| ==> !Pending(keys, rows[i])
  {
    if rows != [] { NoneRemain(keys, rows[..|rows| - 1]); }
  }

  /** The rows that remain are counted, each once. */
  lemma {:induction false} RemainingCounts(keys: Keys, rows: seq<Row>)
    ensures Remaining(keys, rows) == |set i | 0 <= i < |rows| && rows[i].sealed.keyId != keys.target.id|
  {
    var all := set i | 0 <= i < |rows| && rows[i].sealed.keyId != keys.target.id;
    if rows == [] {
      assert all == {};
    } else {
      var n := |rows| - 1;
      RemainingCounts(keys, rows[..n]);
      var before := set i | 0 <= i < |rows[..n]| && rows[..n][i].sealed.keyId != keys.target.id;
      assert all == if rows[n].sealed.keyId != keys.target.id then before + {n} else before;
    }
  }

  /** How many rows one run without a limit moves. */
  ghost function Movable(keys: Keys, rows: seq<Row>, up: seq<bool>): nat
    requires |rows| == |up|
  {
    if rows == [] then 0
    else
      Movable(keys, rows[..|rows| - 1], up[..|up| - 1])
      + if MoveRow(keys, Last(rows), Last(up)).Moved? then 1 else 0
  }

  /** Whether a run comes to row `i` before it has moved as many as it may. */
  ghost predicate Reached(keys: Keys, rows: seq<Row>, up: seq<bool>, limit: Option<nat>, i: nat)
    requires |rows| == |up| && i <= |rows|
  {
    limit.None? || Movable(keys, rows[..i], up[..i]) < limit.value
  }

  /** How many rows differ. */
  ghost function Changed(a: seq<Row>, b: seq<Row>): nat
    requires |a| == |b|
  {
    if a == [] then 0
    else Changed(a[..|a| - 1], b[..|b| - 1]) + if Last(a) != Last(b) then 1 else 0
  }

  /** An undisturbed run moves every pending row, when the plan passes and each is moved by the key it opens with. */
  lemma {:induction false} AllPendingMove(keys: Keys, rows: seq<Row>, up: seq<bool>)
    requires |rows| == |up| && PlanOk(keys, rows) && forall i :: 0 <= i < |up| ==> up[i]
    requires forall i :: 0 <= i < |rows| && Pending(keys, rows[i]) ==> SameKey(keys, rows[i].sealed.keyId)
    ensures Movable(keys, rows, up) == Remaining(keys, rows)
  {
    hide MoveRow, SameKey, Readable;
    if rows != [] {
      var n := |rows| - 1;
      AllPendingMove(keys, rows[..n], up[..n]);
      OnlyPendingMove(keys, rows[n], up[n]);
      MovesExactly(keys, rows[n], up[n]);
    }
  }

  ghost predicate PlanOk(keys: Keys, rows: seq<Row>) {
    forall i ::
        0 <= i < |rows| && Pending(keys, rows[i]) ==> Readable(keys, rows[i])
  }

  ghost predicate VerifyOk(keys: Keys, rows: seq<Row>) {
    forall i :: 0 <= i < |rows| ==> Sound(keys, rows[i]) && !Pending(keys, rows[i])
  }

  /** The ids are those of exactly the rows that fail. */
  ghost predicate IdsOfThose(ids: seq<nat>, rows: seq<Row>, fails: Row -> bool) {
    forall id :: id in ids <==> exists i :: 0 <= i < |rows| && fails(rows[i]) && rows[i].id == id
  }

  lemma OneMoreId(ids: seq<nat>, rows: seq<Row>, fails: Row -> bool, n: nat)
    requires n < |rows| && IdsOfThose(ids, rows[..n], fails)
    ensures IdsOfThose(if fails(rows[n]) then ids + [rows[n].id] else ids, rows[..n + 1], fails)
  {
    var more, longer := if fails(rows[n]) then ids + [rows[n].id] else ids, rows[..n + 1];
    forall id
      ensures id in more <==> exists i :: 0 <= i < |longer| && fails(longer[i]) && longer[i].id == id
    {
      if id in ids {
        var i :| 0 <= i < |rows[..n]| && fails(rows[..n][i]) && rows[..n][i].id == id;
        assert longer[i] == rows[..n][i];
      }
      if id in more && id !in ids { assert longer[n] == rows[n]; }
      if i :| 0 <= i < |longer| && fails(longer[i]) && longer[i].id == id && i < n {
        assert rows[..n][i] == longer[i];
      }
    }
  }

  method Plan(keys: Keys, rows: seq<Row>) returns (report: Report)
    ensures report.ok <==> PlanOk(keys, rows)
    ensures IdsOfThose(report.failed, rows, (row: Row) => Pending(keys, row) && !Readable(keys, row))
    ensures report.remaining == Remaining(keys, rows) && report.moved == 0
  {
    hide Readable, Check;
    var failed := [];
    ghost var fails := (row: Row) => Pending(keys, row) && !Readable(keys, row);
    for i := 0 to |rows|
      invariant failed == [] <==> PlanOk(keys, rows[..i])
      invariant IdsOfThose(failed, rows[..i], fails)
    {
      assert rows[..i + 1] == rows[..i] + [rows[i]];
      ReadableIs(keys, rows[i]);
      OneMoreId(failed, rows, fails, i);
      if Pending(keys, rows[i]) && Check(WithSources(keys), keys.hmacKey, rows[i], rows[i].sealed).None? {
        failed := failed + [rows[i].id];
      }
    }
    assert rows[..|rows|] == rows;
    report := Report(0, failed, Remaining(keys, rows), failed == []);
  }

  lemma ReadableIs(keys: Keys, row: Row)
    ensures Readable(keys, row) <==> Check(WithSources(keys), keys.hmacKey, row, row.sealed).Some?
    ensures Sound(keys, row) <==> Check(TargetOnly(keys), keys.hmacKey, row, row.sealed).Some?
  {
    hide Check, Speaks;
    CheckSpeaks(WithSources(keys), keys.hmacKey, row);
    CheckSpeaks(TargetOnly(keys), keys.hmacKey, row);
  }

  method Verify(keys: Keys, rows: seq<Row>) returns (report: Report)
    ensures report.ok <==> VerifyOk(keys, rows)
    ensures IdsOfThose(report.failed, rows, (row: Row) => !Sound(keys, row))
    ensures report.remaining == Remaining(keys, rows) && report.moved == 0
  {
    hide Sound, Check;
    var failed := [];
    ghost var fails := (row: Row) => !Sound(keys, row);
    for i := 0 to |rows|
      invariant failed == [] <==> forall h :: 0 <= h < i ==> Sound(keys, rows[h])
      invariant IdsOfThose(failed, rows[..i], fails)
    {
      ReadableIs(keys, rows[i]);
      OneMoreId(failed, rows, fails, i);
      if Check(TargetOnly(keys), keys.hmacKey, rows[i], rows[i].sealed).None? { failed := failed + [rows[i].id]; }
    }
    assert rows[..|rows|] == rows;
    var remaining := Remaining(keys, rows);
    NoneRemain(keys, rows);
    report := Report(0, failed, remaining, failed == [] && remaining == 0);
  }

  class Store {
    var rows: seq<Row>

    /**
     * `up` says which rows' transactions nothing outside fails; `limit` is how many values to move at most. The rows
     * that move are the first that can, up to the limit.
     */
    method Apply(keys: Keys, up: seq<bool>, limit: Option<nat>) returns (report: Report)
      requires |up| == |rows|
      modifies this
      ensures |rows| == |old(rows)|
      ensures forall i :: 0 <= i < |rows| ==>
                rows[i] == old(rows)[i] || MoveRow(keys, old(rows)[i], up[i]) == Moved(rows[i])
      ensures !PlanOk(keys, old(rows)) ==> rows == old(rows) && !report.ok
      ensures report.ok <==>
                PlanOk(keys, old(rows)) && report.failed == []
                  && forall i :: 0 <= i < |rows| ==> !Pending(keys, rows[i])
      ensures PlanOk(keys, old(rows)) ==>
                forall i :: 0 <= i < |rows| ==>
                  (rows[i] != old(rows)[i]
                   <==> MoveRow(keys, old(rows)[i], up[i]).Moved? && Reached(keys, old(rows), up, limit, i))
      ensures PlanOk(keys, old(rows)) ==>
                forall id :: id in report.failed <==>
                  exists i :: && 0 <= i < |rows| && Pending(keys, old(rows)[i]) && old(rows)[i].id == id
                              && Reached(keys, old(rows), up, limit, i) && MoveRow(keys, old(rows)[i], up[i]).Failed?
      ensures report.moved == Changed(old(rows), rows) && report.remaining == Remaining(keys, rows)
      ensures PlanOk(keys, old(rows)) ==>
                var all := Movable(keys, old(rows), up);
                report.moved == if limit.Some? && limit.value < all then limit.value else all
    {
      hide MoveRow, PlanOk, Movable, Changed, Check;
      ghost var a := rows;
      var planned := Plan(keys, rows);
      NoneChanged(rows);
      if !planned.ok { return planned; }
      var moved, failed: seq<nat> := 0, [];
      var i := 0;
      MovableNone(keys, a, up);
      while i < |rows|
        invariant 0 <= i <= |rows| == |a| && rows[i..] == a[i..]
        invariant forall h :: 0 <= h < i ==> rows[h] == a[h] || MoveRow(keys, a[h], up[h]) == Moved(rows[h])
        invariant forall h :: 0 <= h < i ==>
                    Reached(keys, a, up, limit, h)
                    && (rows[h] != a[h] <==> MoveRow(keys, a[h], up[h]).Moved?)
        invariant forall id :: id in failed <==>
                    exists h :: 0 <= h < i && Pending(keys, a[h]) && a[h].id == id && MoveRow(keys, a[h], up[h]).Failed?
        invariant moved == Movable(keys, a[..i], up[..i]) && (limit.Some? ==> moved <= limit.value)
        decreases |a| - i
      {
        if limit.Some? && moved >= limit.value { break; }
        assert rows[i] == rows[i..][0] == a[i];
        ghost var before := rows;
        MovableMore(keys, a, up, i);
        OnlyPendingMove(keys, rows[i], up[i]);
        MovedDiffers(keys, rows[i], up[i]);
        if Pending(keys, rows[i]) {
          var m := MoveRow(keys, rows[i], up[i]);
          if m.Moved? {
            rows := rows[i := m.row];
            moved := moved + 1;
          } else if m.Failed? {
            failed := failed + [rows[i].id];
          }
        }
        i := i + 1;
        assert rows[i..] == before[i - 1..][1..] == a[i..];
      }
      RunEnds(keys, a, up, limit, i);
      ChangedAre(keys, a, up, rows, i);
      var remaining := Remaining(keys, rows);
      NoneRemain(keys, rows);
      report := Report(moved, failed, remaining, failed == [] && remaining == 0);
    }
  }

  lemma MovableNone(keys: Keys, rows: seq<Row>, up: seq<bool>)
    requires |rows| == |up|
    ensures Movable(keys, rows[..0], up[..0]) == 0
  {
  }

  lemma MovableMore(keys: Keys, rows: seq<Row>, up: seq<bool>, i: nat)
    requires i < |rows| == |up|
    ensures Movable(keys, rows[..i + 1], up[..i + 1])
         == Movable(keys, rows[..i], up[..i]) + if MoveRow(keys, rows[i], up[i]).Moved? then 1 else 0
  {
    hide MoveRow;
    assert rows[..i + 1][..i] == rows[..i] && up[..i + 1][..i] == up[..i];
  }

  lemma {:induction false} MovableGrows(keys: Keys, rows: seq<Row>, up: seq<bool>, i: nat, j: nat)
    requires i <= j <= |rows| == |up|
    ensures Movable(keys, rows[..i], up[..i]) <= Movable(keys, rows[..j], up[..j])
    decreases j
  {
    hide MoveRow, Movable;
    if i < j {
      MovableGrows(keys, rows, up, i, j - 1);
      MovableMore(keys, rows, up, j - 1);
    }
  }

  lemma {:induction false} NoneChanged(rows: seq<Row>)
    ensures Changed(rows, rows) == 0
  {
    if rows != [] { NoneChanged(rows[..|rows| - 1]); }
  }

  /** Where the loop stopped, either at the end or at its limit: no later row is reached. */
  lemma RunEnds(keys: Keys, rows: seq<Row>, up: seq<bool>, limit: Option<nat>, i: nat)
    requires i <= |rows| == |up|
    requires i == |rows| || (limit.Some? && Movable(keys, rows[..i], up[..i]) >= limit.value)
    requires limit.Some? ==> Movable(keys, rows[..i], up[..i]) <= limit.value
    ensures forall h :: i <= h < |rows| ==> !Reached(keys, rows, up, limit, h)
    ensures var all := Movable(keys, rows, up);
            Movable(keys, rows[..i], up[..i]) == if limit.Some? && limit.value < all then limit.value else all
  {
    hide MoveRow, Movable;
    forall h | i <= h <= |rows|
      ensures Movable(keys, rows[..i], up[..i]) <= Movable(keys, rows[..h], up[..h])
    {
      MovableGrows(keys, rows, up, i, h);
    }
    assert rows[..|rows|] == rows && up[..|up|] == up;
  }

  /** When exactly the movable rows before `i` have changed, they are as many as have. */
  lemma {:induction false} ChangedAre(keys: Keys, a: seq<Row>, up: seq<bool>, b: seq<Row>, i: nat)
    requires i <= |a| == |b| == |up| && b[i..] == a[i..]
    requires forall h :: 0 <= h < i ==> (b[h] != a[h] <==> MoveRow(keys, a[h], up[h]).Moved?)
    ensures Changed(a, b) == Movable(keys, a[..i], up[..i])
    decreases |a|
  {
    hide MoveRow, Movable;
    if i == 0 {
      assert a == a[0..] == b[0..] == b;
      NoneChanged(a);
      MovableNone(keys, a, up);
    } else {
      var n := |a| - 1;
      if i <= n {
        assert a[..n][i..] == a[i..][..n - i] == b[i..][..n - i] == b[..n][i..];
        assert Last(a) == Last(a[i..]) == Last(b[i..]) == Last(b);
        ChangedAre(keys, a[..n], up[..n], b[..n], i);
        assert a[..n][..i] == a[..i] && up[..n][..i] == up[..i];
      } else {
        ChangedAre(keys, a[..n], up[..n], b[..n], n);
        assert a[..n][..n] == a[..n] && up[..n][..n] == up[..n];
        MovableMore(keys, a, up, n);
        assert a[..i] == a && up[..i] == up;
      }
    }
  }

  lemma MovedDiffers(keys: Keys, row: Row, up: bool)
    ensures MoveRow(keys, row, up).Moved? ==> MoveRow(keys, row, up).row != row
  {
    hide Check;
  }

  lemma OnlyPendingMove(keys: Keys, row: Row, up: bool)
    ensures MoveRow(keys, row, up).Moved? ==> Pending(keys, row)
  {
  }

  // ---- what runs keep ---------------------------------------------------------------------------------------------

  /** What one run of Apply makes of the rows, however it is cut short. */
  ghost predicate Applied(keys: Keys, a: seq<Row>, up: seq<bool>, b: seq<Row>) {
    |a| == |b| == |up| && forall i :: 0 <= i < |a| ==> b[i] == a[i] || MoveRow(keys, a[i], up[i]) == Moved(b[i])
  }

  ghost predicate Runs(keys: Keys, states: seq<seq<Row>>, ups: seq<seq<bool>>) {
    |states| == |ups| + 1 && forall j, k :: 0 <= j < |ups| && k == j + 1 ==> Applied(keys, states[j], ups[j], states[k])
  }

  /** Over any number of runs, each row is untouched or moved once, and opens to the same value. */
  lemma {:induction false} RowsAreCarried(keys: Keys, states: seq<seq<Row>>, ups: seq<seq<bool>>, k: nat, i: nat)
    requires Runs(keys, states, ups) && k < |states| && i < |states[0]|
    ensures |states[k]| == |states[0]| && Carried(keys, states[0][i], states[k][i])
    decreases k
  {
    hide Carried, MoveRow;
    if k > 0 {
      RowsAreCarried(keys, states, ups, k - 1, i);
      assert Applied(keys, states[k - 1], ups[k - 1], states[k]);
      CarriedOn(keys, states[0][i], states[k - 1][i], states[k][i], ups[k - 1][i]);
    } else {
      assert Carried(keys, states[0][i], states[0][i]) by { CarriedSame(keys, states[0][i]); }
    }
  }

  lemma CarriedSame(keys: Keys, a: Row)
    ensures Carried(keys, a, a)
  {
  }

  lemma CarriedOn(keys: Keys, a: Row, b: Row, c: Row, up: bool)
    requires Carried(keys, a, b) && (c == b || MoveRow(keys, b, up) == Moved(c))
    ensures Carried(keys, a, c)
    ensures b.sealed.keyId == keys.target.id ==> c == b
  {
    hide Check;
    MoveCarries(keys, b, up);
  }

  /** A row under the target never moves again. */
  lemma {:induction false} MovedStays(keys: Keys, states: seq<seq<Row>>, ups: seq<seq<bool>>, j: nat, k: nat, i: nat)
    requires Runs(keys, states, ups) && j <= k < |states| && i < |states[j]| && !Pending(keys, states[j][i])
    ensures i < |states[k]| && states[k][i] == states[j][i]
    decreases k
  {
    hide MoveRow;
    if j < k {
      MovedStays(keys, states, ups, j, k - 1, i);
      assert Applied(keys, states[k - 1], ups[k - 1], states[k]);
      OnlyPendingMove(keys, states[k - 1][i], ups[k - 1][i]);
    }
  }

  /**
   * When nothing is left to move, the target alone opens everything exactly when it opened what was under it before:
   * every value that was moved was checked.
   */
  lemma AppliedVerifies(keys: Keys, states: seq<seq<Row>>, ups: seq<seq<bool>>, k: nat)
    requires Runs(keys, states, ups) && k < |states|
    requires forall i :: 0 <= i < |states[k]| ==> !Pending(keys, states[k][i])
    ensures VerifyOk(keys, states[k])
            <==> forall i :: 0 <= i < |states[0]| && !Pending(keys, states[0][i]) ==> Sound(keys, states[0][i])
  {
    hide Sound, MoveRow;
    SameLength(keys, states, ups, k);
    forall i | 0 <= i < |states[0]|
      ensures Pending(keys, states[0][i]) ==> Sound(keys, states[k][i])
      ensures !Pending(keys, states[0][i]) ==> states[k][i] == states[0][i]
    {
      RowsAreCarried(keys, states, ups, k, i);
      if !Pending(keys, states[0][i]) { MovedStays(keys, states, ups, 0, k, i); }
    }
  }

  lemma {:induction false} SameLength(keys: Keys, states: seq<seq<Row>>, ups: seq<seq<bool>>, k: nat)
    requires Runs(keys, states, ups) && k < |states|
    ensures |states[k]| == |states[0]|
  {
    if k > 0 {
      SameLength(keys, states, ups, k - 1);
      assert Applied(keys, states[k - 1], ups[k - 1], states[k]);
    }
  }

  /**
   * One run that nothing outside disturbs, whose plan passes, leaves nothing to move exactly when each value that was
   * to move opens with the key it is moved by.
   */
  lemma NothingIsLeft(keys: Keys, a: seq<Row>, up: seq<bool>, b: seq<Row>)
    requires PlanOk(keys, a) && Applied(keys, a, up, b) && (forall i :: 0 <= i < |up| ==> up[i])
    requires forall i :: 0 <= i < |a| && MoveRow(keys, a[i], up[i]).Moved? ==> b[i] == MoveRow(keys, a[i], up[i]).row
    ensures (forall i :: 0 <= i < |b| ==> !Pending(keys, b[i]))
       <==> forall i :: 0 <= i < |a| && Pending(keys, a[i]) ==> SameKey(keys, a[i].sealed.keyId)
  {
    hide MoveRow, SameKey, Readable;
    forall i | 0 <= i < |b|
      ensures Pending(keys, b[i]) <==> Pending(keys, a[i]) && !SameKey(keys, a[i].sealed.keyId)
    {
      assert up[i];
      MovesExactly(keys, a[i], up[i]);
      OnlyPendingMove(keys, a[i], up[i]);
      MoveCarries(keys, a[i], up[i]);
    }
  }
}
