/**
 * Runs of the audit trail, its seals, their export and restores: what a database and its archive are to each other in
 * every state they can reach. Exports run one at a time, and a restore recovers a moment of the timeline it ends.
 */
module AuditHistory {
  import opened Sequences
  import opened AuditSeal
  import opened AuditArchive
  import opened AuditExport
  import opened AuditFollow
  import opened AuditReach
  import opened AuditVerify

  /** The database as it was committed at a moment; every such moment can be recovered. */
  datatype Snapshot = Snapshot(time: int, db: Db)

  /**
   * `history` is the timeline of the database running now; `minted` is the last seal made of each hash, on any
   * timeline.
   */
  datatype Sys = Sys(history: seq<Snapshot>, archive: Archive, minted: map<Hash, Seal>)

  datatype Step =
    | Append(event: Event)
    | SealAudit(id: nat, top: nat, settle: nat)
    | ExportSeals(listed: seq<Key>, maxSeals: nat, crashes: bool)
    /** Recovers moment `k`, and records how far the records were whole. */
    | Restore(k: nat, fence: Fence)

  function Current(s: Sys): Db
    requires s.history != []
  {
    Last(s.history).db
  }

  function Begin(time: int): Sys {
    Sys([Snapshot(time, Db(map[], [], [], []))], map[], map[])
  }

  /** The seal a sealing run makes at time `t`. */
  function SealOf(db: Db, t: int, id: nat, top: nat, settle: nat): Option<Seal> {
    NextSeal(db.trail, top, db.seals, id, t, settle)
  }

  ghost predicate Lists(archive: Archive, listed: seq<Key>, first: nat) {
    forall k :: k in listed <==> k in archive && k.first == first
  }

  /** What the job and its surroundings ensure of a step. */
  ghost predicate Possible(s: Sys, t: int, step: Step)
    requires s.history != []
  {
    var db := Current(s);
    Last(s.history).time < t &&
    match step
    // No event commits into a sealed range (AuditSeal.NoCommitIntoSealed).
    case Append(e) => e.number > LastTo(db.seals) && e.number !in db.trail
    // Numbers come from a sequence.
    case SealAudit(id, top, settle) => id > 0 && forall k :: k in db.seals ==> k.id < id
    // The archive lists all objects under the next seal's number: there are fewer than a hundred.
    case ExportSeals(listed, _, _) =>
      var pending := SealsAfter(db.seals, ExportedTo(db.exports));
      pending != [] ==> Lists(s.archive, listed, pending[0].id)
    case Restore(k, fence) => k < |s.history| && fence.knownUntil <= s.history[k].time
  }

  /** No archived seal has this hash. */
  ghost predicate Unarchived(archive: Archive, h: Hash) {
    forall k, x :: k in archive && x in archive[k].seals ==> x.hash != h
  }

  /** A seal never has the hash of an archived one; a lost one that was never archived may come back. */
  ghost predicate FreshHash(s: Sys, t: int, step: Step)
    requires s.history != []
  {
    step.SealAudit? ==>
      var seal := SealOf(Current(s), t, step.id, step.top, step.settle);
      seal.Some? ==> Unarchived(s.archive, seal.value.hash)
  }

  ghost predicate Allowed(s: Sys, t: int, step: Step)
    requires s.history != []
  {
    Possible(s, t, step) && FreshHash(s, t, step)
  }

  /** The timeline a step continues. */
  function Base(s: Sys, step: Step): seq<Snapshot>
    requires s.history != [] && (step.Restore? ==> step.k < |s.history|)
  {
    if step.Restore? then s.history[..step.k + 1] else s.history
  }

  function NextDb(s: Sys, t: int, step: Step): Db
    requires s.history != [] && (step.Restore? ==> step.k < |s.history|)
  {
    var db := Current(s);
    match step
    case Append(e) => db.(trail := db.trail[e.number := e])
    case SealAudit(id, top, settle) =>
      var seal := SealOf(db, t, id, top, settle);
      if seal.None? then db else db.(seals := db.seals + [seal.value])
    case ExportSeals(listed, maxSeals, crashes) =>
      db.(exports := RecordedExports(db.exports, Exporting(db, s.archive, listed, maxSeals), crashes))
    case Restore(k, fence) => s.history[k].db.(fences := s.history[k].db.fences + [fence])
  }

  function NextArchive(s: Sys, step: Step): Archive
    requires s.history != []
  {
    if step.ExportSeals? then ExportedArchive(s.archive, Exporting(Current(s), s.archive, step.listed, step.maxSeals))
    else s.archive
  }

  function NextMinted(s: Sys, t: int, step: Step): map<Hash, Seal>
    requires s.history != []
  {
    if !step.SealAudit? then s.minted
    else
      var seal := SealOf(Current(s), t, step.id, step.top, step.settle);
      if seal.None? then s.minted else s.minted[seal.value.hash := seal.value]
  }

  function Next(s: Sys, t: int, step: Step): Sys
    requires s.history != [] && (step.Restore? ==> step.k < |s.history|)
  {
    Sys(Base(s, step) + [Snapshot(t, NextDb(s, t, step))], NextArchive(s, step), NextMinted(s, t, step))
  }

  ghost predicate Takes(s: Sys, t: int, step: Step, u: Sys) {
    s.history != [] && Allowed(s, t, step) && u == Next(s, t, step)
  }

  ghost predicate Run(run: seq<Sys>, times: seq<int>, steps: seq<Step>) {
    && |run| == |steps| + 1 && |times| == |steps| && (exists t :: run[0] == Begin(t))
    && forall i, j :: 0 <= i < |steps| && j == i + 1 ==> Takes(run[i], times[i], steps[i], run[j])
  }

  // ---- the invariant ----------------------------------------------------------------------------------------------

  ghost predicate IsMinted(minted: map<Hash, Seal>, s: Seal) {
    s.hash in minted && minted[s.hash] == s
  }

  ghost predicate MintedOk(minted: map<Hash, Seal>, now: int) {
    forall h :: h in minted ==> minted[h].hash == h && minted[h].sealedAt <= now && minted[h].id > 0
  }

  /** Seals that follow each other hash to hash. */
  ghost predicate Linked(seals: seq<Seal>) {
    forall j, k :: 0 <= j && k == j + 1 && k < |seals| ==> seals[k].prev == Some(seals[j].hash)
  }

  ghost predicate AllMinted(minted: map<Hash, Seal>, seals: seq<Seal>) {
    forall k :: 0 <= k < |seals| ==> IsMinted(minted, seals[k])
  }

  /** How many seals the exports cover. */
  function Covered(exports: seq<Export>): nat {
    if exports == [] then 0 else Covered(exports[..|exports| - 1]) + |Last(exports).body.seals|
  }

  /** A record that says what its range says. */
  predicate Describes(e: Export) {
    && e.body.seals != [] && e.key == KeyOf(e.body)
    && e.firstSeal == e.body.firstSeal == e.body.seals[0].id && e.lastSeal == e.body.lastSeal == Last(e.body.seals).id
    && e.fromSeq == e.body.fromSeq == e.body.seals[0].fromSeq && e.toSeq == e.body.toSeq == Last(e.body.seals).toSeq
    && e.count == |e.body.seals| && e.lastHash == Last(e.body.seals).hash
  }

  /**
   * Recorded exports, in order, tile the seals from the first; each object's bytes are those recorded, and describe
   * exactly its seals.
   */
  ghost predicate ExportsTile(seals: seq<Seal>, exports: seq<Export>, archive: Archive) {
    exports == [] ||
    var e, rest := Last(exports), exports[..|exports| - 1];
    && ExportsTile(seals, rest, archive)
    && Describes(e) && e.key in archive && archive[e.key] == e.body && AgreesAt(seals, e.body, Covered(rest))
  }

  ghost predicate Whole(db: Db, archive: Archive, minted: map<Hash, Seal>) {
    && Chained(db.seals) && AllMatch(db.trail, db.seals) && AllMinted(minted, db.seals)
    && ExportsTile(db.seals, db.exports, archive)
  }

  /** The number of the seal that a hash belongs to. */
  ghost predicate Names(minted: map<Hash, Seal>, h: Option<Hash>, id: nat) {
    if h.None? then id == 0 else h.value in minted && minted[h.value].id == id
  }

  ghost predicate DocOk(doc: Doc, minted: map<Hash, Seal>) {
    && doc.seals != [] && AllMinted(minted, doc.seals) && Linked(doc.seals)
    && doc.firstSeal == doc.seals[0].id && doc.lastSeal == Last(doc.seals).id
    && doc.fromSeq == doc.seals[0].fromSeq && doc.toSeq == Last(doc.seals).toSeq
    && doc.continuesHash == doc.seals[0].prev && Names(minted, doc.continuesHash, doc.continuesSeal)
  }

  /** Some archived range ends with this hash. */
  ghost predicate EndsWith(archive: Archive, h: Hash) {
    exists k :: k in archive && archive[k].seals != [] && Last(archive[k].seals).hash == h
  }

  ghost predicate ArchiveOk(archive: Archive, minted: map<Hash, Seal>) {
    forall k :: k in archive ==>
      && WellFormed(k, archive[k]) && DocOk(archive[k], minted)
      && (archive[k].continuesHash.Some? ==> EndsWith(archive, archive[k].continuesHash.value))
  }

  /** One range at most of those that agree starts at each seal. */
  ghost predicate OneEach(seals: seq<Seal>, archive: Archive) {
    forall k, l, i: nat ::
        k in archive && l in archive && AgreesAt(seals, archive[k], i) && AgreesAt(seals, archive[l], i) ==> k == l
  }

  ghost predicate Fenced(fences: seq<Fence>, time: int) {
    exists f :: f in fences && f.knownUntil < time
  }

  /** An archived seal is one of the seals of a moment, or a fence of that moment explains it, or it is from later. */
  ghost predicate Placed(h: Snapshot, s: Seal) {
    s in h.db.seals || Fenced(h.db.fences, s.sealedAt) || s.sealedAt > h.time
  }

  ghost predicate AllPlaced(h: Snapshot, archive: Archive) {
    forall k, s :: k in archive && s in archive[k].seals ==> Placed(h, s)
  }

  /** A later moment of a timeline has the seals of an earlier one, and newer ones after them. */
  ghost predicate Follows(g: Snapshot, h: Snapshot) {
    && g.time < h.time && |g.db.seals| <= |h.db.seals| && h.db.seals[..|g.db.seals|] == g.db.seals
    && forall k :: |g.db.seals| <= k < |h.db.seals| ==> h.db.seals[k].sealedAt > g.time
  }

  ghost predicate Timeline(history: seq<Snapshot>) {
    forall i, j :: 0 <= i < j < |history| ==> Follows(history[i], history[j])
  }

  ghost predicate AllWhole(history: seq<Snapshot>, archive: Archive, minted: map<Hash, Seal>) {
    forall i :: 0 <= i < |history| ==> Whole(history[i].db, archive, minted) && AllPlaced(history[i], archive)
  }

  ghost predicate Inv(s: Sys) {
    && s.history != [] && Timeline(s.history) && AllWhole(s.history, s.archive, s.minted)
    && MintedOk(s.minted, Last(s.history).time) && ArchiveOk(s.archive, s.minted)
    && OneEach(Current(s).seals, s.archive)
  }

  // ---- seals under their hashes -------------------------------------------------------------------------------------

  lemma {:induction false} FilterSlice(seals: seq<Seal>, i: nat, j: nat, p: Seal -> bool)
    requires i <= j <= |seals|
    requires forall k :: 0 <= k < |seals| ==> (p(seals[k]) <==> i <= k < j)
    ensures Filter(seals, p) == seals[i..j]
    decreases |seals|
  {
    if seals != [] {
      var rest := seals[1..];
      var i', j' := if i > 0 then i - 1 else 0, if j > 0 then j - 1 else 0;
      forall k | 0 <= k < |rest|
        ensures p(rest[k]) <==> i' <= k < j'
      {
        assert rest[k] == seals[k + 1];
      }
      FilterSlice(rest, i', j', p);
      assert p(seals[0]) <==> i == 0 < j;
      assert seals[i..j] == (if i == 0 < j then [seals[0]] else []) + rest[i'..j'];
    }
  }

  /** Seals are numbered in the order they chain. */
  lemma IdOrder(seals: seq<Seal>, i: nat, j: nat)
    requires Chained(seals) && i < |seals| && j < |seals|
    ensures i < j <==> seals[i].id < seals[j].id
    ensures i == j <==> seals[i].id == seals[j].id
  {
    if i < j { IdsGrow(seals, i, j); } else if j < i { IdsGrow(seals, j, i); }
  }

  lemma Between(seals: seq<Seal>, i: nat, j: nat)
    requires Chained(seals) && i < j <= |seals|
    ensures SealsBetween(seals, seals[i].id, seals[j - 1].id) == seals[i..j]
  {
    forall k | 0 <= k < |seals|
      ensures (seals[i].id <= seals[k].id <= seals[j - 1].id) <==> i <= k < j
    {
      IdOrder(seals, i, k);
      IdOrder(seals, k, j - 1);
    }
    FilterSlice(seals, i, j, (s: Seal) => seals[i].id <= s.id <= seals[j - 1].id);
    assert SealsBetween(seals, seals[i].id, seals[j - 1].id)
           == Filter(seals, (s: Seal) => seals[i].id <= s.id <= seals[j - 1].id);
  }

  /** Where the last seal of an archived range is one of the seals here, so is the whole range. */
  lemma {:induction false} BackAgrees(seals: seq<Seal>, minted: map<Hash, Seal>, doc: Doc, j: nat, k: nat)
    requires Chained(seals) && AllMinted(minted, seals) && AllMinted(minted, doc.seals) && Linked(doc.seals)
    requires k < |doc.seals| && j < |seals| && seals[j].hash == Last(doc.seals).hash
    ensures j + k + 1 >= |doc.seals| && seals[j + k + 1 - |doc.seals|] == doc.seals[k]
    decreases |doc.seals| - k
  {
    assert IsMinted(minted, doc.seals[k]);
    if k + 1 < |doc.seals| {
      BackAgrees(seals, minted, doc, j, k + 1);
      var x := j + k + 2 - |doc.seals|;
      assert doc.seals[k + 1].prev == Some(doc.seals[k].hash);
      assert x > 0;
      assert IsMinted(minted, seals[x - 1]);
    } else {
      assert IsMinted(minted, seals[j]);
    }
  }

  lemma EndAgrees(seals: seq<Seal>, minted: map<Hash, Seal>, doc: Doc, j: nat) returns (i: nat)
    requires Chained(seals) && AllMinted(minted, seals) && AllMinted(minted, doc.seals) && Linked(doc.seals)
    requires doc.seals != [] && j < |seals| && seals[j].hash == Last(doc.seals).hash
    ensures AgreesAt(seals, doc, i) && i + |doc.seals| == j + 1
  {
    BackAgrees(seals, minted, doc, j, 0);
    i := j + 1 - |doc.seals|;
    forall k | 0 <= k < |doc.seals|
      ensures seals[i..i + |doc.seals|][k] == doc.seals[k]
    {
      BackAgrees(seals, minted, doc, j, k);
    }
  }

  // ---- what recorded exports cover ----------------------------------------------------------------------------------

  lemma {:induction false} LastCovered(seals: seq<Seal>, exports: seq<Export>, archive: Archive)
    requires Chained(seals) && ExportsTile(seals, exports, archive)
    ensures Covered(exports) <= |seals|
    ensures exports != [] ==>
              Covered(exports) > 0 && Last(exports).lastSeal == seals[Covered(exports) - 1].id
              && Last(exports).lastHash == seals[Covered(exports) - 1].hash
    ensures LastExport(exports) == if exports == [] then None else Some(Last(exports))
    decreases |exports|
  {
    if exports != [] {
      var e, rest := Last(exports), exports[..|exports| - 1];
      LastCovered(seals, rest, archive);
      var c := Covered(rest);
      assert seals[c..c + |e.body.seals|][|e.body.seals| - 1] == Last(e.body.seals);
      if rest != [] { IdOrder(seals, c - 1, Covered(exports) - 1); }
    }
  }

  lemma {:induction false} TileGrows(seals: seq<Seal>, exports: seq<Export>, archive: Archive, moreSeals: seq<Seal>,
                                     moreArchive: Archive)
    requires ExportsTile(seals, exports, archive)
    requires |seals| <= |moreSeals| && moreSeals[..|seals|] == seals
    requires forall k :: k in archive ==> k in moreArchive && moreArchive[k] == archive[k]
    ensures ExportsTile(moreSeals, exports, moreArchive)
    decreases |exports|
  {
    if exports != [] {
      var e, rest := Last(exports), exports[..|exports| - 1];
      TileGrows(seals, rest, archive, moreSeals, moreArchive);
      AgreesLonger(seals, moreSeals, e.body, Covered(rest));
    }
  }

  lemma AgreesLonger(seals: seq<Seal>, more: seq<Seal>, doc: Doc, i: nat)
    requires |seals| <= |more| && more[..|seals|] == seals && AgreesAt(seals, doc, i)
    ensures AgreesAt(more, doc, i)
  {
    var j := i + |doc.seals|;
    assert more[..|seals|][i..j] == more[i..j];
  }

  lemma {:induction false} RecordedAgree(seals: seq<Seal>, exports: seq<Export>, archive: Archive, q: nat)
    requires ExportsTile(seals, exports, archive) && q < |exports|
    ensures var e := exports[q];
            Describes(e) && e.key in archive && archive[e.key] == e.body
              && AgreesAt(seals, e.body, Covered(exports[..q]))
    decreases |exports|
  {
    var rest := exports[..|exports| - 1];
    if q < |rest| {
      RecordedAgree(seals, rest, archive, q);
      assert rest[..q] == exports[..q];
    }
  }

  // ---- one export -------------------------------------------------------------------------------------------------

  /** All the records of one moment say, with the archive. */
  ghost predicate Consistent(db: Db, archive: Archive, minted: map<Hash, Seal>, now: int) {
    Whole(db, archive, minted) && MintedOk(minted, now) && ArchiveOk(archive, minted) && OneEach(db.seals, archive)
  }

  /** Recorded exports end with the seal before the first they do not cover. */
  lemma ExportedEnd(db: Db, archive: Archive)
    requires Chained(db.seals) && ExportsTile(db.seals, db.exports, archive)
    ensures var c := Covered(db.exports);
            && c <= |db.seals| && ExportedTo(db.exports) == (if c == 0 then 0 else db.seals[c - 1].id)
            && ExportedHash(db.exports) == HashBefore(db.seals, c)
  {
    hide Chained, ExportsTile;
    LastCovered(db.seals, db.exports, archive);
  }

  ghost predicate Numbered(seals: seq<Seal>) {
    forall k :: 0 <= k < |seals| ==> seals[k].id > 0
  }

  /** The next seals to export are those after what recorded exports cover. */
  lemma PendingAre(db: Db, archive: Archive)
    requires Chained(db.seals) && Numbered(db.seals) && ExportsTile(db.seals, db.exports, archive)
    ensures var c := Covered(db.exports);
            && c <= |db.seals| && SealsAfter(db.seals, ExportedTo(db.exports)) == db.seals[c..]
            && ExportedTo(db.exports) == (if c == 0 then 0 else db.seals[c - 1].id)
            && ExportedHash(db.exports) == HashBefore(db.seals, c)
  {
    hide ExportsTile, Chained, ExportedTo, ExportedHash;
    ExportedEnd(db, archive);
    var c, after := Covered(db.exports), ExportedTo(db.exports);
    forall k | 0 <= k < |db.seals|
      ensures db.seals[k].id > after <==> c <= k < |db.seals|
    {
      if c > 0 { IdOrder(db.seals, c - 1, k); }
    }
    FilterSlice(db.seals, c, |db.seals|, (s: Seal) => s.id > after);
    assert db.seals[c..|db.seals|] == db.seals[c..];
  }

  lemma PendingSeals(db: Db, archive: Archive, minted: map<Hash, Seal>, now: int)
    requires Whole(db, archive, minted) && MintedOk(minted, now)
    ensures var c := Covered(db.exports);
            && c <= |db.seals| && SealsAfter(db.seals, ExportedTo(db.exports)) == db.seals[c..]
            && ExportedTo(db.exports) == (if c == 0 then 0 else db.seals[c - 1].id)
            && ExportedHash(db.exports) == HashBefore(db.seals, c)
  {
    hide AllMatch, ExportsTile, Chained, ExportedTo, ExportedHash, SealsAfter;
    assert forall k :: 0 <= k < |db.seals| ==> IsMinted(minted, db.seals[k]);
    PendingAre(db, archive);
  }

  /** A seal is told by the hash it continues. */
  lemma PrevTells(seals: seq<Seal>, minted: map<Hash, Seal>, i: nat, c: nat)
    requires Chained(seals) && AllMinted(minted, seals) && i < |seals| && c <= |seals|
             && seals[i].prev == HashBefore(seals, c)
    ensures i == c
  {
    if i > 0 {
      assert seals[i].prev == Some(seals[i - 1].hash);
      assert IsMinted(minted, seals[i - 1]);
      if c > 0 {
        assert IsMinted(minted, seals[c - 1]);
        IdOrder(seals, i - 1, c - 1);
      }
    }
  }

  /** A range that agrees where recorded exports end is one that the next run adopts. */
  lemma AgreeingIsAdoptable(db: Db, archive: Archive, minted: map<Hash, Seal>, now: int, key: Key)
    requires Consistent(db, archive, minted, now)
    requires key in archive && AgreesAt(db.seals, archive[key], Covered(db.exports))
    ensures Covered(db.exports) < |db.seals| && key.first == db.seals[Covered(db.exports)].id
    ensures Adoption(db.seals, archive, key, ExportedTo(db.exports), ExportedHash(db.exports)).Some?
  {
    hide AllMatch, OneEach, ExportsTile, Chained, ExportedTo, ExportedHash, Linked, EndsWith, AgreesAt, Adoption;
    ExportedEnd(db, archive);
    var c, doc := Covered(db.exports), archive[key];
    assert DocOk(doc, minted) && WellFormed(key, doc);
    SlicesAre(db.seals, doc, c);
    ChainPrev(db.seals, c);
    assert IsMinted(minted, db.seals[c]);
    if c > 0 {
      assert IsMinted(minted, db.seals[c - 1]);
      IdOrder(db.seals, c - 1, c);
    }
    AdoptableIf(db.seals, archive, key, ExportedTo(db.exports), ExportedHash(db.exports));
  }

  lemma SlicesAre(seals: seq<Seal>, doc: Doc, c: nat)
    requires Chained(seals) && AgreesAt(seals, doc, c) && doc.seals != []
    ensures c < |seals| && doc.seals[0] == seals[c]
            && SealsBetween(seals, doc.seals[0].id, Last(doc.seals).id) == doc.seals
  {
    hide Chained;
    var n := |doc.seals|;
    assert doc.seals[0] == seals[c..c + n][0] && Last(doc.seals) == seals[c..c + n][n - 1];
    Between(seals, c, c + n);
  }

  lemma AdoptableIf(seals: seq<Seal>, archive: Archive, key: Key, after: nat, afterHash: Option<Hash>)
    requires key in archive && WellFormed(key, archive[key]) && archive[key].firstSeal > after
    requires archive[key].continuesSeal == after && archive[key].continuesHash == afterHash
    requires SealsBetween(seals, archive[key].firstSeal, archive[key].lastSeal) == archive[key].seals
    ensures Adoption(seals, archive, key, after, afterHash).Some?
  {
  }

  lemma AdoptionSays(seals: seq<Seal>, archive: Archive, key: Key, after: nat, afterHash: Option<Hash>)
    requires Adoption(seals, archive, key, after, afterHash).Some?
    ensures key in archive && WellFormed(key, archive[key]) && archive[key].continuesHash == afterHash
    ensures forall s :: s in archive[key].seals ==> s in seals
    ensures Adoption(seals, archive, key, after, afterHash).value == Record(key, archive[key], archive[key].seals)
  {
  }

  /** A range whose seals are here, and that continues where recorded exports end, agrees there. */
  lemma ContinuingAgrees(seals: seq<Seal>, minted: map<Hash, Seal>, doc: Doc, c: nat)
    requires Chained(seals) && AllMinted(minted, seals) && DocOk(doc, minted) && c <= |seals|
    requires Last(doc.seals) in seals && doc.seals[0].prev == HashBefore(seals, c)
    ensures AgreesAt(seals, doc, c)
  {
    hide Chained, AllMinted, Linked;
    var j: nat :| j < |seals| && seals[j] == Last(doc.seals);
    var i := EndAgrees(seals, minted, doc, j);
    assert doc.seals[0] == seals[i..i + |doc.seals|][0];
    PrevTells(seals, minted, i, c);
  }

  /** A range that a run adopts agrees where recorded exports end, and its record describes it. */
  lemma AdoptedAgrees(db: Db, archive: Archive, minted: map<Hash, Seal>, now: int, key: Key)
    requires Consistent(db, archive, minted, now)
    requires Adoption(db.seals, archive, key, ExportedTo(db.exports), ExportedHash(db.exports)).Some?
    ensures var e := Adoption(db.seals, archive, key, ExportedTo(db.exports), ExportedHash(db.exports)).value;
            key in archive && e.key == key && e.body == archive[key] && Describes(e)
              && AgreesAt(db.seals, e.body, Covered(db.exports))
  {
    hide AllMatch, OneEach, ExportsTile, Adoption, Chained, ExportedTo, ExportedHash, AllMinted, Linked, EndsWith;
    ExportedEnd(db, archive);
    AdoptionSays(db.seals, archive, key, ExportedTo(db.exports), ExportedHash(db.exports));
    assert DocOk(archive[key], minted);
    assert Last(archive[key].seals) in archive[key].seals;
    ContinuingAgrees(db.seals, minted, archive[key], Covered(db.exports));
  }

  lemma {:induction false} FirstAdopted(seals: seq<Seal>, archive: Archive, listed: seq<Key>, after: nat,
                                        afterHash: Option<Hash>)
    ensures var a := FirstAdoption(seals, archive, listed, after, afterHash);
            if a.Some? then exists k :: k in listed && Adoption(seals, archive, k, after, afterHash) == a
            else forall k :: k in listed ==> Adoption(seals, archive, k, after, afterHash).None?
    decreases |listed|
  {
    if listed != [] && Adoption(seals, archive, listed[0], after, afterHash).None? {
      FirstAdopted(seals, archive, listed[1..], after, afterHash);
    }
  }

  lemma AdoptionTiles(db: Db, archive: Archive, minted: map<Hash, Seal>, now: int, listed: seq<Key>, e: Export)
    requires Consistent(db, archive, minted, now)
    requires FirstAdoption(db.seals, archive, listed, ExportedTo(db.exports), ExportedHash(db.exports)) == Some(e)
    ensures ExportsTile(db.seals, db.exports + [e], archive)
  {
    hide Consistent, AgreesAt, Adoption;
    FirstAdopted(db.seals, archive, listed, ExportedTo(db.exports), ExportedHash(db.exports));
    var k :| k in listed && Adoption(db.seals, archive, k, ExportedTo(db.exports), ExportedHash(db.exports)) == Some(e);
    AdoptedAgrees(db, archive, minted, now, k);
    assert Whole(db, archive, minted) by { ConsistentIsWhole(db, archive, minted, now); }
    assert (db.exports + [e])[..|db.exports|] == db.exports;
  }

  lemma ConsistentIsWhole(db: Db, archive: Archive, minted: map<Hash, Seal>, now: int)
    requires Consistent(db, archive, minted, now)
    ensures Whole(db, archive, minted) && MintedOk(minted, now) && ArchiveOk(archive, minted)
            && OneEach(db.seals, archive)
  {
  }

  /** When nothing was adopted, nothing archived agrees where recorded exports end. */
  lemma NothingAgreesThere(db: Db, archive: Archive, minted: map<Hash, Seal>, now: int, listed: seq<Key>, key: Key)
    requires Consistent(db, archive, minted, now) && Covered(db.exports) < |db.seals|
    requires Lists(archive, listed, db.seals[Covered(db.exports)].id)
    requires FirstAdoption(db.seals, archive, listed, ExportedTo(db.exports), ExportedHash(db.exports)).None?
    requires key in archive
    ensures !AgreesAt(db.seals, archive[key], Covered(db.exports))
  {
    hide Consistent, Adoption, AgreesAt;
    FirstAdopted(db.seals, archive, listed, ExportedTo(db.exports), ExportedHash(db.exports));
    if AgreesAt(db.seals, archive[key], Covered(db.exports)) { AgreeingIsAdoptable(db, archive, minted, now, key); }
  }

  /** A range written over seals `c` to `d` is well made. */
  lemma WrittenIsOk(db: Db, archive: Archive, minted: map<Hash, Seal>, now: int, d: nat)
    requires Whole(db, archive, minted) && MintedOk(minted, now) && Covered(db.exports) < d <= |db.seals|
    ensures var doc := Document(db.seals[Covered(db.exports)..d], ExportedTo(db.exports), ExportedHash(db.exports));
            && DocOk(doc, minted) && WellFormed(KeyOf(doc), doc) && AgreesAt(db.seals, doc, Covered(db.exports))
            && Describes(Record(KeyOf(doc), doc, doc.seals))
            && (doc.continuesHash.Some? ==> EndsWith(archive, doc.continuesHash.value))
  {
    hide AllMatch, Chained, ExportsTile, ExportedTo, ExportedHash, EndsWith;
    ExportedEnd(db, archive);
    var c := Covered(db.exports);
    SliceLinked(db.seals, c, d);
    ChainPrev(db.seals, c);
    assert AllMinted(minted, db.seals[c..d]);
    if c > 0 {
      assert IsMinted(minted, db.seals[c - 1]);
      LastRangeEnds(db, archive, c);
    }
  }

  lemma SliceLinked(seals: seq<Seal>, c: nat, d: nat)
    requires Chained(seals) && c <= d <= |seals|
    ensures Linked(seals[c..d])
  {
    var rows := seals[c..d];
    forall j, k | 0 <= j && k == j + 1 && k < |rows|
      ensures rows[k].prev == Some(rows[j].hash)
    {
      assert seals[c + k].prev == Some(seals[c + j].hash);
    }
  }

  lemma ChainPrev(seals: seq<Seal>, c: nat)
    requires Chained(seals) && c < |seals|
    ensures seals[c].prev == HashBefore(seals, c)
  {
    if c > 0 { assert seals[c].prev == Some(seals[c - 1].hash); }
  }

  lemma LastRangeEnds(db: Db, archive: Archive, c: nat)
    requires Chained(db.seals) && ExportsTile(db.seals, db.exports, archive) && c == Covered(db.exports) > 0
    ensures c <= |db.seals| && EndsWith(archive, db.seals[c - 1].hash)
  {
    hide Chained;
    LastCovered(db.seals, db.exports, archive);
    RecordedAgree(db.seals, db.exports, archive, |db.exports| - 1);
    var e := Last(db.exports);
    assert archive[e.key].seals != [] && Last(archive[e.key].seals).hash == db.seals[c - 1].hash;
  }

  /** Nor is its name taken: an object of that name would be the same range. */
  lemma WrittenIsNew(db: Db, archive: Archive, minted: map<Hash, Seal>, now: int, doc: Doc, key: Key)
    requires Consistent(db, archive, minted, now) && Covered(db.exports) < |db.seals|
    requires forall k :: k in archive ==> !AgreesAt(db.seals, archive[k], Covered(db.exports))
    requires doc.seals != [] && AgreesAt(db.seals, doc, Covered(db.exports)) && WellFormed(key, doc)
             && doc.firstSeal == doc.seals[0].id
    ensures key !in archive
  {
    hide AllMatch, OneEach, ExportsTile;
    var c, seals, n := Covered(db.exports), db.seals, |doc.seals|;
    assert doc.seals[0] == seals[c..c + n][0] && Last(doc.seals) == seals[c..c + n][n - 1];
    if key in archive {
      assert DocOk(archive[key], minted) && WellFormed(key, archive[key]);
      var i := EndAgrees(seals, minted, archive[key], c + n - 1);
      assert archive[key].seals[0] == seals[i..i + |archive[key].seals|][0];
      IdOrder(seals, i, c);
    }
  }

  // ---- every step keeps the invariant -----------------------------------------------------------------------------

  lemma TimelineGrows(base: seq<Snapshot>, h: Snapshot)
    requires base != [] && Timeline(base) && Follows(Last(base), h)
    ensures Timeline(base + [h])
  {
    var all := base + [h];
    forall i, j | 0 <= i < j < |all|
      ensures Follows(all[i], all[j])
    {
      if j == |base| && i < |base| - 1 { FollowsOn(base[i], Last(base), h); }
    }
  }

  lemma FollowsOn(a: Snapshot, b: Snapshot, c: Snapshot)
    requires Follows(a, b) && Follows(b, c)
    ensures Follows(a, c)
  {
    assert c.db.seals[..|a.db.seals|] == c.db.seals[..|b.db.seals|][..|a.db.seals|];
    forall k | |a.db.seals| <= k < |c.db.seals|
      ensures c.db.seals[k].sealedAt > a.time
    {
      if k < |b.db.seals| { assert c.db.seals[k] == c.db.seals[..|b.db.seals|][k]; }
    }
  }

  ghost predicate Grows(archive: Archive, more: Archive) {
    forall k :: k in archive ==> k in more && more[k] == archive[k]
  }

  /** Seals of other hashes than one stay as they were. */
  ghost predicate MintedAside(minted: map<Hash, Seal>, more: map<Hash, Seal>, h: Hash) {
    forall x :: x in minted && x != h ==> x in more && more[x] == minted[x]
  }

  ghost predicate NotAmong(seals: seq<Seal>, h: Hash) {
    forall k :: 0 <= k < |seals| ==> seals[k].hash != h
  }

  /** Either no seal was made, or one of a hash that no seal of this timeline has. */
  ghost predicate MintedBeside(seals: seq<Seal>, minted: map<Hash, Seal>, more: map<Hash, Seal>) {
    more == minted || exists h :: MintedAside(minted, more, h) && NotAmong(seals, h)
  }

  lemma WholeGrows(db: Db, archive: Archive, minted: map<Hash, Seal>, moreArchive: Archive, moreMinted: map<Hash, Seal>)
    requires Whole(db, archive, minted) && Grows(archive, moreArchive) && MintedBeside(db.seals, minted, moreMinted)
    ensures Whole(db, moreArchive, moreMinted)
  {
    hide Chained, AllMatch, ExportsTile;
    assert db.seals[..|db.seals|] == db.seals;
    TileGrows(db.seals, db.exports, archive, db.seals, moreArchive);
    forall k | 0 <= k < |db.seals|
      ensures IsMinted(moreMinted, db.seals[k])
    {
      assert IsMinted(minted, db.seals[k]);
    }
  }

  /** What the newest moment has to be for the invariant to hold again. */
  ghost predicate Continues(base: seq<Snapshot>, h: Snapshot, archive: Archive, minted: map<Hash, Seal>) {
    && base != [] && Follows(Last(base), h) && Whole(h.db, archive, minted) && AllPlaced(h, archive)
    && MintedOk(minted, h.time) && ArchiveOk(archive, minted) && OneEach(h.db.seals, archive)
  }

  lemma ContinuesKeeps(base: seq<Snapshot>, h: Snapshot, archive: Archive, minted: map<Hash, Seal>)
    requires Continues(base, h, archive, minted) && Timeline(base) && AllWhole(base, archive, minted)
    ensures Inv(Sys(base + [h], archive, minted))
  {
    hide Whole, AllPlaced, Follows, Timeline, MintedOk, ArchiveOk, OneEach;
    TimelineGrows(base, h);
    assert Last(base + [h]) == h;
  }

  lemma InvParts(s: Sys)
    requires Inv(s)
    ensures s.history != [] && Timeline(s.history) && AllWhole(s.history, s.archive, s.minted)
    ensures Consistent(Current(s), s.archive, s.minted, Last(s.history).time) && AllPlaced(Last(s.history), s.archive)
  {
    hide Whole, AllPlaced, Timeline, MintedOk, ArchiveOk, OneEach;
    assert Last(s.history) == s.history[|s.history| - 1];
  }

  /** Time passing changes nothing else. */
  lemma LaterMinted(minted: map<Hash, Seal>, now: int, later: int)
    requires MintedOk(minted, now) && now <= later
    ensures MintedOk(minted, later)
  {
  }

  lemma AppendKeeps(s: Sys, t: int, e: Event)
    requires Inv(s) && Allowed(s, t, Append(e))
    ensures Inv(Next(s, t, Append(e)))
  {
    hide Whole, AllPlaced, Timeline, MintedOk, ArchiveOk, OneEach, Inv, Consistent;
    InvParts(s);
    var db := Current(s);
    var h := Snapshot(t, db.(trail := db.trail[e.number := e]));
    ConsistentIsWhole(db, s.archive, s.minted, Last(s.history).time);
    AppendedWhole(db, s.archive, s.minted, e);
    SamePlaced(Last(s.history), h, s.archive, s.minted);
    LaterMinted(s.minted, Last(s.history).time, t);
    assert h.db.seals[..|db.seals|] == db.seals;
    ContinuesKeeps(s.history, h, s.archive, s.minted);
  }

  lemma AppendedWhole(db: Db, archive: Archive, minted: map<Hash, Seal>, e: Event)
    requires Whole(db, archive, minted) && e.number > LastTo(db.seals)
    ensures Whole(db.(trail := db.trail[e.number := e]), archive, minted)
  {
    hide ExportsTile, AllMinted;
    forall k | 0 <= k < |db.seals|
      ensures Matches(db.trail[e.number := e], db.seals[k])
    {
      ChainToLast(db.seals, k);
      assert Matches(db.trail, db.seals[k]);
      SameRange(db.trail, db.trail[e.number := e], db.seals[k].fromSeq, db.seals[k].toSeq);
    }
  }

  /** Everything archived so far was sealed by now, so a later moment explains it by the same seals and fences. */
  lemma SamePlaced(g: Snapshot, h: Snapshot, archive: Archive, minted: map<Hash, Seal>)
    requires AllPlaced(g, archive) && MintedOk(minted, g.time) && ArchiveOk(archive, minted)
    requires (forall s :: s in g.db.seals ==> s in h.db.seals) && h.db.fences == g.db.fences
    ensures AllPlaced(h, archive)
  {
    hide Fenced, Linked, EndsWith;
    forall k, s | k in archive && s in archive[k].seals
      ensures Placed(h, s)
    {
      assert Placed(g, s);
      assert DocOk(archive[k], minted);
      assert IsMinted(minted, s);
    }
  }

  lemma RestoreKeeps(s: Sys, t: int, k: nat, fence: Fence)
    requires Inv(s) && Allowed(s, t, Restore(k, fence))
    ensures Inv(Next(s, t, Restore(k, fence)))
  {
    hide Whole, AllPlaced, MintedOk, ArchiveOk, OneEach, Inv, Consistent, Timeline;
    InvParts(s);
    var g, base := s.history[k], s.history[..k + 1];
    var h := Snapshot(t, g.db.(fences := g.db.fences + [fence]));
    ConsistentIsWhole(Current(s), s.archive, s.minted, Last(s.history).time);
    RestoredTimeline(s.history, k, t);
    assert Whole(g.db, s.archive, s.minted) && AllPlaced(g, s.archive);
    assert Whole(h.db, s.archive, s.minted) by { FencesAside(g.db, h.db, s.archive, s.minted); }
    FencedPlaced(g, h, fence, s.archive);
    LaterMinted(s.minted, Last(s.history).time, t);
    EarlierOneEach(g, s, k);
    assert Last(base) == g && h.db.seals[..|g.db.seals|] == g.db.seals;
    ContinuesKeeps(base, h, s.archive, s.minted);
  }

  lemma FencesAside(g: Db, h: Db, archive: Archive, minted: map<Hash, Seal>)
    requires Whole(g, archive, minted) && h == g.(fences := h.fences)
    ensures Whole(h, archive, minted)
  {
  }

  lemma RestoredTimeline(history: seq<Snapshot>, k: nat, t: int)
    requires Timeline(history) && k < |history| && Last(history).time < t
    ensures Timeline(history[..k + 1]) && history[k].time < t
  {
    if k < |history| - 1 { assert Follows(history[k], history[|history| - 1]); }
  }

  /** The fence of a restore explains everything sealed after the moment recovered. */
  lemma FencedPlaced(g: Snapshot, h: Snapshot, fence: Fence, archive: Archive)
    requires AllPlaced(g, archive) && fence.knownUntil <= g.time && h.db == g.db.(fences := g.db.fences + [fence])
    ensures AllPlaced(h, archive)
  {
    forall k, s | k in archive && s in archive[k].seals
      ensures Placed(h, s)
    {
      assert Placed(g, s);
      assert fence in h.db.fences;
      if Fenced(g.db.fences, s.sealedAt) {
        var f :| f in g.db.fences && f.knownUntil < s.sealedAt;
        assert f in h.db.fences;
      }
    }
  }

  lemma EarlierOneEach(g: Snapshot, s: Sys, k: nat)
    requires Inv(s) && k < |s.history| && g == s.history[k]
    ensures OneEach(g.db.seals, s.archive)
  {
    hide AllWhole, MintedOk, ArchiveOk, AgreesAt;
    var seals := Current(s).seals;
    if k < |s.history| - 1 {
      assert Follows(g, s.history[|s.history| - 1]);
    } else {
      assert seals[..|g.db.seals|] == g.db.seals;
    }
    forall a, b, i: nat | a in s.archive && b in s.archive && AgreesAt(g.db.seals, s.archive[a], i)
      && AgreesAt(g.db.seals, s.archive[b], i)
      ensures a == b
    {
      AgreesLonger(g.db.seals, seals, s.archive[a], i);
      AgreesLonger(g.db.seals, seals, s.archive[b], i);
    }
  }

  lemma SealKeeps(s: Sys, t: int, step: Step)
    requires Inv(s) && step.SealAudit? && Allowed(s, t, step)
    ensures Inv(Next(s, t, step))
  {
    hide Whole, AllPlaced, MintedOk, ArchiveOk, OneEach, Inv, Consistent, Timeline, NextSeal, AllWhole;
    InvParts(s);
    var g, db := Last(s.history), Current(s);
    var made := SealOf(db, t, step.id, step.top, step.settle);
    ConsistentIsWhole(db, s.archive, s.minted, g.time);
    var minted := NextMinted(s, t, step);
    var h := Snapshot(t, NextDb(s, t, step));
    if made.None? {
      SamePlaced(g, h, s.archive, s.minted);
      LaterMinted(s.minted, g.time, t);
    } else {
      SealExtends(db, t, step.id, step.top, step.settle);
      SealIsNewHere(db, s.archive, s.minted, made.value);
      SealedWhole(db, s.archive, s.minted, made.value);
      SamePlaced(g, h, s.archive, s.minted);
      MintedMore(s.minted, g.time, t, made.value);
      ArchiveOkMore(s.archive, s.minted, made.value);
      OneEachMore(db.seals, s.archive, s.minted, made.value);
      PlacedAlways(s.history, s.archive, s.minted);
      AllBeside(s.history, s.minted, made.value);
      AllWholeGrows(s.history, s.archive, s.minted, s.archive, minted);
    }
    assert h.db.seals[..|db.seals|] == db.seals;
    ContinuesKeeps(s.history, h, s.archive, minted);
  }

  lemma SealExtends(db: Db, t: int, id: nat, top: nat, settle: nat)
    requires SealOf(db, t, id, top, settle).Some?
    ensures var made := SealOf(db, t, id, top, settle).value;
            && made.id == id && made.sealedAt == t && made.fromSeq == LastTo(db.seals) + 1 <= made.toSeq
            && made.prev == LastHash(db.seals) && Matches(db.trail, made)
  {
  }

  /** A seal's hash continues as many as there are seals before it, so none of them has it. */
  lemma SealIsNewHere(db: Db, archive: Archive, minted: map<Hash, Seal>, made: Seal)
    requires Whole(db, archive, minted) && Matches(db.trail, made) && made.prev == LastHash(db.seals)
    ensures NotAmong(db.seals, made.hash)
  {
    hide ExportsTile, AllMinted;
    SealDepth(db, made);
    if db.seals != [] { DepthInChain(db, |db.seals| - 1); }
    forall k | 0 <= k < |db.seals|
      ensures db.seals[k].hash != made.hash
    {
      DepthInChain(db, k);
    }
  }

  lemma SealedWhole(db: Db, archive: Archive, minted: map<Hash, Seal>, made: Seal)
    requires Whole(db, archive, minted) && NotAmong(db.seals, made.hash) && Matches(db.trail, made)
    requires made.fromSeq == LastTo(db.seals) + 1 <= made.toSeq && made.prev == LastHash(db.seals)
    requires forall k :: k in db.seals ==> k.id < made.id
    ensures Whole(db.(seals := db.seals + [made]), archive, minted[made.hash := made])
  {
    hide Chained, AllMatch, ExportsTile, Matches;
    AppendedChain(db.trail, db.seals, made);
    assert (db.seals + [made])[..|db.seals|] == db.seals;
    TileGrows(db.seals, db.exports, archive, db.seals + [made], archive);
    var more, all := minted[made.hash := made], db.seals + [made];
    forall k | 0 <= k < |all|
      ensures IsMinted(more, all[k])
    {
      if k < |db.seals| { assert IsMinted(minted, db.seals[k]); }
    }
  }

  lemma MintedMore(minted: map<Hash, Seal>, now: int, t: int, made: Seal)
    requires MintedOk(minted, now) && now < t && made.sealedAt == t && made.id > 0
    ensures MintedOk(minted[made.hash := made], t)
  {
  }

  /** No moment of the timeline has a seal of the new one's hash. */
  lemma AllBeside(history: seq<Snapshot>, minted: map<Hash, Seal>, made: Seal)
    requires history != [] && Timeline(history) && NotAmong(Last(history).db.seals, made.hash)
    ensures forall i :: 0 <= i < |history| ==> MintedBeside(history[i].db.seals, minted, minted[made.hash := made])
  {
    var more, last := minted[made.hash := made], |history| - 1;
    assert MintedAside(minted, more, made.hash);
    forall i | 0 <= i < |history|
      ensures MintedBeside(history[i].db.seals, minted, more)
    {
      var seals := history[i].db.seals;
      if i < last { assert Follows(history[i], history[last]); }
      forall k | 0 <= k < |seals|
        ensures seals[k].hash != made.hash
      {
        assert history[last].db.seals[k] == if i < last then history[last].db.seals[..|seals|][k] else seals[k];
      }
      assert NotAmong(seals, made.hash);
    }
  }

  lemma ArchiveOkMore(archive: Archive, minted: map<Hash, Seal>, made: Seal)
    requires ArchiveOk(archive, minted) && Unarchived(archive, made.hash)
    ensures ArchiveOk(archive, minted[made.hash := made])
  {
    hide Linked;
    var more := minted[made.hash := made];
    forall k | k in archive
      ensures DocOk(archive[k], more)
    {
      var doc := archive[k];
      assert DocOk(doc, minted);
      forall i | 0 <= i < |doc.seals|
        ensures IsMinted(more, doc.seals[i])
      {
        assert IsMinted(minted, doc.seals[i]) && doc.seals[i] in doc.seals;
      }
      if doc.continuesHash.Some? {
        var j :| j in archive && archive[j].seals != [] && Last(archive[j].seals).hash == doc.continuesHash.value;
        assert Last(archive[j].seals) in archive[j].seals;
      }
    }
  }

  lemma OneEachMore(seals: seq<Seal>, archive: Archive, minted: map<Hash, Seal>, made: Seal)
    requires OneEach(seals, archive) && ArchiveOk(archive, minted) && Unarchived(archive, made.hash)
    ensures OneEach(seals + [made], archive)
  {
    hide EndsWith, Linked, AgreesAt, AllMinted, Names;
    forall k, l, i: nat | k in archive && l in archive && AgreesAt(seals + [made], archive[k], i)
      && AgreesAt(seals + [made], archive[l], i)
      ensures k == l
    {
      assert DocOk(archive[k], minted) && DocOk(archive[l], minted);
      AgreesBefore(seals, made, archive[k], i);
      AgreesBefore(seals, made, archive[l], i);
    }
  }

  lemma AgreesBefore(seals: seq<Seal>, made: Seal, doc: Doc, i: nat)
    requires AgreesAt(seals + [made], doc, i) && doc.seals != [] && forall x :: x in doc.seals ==> x.hash != made.hash
    ensures AgreesAt(seals, doc, i)
  {
    var n, all := |doc.seals|, seals + [made];
    assert all[i..i + n][n - 1] == Last(doc.seals);
    assert Last(doc.seals) in doc.seals;
    assert i + n <= |seals|;
    assert all[i..i + n] == seals[i..i + n];
  }

  lemma AllWholeGrows(history: seq<Snapshot>, archive: Archive, minted: map<Hash, Seal>, moreArchive: Archive,
                      moreMinted: map<Hash, Seal>)
    requires AllWhole(history, archive, minted) && Grows(archive, moreArchive)
    requires forall i :: 0 <= i < |history| ==> MintedBeside(history[i].db.seals, minted, moreMinted)
    requires forall i :: 0 <= i < |history| ==> AllPlaced(history[i], moreArchive)
    ensures AllWhole(history, moreArchive, moreMinted)
  {
    hide Whole, AllPlaced, Grows, MintedBeside;
    forall i | 0 <= i < |history|
      ensures Whole(history[i].db, moreArchive, moreMinted)
    {
      WholeGrows(history[i].db, archive, minted, moreArchive, moreMinted);
    }
  }

  lemma PlacedAlways(history: seq<Snapshot>, archive: Archive, minted: map<Hash, Seal>)
    requires AllWhole(history, archive, minted)
    ensures forall i :: 0 <= i < |history| ==> AllPlaced(history[i], archive)
  {
  }

  // ---- the export step --------------------------------------------------------------------------------------------

  /** A range written now is explained at every moment of this timeline: its seals are there already, or are newer. */
  lemma WrittenIsPlaced(h: Snapshot, now: Snapshot, archive: Archive, key: Key, doc: Doc, c: nat)
    requires h == now || Follows(h, now)
    requires AllPlaced(h, archive) && AgreesAt(now.db.seals, doc, c)
    ensures AllPlaced(h, archive[key := doc])
  {
    hide Fenced;
    var more := archive[key := doc];
    forall k, s | k in more && s in more[k].seals
      ensures Placed(h, s)
    {
      if k == key {
        var i :| 0 <= i < |doc.seals| && doc.seals[i] == s;
        assert now.db.seals[c..c + |doc.seals|][i] == now.db.seals[c + i];
        if c + i < |h.db.seals| { assert now.db.seals[..|h.db.seals|][c + i] == h.db.seals[c + i] || h == now; }
      } else {
        assert Placed(h, s);
      }
    }
  }

  lemma WrittenAllPlaced(history: seq<Snapshot>, archive: Archive, minted: map<Hash, Seal>, key: Key, doc: Doc, c: nat)
    requires history != [] && Timeline(history) && AllWhole(history, archive, minted)
             && AgreesAt(Last(history).db.seals, doc, c)
    ensures forall i :: 0 <= i < |history| ==> AllPlaced(history[i], archive[key := doc])
  {
    hide AllPlaced, Whole, Follows, AgreesAt;
    forall i | 0 <= i < |history|
      ensures AllPlaced(history[i], archive[key := doc])
    {
      WrittenIsPlaced(history[i], Last(history), archive, key, doc, c);
    }
  }

  lemma WrittenArchiveOk(archive: Archive, minted: map<Hash, Seal>, key: Key, doc: Doc)
    requires ArchiveOk(archive, minted) && key !in archive && WellFormed(key, doc) && DocOk(doc, minted)
    requires doc.continuesHash.Some? ==> EndsWith(archive, doc.continuesHash.value)
    ensures ArchiveOk(archive[key := doc], minted) && Grows(archive, archive[key := doc])
  {
    hide DocOk, WellFormed;
    var more := archive[key := doc];
    forall h | EndsWith(archive, h)
      ensures EndsWith(more, h)
    {
      var k :| k in archive && archive[k].seals != [] && Last(archive[k].seals).hash == h;
      assert more[k] == archive[k];
    }
  }

  lemma WrittenOneEach(db: Db, archive: Archive, key: Key, doc: Doc, c: nat)
    requires Chained(db.seals) && OneEach(db.seals, archive) && key !in archive && doc.seals != []
             && AgreesAt(db.seals, doc, c)
    requires forall k :: k in archive ==> !AgreesAt(db.seals, archive[k], c)
    ensures OneEach(db.seals, archive[key := doc])
  {
    hide Chained;
    var more := archive[key := doc];
    forall k, l, i: nat | k in more && l in more && AgreesAt(db.seals, more[k], i) && AgreesAt(db.seals, more[l], i)
      ensures k == l
    {
      if k == key || l == key { OnePlace(db.seals, doc, c, i); }
    }
  }

  lemma OnePlace(seals: seq<Seal>, doc: Doc, c: nat, i: nat)
    requires Chained(seals) && doc.seals != [] && AgreesAt(seals, doc, c)
    ensures AgreesAt(seals, doc, i) <==> i == c
  {
    if AgreesAt(seals, doc, i) {
      assert seals[i..i + |doc.seals|][0] == seals[c..c + |doc.seals|][0];
      IdOrder(seals, i, c);
    }
  }

  /** What a run of the export that writes a range writes. */
  lemma WhatIsWritten(db: Db, archive: Archive, minted: map<Hash, Seal>, now: int, listed: seq<Key>, maxSeals: nat)
      returns (d: nat)
    requires Consistent(db, archive, minted, now) && Exporting(db, archive, listed, maxSeals).Written?
    ensures var c, e := Covered(db.exports), Exporting(db, archive, listed, maxSeals).record;
            && c < d <= |db.seals|
            && e.body == Document(db.seals[c..d], ExportedTo(db.exports), ExportedHash(db.exports))
            && e.key == KeyOf(e.body) && e == Record(e.key, e.body, e.body.seals)
            && FirstAdoption(db.seals, archive, listed, ExportedTo(db.exports), ExportedHash(db.exports)).None?
            && SealsAfter(db.seals, ExportedTo(db.exports)) == db.seals[c..]
  {
    hide Consistent, FirstAdoption, SealsAfter, ExportedTo, ExportedHash, Exporting, Whole, MintedOk, ArchiveOk,
         OneEach, Document, Record, KeyOf;
    ConsistentIsWhole(db, archive, minted, now);
    PendingSeals(db, archive, minted, now);
    d := WrittenRows(db, archive, listed, maxSeals, Covered(db.exports));
  }

  lemma WrittenRows(db: Db, archive: Archive, listed: seq<Key>, maxSeals: nat, c: nat) returns (d: nat)
    requires c <= |db.seals| && SealsAfter(db.seals, ExportedTo(db.exports)) == db.seals[c..]
    requires Exporting(db, archive, listed, maxSeals).Written?
    ensures var e := Exporting(db, archive, listed, maxSeals).record;
            && c < d <= |db.seals|
            && e.body == Document(db.seals[c..d], ExportedTo(db.exports), ExportedHash(db.exports))
            && e.key == KeyOf(e.body) && e == Record(e.key, e.body, e.body.seals)
            && FirstAdoption(db.seals, archive, listed, ExportedTo(db.exports), ExportedHash(db.exports)).None?
  {
    hide FirstAdoption, SealsAfter, ExportedTo, ExportedHash;
    d := if |db.seals| - c > maxSeals then c + maxSeals else |db.seals|;
    assert db.seals[c..][..d - c] == db.seals[c..d];
  }

  lemma WrittenTiles(db: Db, archive: Archive, key: Key, doc: Doc)
    requires ExportsTile(db.seals, db.exports, archive) && AgreesAt(db.seals, doc, Covered(db.exports))
             && key !in archive
    requires doc.seals != [] && Describes(Record(key, doc, doc.seals))
    ensures ExportsTile(db.seals, db.exports, archive[key := doc])
    ensures ExportsTile(db.seals, db.exports + [Record(key, doc, doc.seals)], archive[key := doc])
  {
    hide AgreesAt, Describes;
    var more := archive[key := doc];
    assert db.seals[..|db.seals|] == db.seals;
    TileGrows(db.seals, db.exports, archive, db.seals, more);
    assert (db.exports + [Record(key, doc, doc.seals)])[..|db.exports|] == db.exports;
  }

  lemma ExportKeeps(s: Sys, t: int, step: Step)
    requires Inv(s) && step.ExportSeals? && Allowed(s, t, step)
    ensures Inv(Next(s, t, step))
  {
    hide Whole, AllPlaced, MintedOk, ArchiveOk, OneEach, Inv, Consistent, Timeline, AllWhole, Exporting, DocOk,
         Describes, Record;
    InvParts(s);
    var g, db := Last(s.history), Current(s);
    var o := Exporting(db, s.archive, step.listed, step.maxSeals);
    var h, archive := Snapshot(t, NextDb(s, t, step)), NextArchive(s, step);
    ConsistentIsWhole(db, s.archive, s.minted, g.time);
    LaterMinted(s.minted, g.time, t);
    assert h.db.seals[..|db.seals|] == db.seals;
    if !o.Written? {
      UnwrittenWhole(db, s.archive, s.minted, g.time, step.listed, step.maxSeals, step.crashes);
      SamePlaced(g, h, s.archive, s.minted);
      ContinuesKeeps(s.history, h, s.archive, s.minted);
    } else {
      var key, doc, c := o.record.key, o.record.body, Covered(db.exports);
      WrittenFits(db, s.archive, s.minted, g.time, step.listed, step.maxSeals);
      DocParts(doc, s.minted);
      WrittenWhole(db, s.archive, s.minted, o.record, h.db.exports);
      WrittenAllPlaced(s.history, s.archive, s.minted, key, doc, c);
      AllWholeGrows(s.history, s.archive, s.minted, archive, s.minted);
      WrittenArchiveOk(s.archive, s.minted, key, doc);
      SamePlaced(g, h, archive, s.minted);
      ContinuesKeeps(s.history, h, archive, s.minted);
    }
  }

  lemma UnwrittenWhole(db: Db, archive: Archive, minted: map<Hash, Seal>, now: int, listed: seq<Key>, maxSeals: nat,
                       crashes: bool)
    requires Consistent(db, archive, minted, now)
    requires !Exporting(db, archive, listed, maxSeals).Written?
    ensures Whole(db.(exports := RecordedExports(db.exports, Exporting(db, archive, listed, maxSeals), crashes)),
                  archive, minted)
  {
    ConsistentIsWhole(db, archive, minted, now);
    hide Consistent, Chained, AllMatch, AllMinted, ExportsTile, FirstAdoption, SealsAfter, ExportedTo, ExportedHash,
         MintedOk, ArchiveOk, OneEach;
    var o := Exporting(db, archive, listed, maxSeals);
    if o.Adopted? { AdoptionTiles(db, archive, minted, now, listed, o.record); }
  }

  /** All that the invariant asks of a range just written. */
  lemma WrittenFits(db: Db, archive: Archive, minted: map<Hash, Seal>, now: int, listed: seq<Key>, maxSeals: nat)
    requires Consistent(db, archive, minted, now) && Exporting(db, archive, listed, maxSeals).Written?
    requires var pending := SealsAfter(db.seals, ExportedTo(db.exports));
             pending != [] ==> Lists(archive, listed, pending[0].id)
    ensures var o := Exporting(db, archive, listed, maxSeals);
            var e, c := o.record, Covered(db.exports);
            && e.key !in archive && WellFormed(e.key, e.body) && DocOk(e.body, minted) && AgreesAt(db.seals, e.body, c)
            && (e.body.continuesHash.Some? ==> EndsWith(archive, e.body.continuesHash.value))
            && OneEach(db.seals, archive[e.key := e.body]) && Describes(e) && e == Record(e.key, e.body, e.body.seals)
  {
    ConsistentIsWhole(db, archive, minted, now);
    hide Consistent, Exporting, FirstAdoption, SealsAfter, ExportedTo, ExportedHash, MintedOk, ArchiveOk, OneEach,
         AgreesAt, DocOk, EndsWith, Lists, Chained, AllMatch, AllMinted, ExportsTile, Describes;
    var o := Exporting(db, archive, listed, maxSeals);
    var e, c := o.record, Covered(db.exports);
    var d := WhatIsWritten(db, archive, minted, now, listed, maxSeals);
    WrittenIsOk(db, archive, minted, now, d);
    WrittenAlone(db, archive, minted, now, listed);
    DocParts(e.body, minted);
    WrittenIsNew(db, archive, minted, now, e.body, e.key);
    WrittenOneEach(db, archive, e.key, e.body, c);
  }

  lemma WrittenWhole(db: Db, archive: Archive, minted: map<Hash, Seal>, e: Export, exports: seq<Export>)
    requires Whole(db, archive, minted) && e.key !in archive && AgreesAt(db.seals, e.body, Covered(db.exports))
    requires e.body.seals != [] && Describes(e) && e == Record(e.key, e.body, e.body.seals)
    requires exports == db.exports || exports == db.exports + [e]
    ensures Whole(db.(exports := exports), archive[e.key := e.body], minted)
  {
    hide Chained, AllMatch, AllMinted, ExportsTile, Describes, Record;
    WrittenTiles(db, archive, e.key, e.body);
  }

  lemma WrittenAlone(db: Db, archive: Archive, minted: map<Hash, Seal>, now: int, listed: seq<Key>)
    requires Consistent(db, archive, minted, now) && Covered(db.exports) < |db.seals|
    requires Lists(archive, listed, db.seals[Covered(db.exports)].id)
    requires FirstAdoption(db.seals, archive, listed, ExportedTo(db.exports), ExportedHash(db.exports)).None?
    ensures forall k :: k in archive ==> !AgreesAt(db.seals, archive[k], Covered(db.exports))
  {
    hide Consistent, FirstAdoption, Lists, AgreesAt;
    forall k | k in archive
      ensures !AgreesAt(db.seals, archive[k], Covered(db.exports))
    {
      NothingAgreesThere(db, archive, minted, now, listed, k);
    }
  }

  lemma DocParts(doc: Doc, minted: map<Hash, Seal>)
    requires DocOk(doc, minted)
    ensures doc.seals != [] && doc.firstSeal == doc.seals[0].id
  {
  }

  lemma StepKeeps(s: Sys, t: int, step: Step)
    requires Inv(s) && Allowed(s, t, step)
    ensures Inv(Next(s, t, step))
  {
    hide Inv, Allowed;
    match step {
      case Append(e) => AppendKeeps(s, t, e);
      case SealAudit(_, _, _) => SealKeeps(s, t, step);
      case ExportSeals(_, _, _) => ExportKeeps(s, t, step);
      case Restore(k, fence) => RestoreKeeps(s, t, k, fence);
    }
  }

  lemma {:induction false} RunsKeep(run: seq<Sys>, times: seq<int>, steps: seq<Step>, k: nat)
    requires Run(run, times, steps) && k < |run|
    ensures Inv(run[k])
  {
    hide Inv, Allowed, Next;
    if k > 0 {
      RunsKeep(run, times, steps, k - 1);
      assert Takes(run[k - 1], times[k - 1], steps[k - 1], run[k]);
      StepKeeps(run[k - 1], times[k - 1], steps[k - 1]);
    } else {
      BeginHolds(run[0]);
    }
  }

  lemma BeginHolds(s: Sys)
    requires exists t :: s == Begin(t)
    ensures Inv(s)
  {
    var t :| s == Begin(t);
    assert Range(map[], 1, 0) == [];
  }

  // ---- what verification finds in a state that can be reached ------------------------------------------------------

  /** Everything the archive holds, as it lists and returns it: there are at most a thousand objects. */
  ghost predicate Holds(archive: Archive, listed: seq<Listed>) {
    && (forall i, j :: 0 <= i < j < |listed| ==> listed[i].key != listed[j].key)
    && (forall l :: l in listed ==> l.key in archive && l.body == Some(archive[l.key]))
    && (forall k :: k in archive ==> Listed(k, Some(archive[k])) in listed)
  }

  ghost predicate AreAll(objects: seq<Object>, archive: Archive) {
    DistinctKeys(objects) && forall o :: o in objects <==> o.key in archive && archive[o.key] == o.doc
  }

  lemma {:induction false} DistinctObjects(listed: seq<Listed>)
    requires forall i, j :: 0 <= i < j < |listed| ==> listed[i].key != listed[j].key
    ensures DistinctKeys(ObjectsOf(listed))
  {
    if listed != [] {
      DistinctObjects(listed[1..]);
      ReadableObjects(listed[1..]);
      var rest := ObjectsOf(listed[1..]);
      forall o | o in rest
        ensures o.key != listed[0].key
      {
        var l :| l in listed[1..] && Readable(l) && o == Object(l.key, l.body.value);
      }
      assert forall j :: 0 <= j < |rest| ==> rest[j] in rest;
    }
  }

  lemma HeldObjects(archive: Archive, minted: map<Hash, Seal>, listed: seq<Listed>)
    requires ArchiveOk(archive, minted) && Holds(archive, listed)
    ensures AllReadable(listed) && AreAll(ObjectsOf(listed), archive)
  {
    hide DocOk, EndsWith;
    DistinctObjects(listed);
    ReadableObjects(listed);
    forall o: Object | o.key in archive && archive[o.key] == o.doc
      ensures o in ObjectsOf(listed)
    {
      var l := Listed(o.key, Some(o.doc));
      assert l in listed && Readable(l);
    }
  }

  lemma AgreesHasNoDifference(seals: seq<Seal>, doc: Doc, i: nat)
    requires Chained(seals) && AgreesAt(seals, doc, i)
    ensures FirstDifference(seals, doc).None?
  {
    hide Chained;
    forall s | s in doc.seals
      ensures SameHere(seals, s)
    {
      var k :| 0 <= k < |doc.seals| && doc.seals[k] == s;
      assert seals[i..i + |doc.seals|][k] == seals[i + k];
      FoundHere(seals, i + k);
    }
  }

  lemma NoDifferenceAgrees(seals: seq<Seal>, minted: map<Hash, Seal>, doc: Doc)
    requires Chained(seals) && AllMinted(minted, seals) && DocOk(doc, minted) && FirstDifference(seals, doc).None?
    ensures Agrees(seals, doc)
  {
    hide Chained, Linked, Agrees;
    var last := Last(doc.seals);
    assert last in doc.seals && SameHere(seals, last);
    var j: nat :| j < |seals| && seals[j] == Here(seals, last.id).value;
    var i := EndAgrees(seals, minted, doc, j);
    assert Agrees(seals, doc) by { AgreesSomewhere(seals, doc, i); }
  }

  lemma AgreesSomewhere(seals: seq<Seal>, doc: Doc, i: nat)
    requires AgreesAt(seals, doc, i)
    ensures Agrees(seals, doc)
  {
  }

  /** Every archived range that differs from the seals here is one that a restore explains. */
  lemma DifferenceIsFenced(h: Snapshot, archive: Archive, minted: map<Hash, Seal>, k: Key)
    requires Chained(h.db.seals) && AllPlaced(h, archive) && MintedOk(minted, h.time) && k in archive
             && DocOk(archive[k], minted)
    requires FirstDifference(h.db.seals, archive[k]).Some?
    ensures Supersession(h.db, archive[k]).Some?
  {
    hide Chained, Linked;
    var d := FirstDifference(h.db.seals, archive[k]).value;
    assert d in archive[k].seals && Placed(h, d) && IsMinted(minted, d);
    if d in h.db.seals {
      var j: nat :| j < |h.db.seals| && h.db.seals[j] == d;
      FoundHere(h.db.seals, j);
    }
    var f :| f in h.db.fences && f.knownUntil < d.sealedAt;
    SortKeeps(KnownEarlier, h.db.fences);
    assert f in Sort(KnownEarlier, h.db.fences);
  }

  lemma ContinuedRangeExists(seals: seq<Seal>, archive: Archive, minted: map<Hash, Seal>, objects: seq<Object>,
                             o: Object, i: nat)
    requires Chained(seals) && AllMinted(minted, seals) && ArchiveOk(archive, minted) && AreAll(objects, archive)
    requires o in objects && i > 0 && AgreesAt(seals, o.doc, i)
    ensures Preceded(seals, objects, i)
  {
    hide Chained, Linked, AllMinted, DistinctKeys;
    assert DocOk(o.doc, minted);
    assert seals[i..i + |o.doc.seals|][0] == seals[i];
    ChainPrev(seals, i);
    var k :| k in archive && archive[k].seals != [] && Last(archive[k].seals).hash == seals[i - 1].hash;
    assert DocOk(archive[k], minted);
    var h := EndAgrees(seals, minted, archive[k], i - 1);
    assert Object(k, archive[k]) in objects;
    var p := Object(k, archive[k]);
    assert p in objects && AgreesAt(seals, p.doc, h) && h + |p.doc.seals| == i;
  }

  lemma RecordedAgrees(db: Db, archive: Archive, k: Key)
    requires ExportsTile(db.seals, db.exports, archive) && k in RecordedKeys(db)
    ensures k in archive && Agrees(db.seals, archive[k])
  {
    hide ExportsTile;
    var e :| e in db.exports && e.key == k;
    var q :| 0 <= q < |db.exports| && db.exports[q] == e;
    RecordedAgree(db.seals, db.exports, archive, q);
    AgreesSomewhere(db.seals, archive[k], Covered(db.exports[..q]));
  }

  /** The invariant makes an honest archive of what is archived. */
  lemma ReachableIsHonest(h: Snapshot, archive: Archive, minted: map<Hash, Seal>, objects: seq<Object>)
    requires Consistent(h.db, archive, minted, h.time) && AllPlaced(h, archive) && AreAll(objects, archive)
    ensures HonestArchive(h.db, objects, RecordedKeys(h.db))
  {
    hide Consistent, AllPlaced, AreAll, Agrees, AgreesAt, FirstDifference, Supersession, RecordedKeys, Preceded;
    var db := h.db;
    ConsistentIsWhole(db, archive, minted, h.time);
    hide OneEach, Chained, AllMatch, AllMinted, ExportsTile, MintedOk, ArchiveOk, DocOk, Labelled;
    forall o | o in objects
      ensures Labelled(o.doc) && (FirstDifference(db.seals, o.doc).None? <==> Agrees(db.seals, o.doc))
      ensures FirstDifference(db.seals, o.doc).Some? ==> Supersession(db, o.doc).Some?
      ensures o.key in RecordedKeys(db) ==> Agrees(db.seals, o.doc)
    {
      ObjectIsHonest(h, archive, minted, objects, o);
    }
    forall o, p, i: nat | o in objects && p in objects && AgreesAt(db.seals, o.doc, i) && AgreesAt(db.seals, p.doc, i)
      ensures o == p
    {
      OneObject(db.seals, archive, objects, o, p, i);
    }
    forall o, i: nat | o in objects && i > 0 && AgreesAt(db.seals, o.doc, i)
      ensures Preceded(db.seals, objects, i)
    {
      ContinuedRangeExists(db.seals, archive, minted, objects, o, i);
    }
    assert DistinctKeys(objects) by { AllDistinct(objects, archive); }
  }

  lemma AllDistinct(objects: seq<Object>, archive: Archive)
    requires AreAll(objects, archive)
    ensures DistinctKeys(objects)
  {
  }

  lemma OneObject(seals: seq<Seal>, archive: Archive, objects: seq<Object>, o: Object, p: Object, i: nat)
    requires OneEach(seals, archive) && AreAll(objects, archive) && o in objects && p in objects
    requires AgreesAt(seals, o.doc, i) && AgreesAt(seals, p.doc, i)
    ensures o == p
  {
  }

  lemma ObjectIsHonest(h: Snapshot, archive: Archive, minted: map<Hash, Seal>, objects: seq<Object>, o: Object)
    requires Whole(h.db, archive, minted) && MintedOk(minted, h.time) && ArchiveOk(archive, minted)
             && AllPlaced(h, archive) && AreAll(objects, archive) && o in objects
    ensures var db := h.db;
            && Labelled(o.doc) && (FirstDifference(db.seals, o.doc).None? <==> Agrees(db.seals, o.doc))
            && (FirstDifference(db.seals, o.doc).Some? ==> Supersession(db, o.doc).Some?)
            && (o.key in RecordedKeys(db) ==> Agrees(db.seals, o.doc))
  {
    hide Chained, AllMatch, AllMinted, ExportsTile, MintedOk, AllPlaced, FirstDifference, Supersession, RecordedKeys,
         AgreesAt, DistinctKeys, Linked, EndsWith, Names;
    var db := h.db;
    assert DocOk(o.doc, minted);
    if FirstDifference(db.seals, o.doc).None? {
      NoDifferenceAgrees(db.seals, minted, o.doc);
    } else {
      DifferenceIsFenced(h, archive, minted, o.key);
    }
    if Agrees(db.seals, o.doc) {
      var i: nat :| AgreesAt(db.seals, o.doc, i);
      AgreesHasNoDifference(db.seals, o.doc, i);
    }
    if o.key in RecordedKeys(db) { RecordedAgrees(db, archive, o.key); }
  }

  /**
   * No false alarms: in every state that appending, sealing, exporting, crashing, adopting and restoring can lead to,
   * what is archived is what an untampered archive is to the database, so that verifying it reports nothing but seals
   * that wait (AuditVerify.VerifyAuditArchive).
   */
  lemma NeverAFalseAlarm(run: seq<Sys>, times: seq<int>, steps: seq<Step>, k: nat, listed: seq<Listed>)
    requires Run(run, times, steps) && k < |run| && Holds(run[k].archive, listed)
    ensures run[k].history != [] && Untampered(Current(run[k]), listed) && DistinctKeys(ObjectsOf(listed))
  {
    hide Run, Inv, Consistent, AllPlaced, HonestArchive, Holds, AllWhole, Timeline;
    RunsKeep(run, times, steps, k);
    var s := run[k];
    InvParts(s);
    var h := Last(s.history);
    ConsistentIsWhole(h.db, s.archive, s.minted, h.time);
    hide Chained, AllMinted, ExportsTile, MintedOk, ArchiveOk, OneEach;
    HeldObjects(s.archive, s.minted, listed);
    ReachableIsHonest(h, s.archive, s.minted, ObjectsOf(listed));
  }

  lemma NextTrail(s: Sys, t: int, step: Step)
    requires s.history != [] && (step.Restore? ==> step.k < |s.history|)
    requires forall i :: 0 <= i < |s.history| ==> ValidTrail(s.history[i].db.trail)
    ensures ValidTrail(NextDb(s, t, step).trail)
  {
    hide SealOf, Exporting, RecordedExports;
    assert Current(s) == s.history[|s.history| - 1].db;
  }

  /** Events are kept under their own numbers. */
  lemma {:induction false} TrailsStayValid(run: seq<Sys>, times: seq<int>, steps: seq<Step>, k: nat)
    requires Run(run, times, steps) && k < |run|
    ensures forall i :: 0 <= i < |run[k].history| ==> ValidTrail(run[k].history[i].db.trail)
  {
    hide FreshHash, NextDb, NextArchive, NextMinted, ValidTrail;
    if k > 0 {
      var s, t, step := run[k - 1], times[k - 1], steps[k - 1];
      TrailsStayValid(run, times, steps, k - 1);
      assert Takes(s, t, step, run[k]);
      NextTrail(s, t, step);
      var base := Base(s, step);
      assert run[k].history == base + [Snapshot(t, NextDb(s, t, step))];
      assert forall i :: 0 <= i < |base| ==> base[i] == s.history[i];
    } else {
      BeginValid(run[0]);
    }
  }

  lemma BeginValid(s: Sys)
    requires exists t :: s == Begin(t)
    ensures forall i :: 0 <= i < |s.history| ==> ValidTrail(s.history[i].db.trail)
  {
  }

  lemma {:induction false} TrailDoesNotExplain(db: Db, trail: Trail, objects: seq<Object>, recorded: set<Key>)
    requires HonestArchive(db, objects, recorded)
    ensures HonestArchive(db.(trail := trail), objects, recorded)
  {
    assert forall doc :: Supersession(db.(trail := trail), doc) == Supersession(db, doc);
  }

  /**
   * Nor is an alteration missed: in every such state, restores included, verifying with any event changed, added or
   * removed in a range that agrees with the seals here reports the seal that covers it.
   */
  lemma AlterationIsFound(run: seq<Sys>, times: seq<int>, steps: seq<Step>, k: nat, listed: seq<Listed>, trail: Trail,
                          now: int, grace: nat, chain: seq<Object>, v: Verification, o: Object, s: Seal, n: nat)
    requires Run(run, times, steps) && k < |run| && run[k].history != [] && Holds(run[k].archive, listed)
    requires Reports(Current(run[k]).(trail := trail), listed, chain, now, grace, v)
    requires o in ObjectsOf(listed) && Agrees(Current(run[k]).seals, o.doc) && s in o.doc.seals
    requires ValidTrail(trail) && s.fromSeq <= n <= s.toSeq && n > 0
    requires var before := Current(run[k]).trail;
             (n in trail) != (n in before) || (n in trail && trail[n] != before[n])
    ensures EventsDiffer(s.id) in v.findings
  {
    hide Run, Holds, HonestArchive, AllChosen, Exhausted, Warranted, Matches, ObjectsOf, ValidTrail;
    var db := Current(run[k]);
    NeverAFalseAlarm(run, times, steps, k, listed);
    TrailsStayValid(run, times, steps, k);
    assert ValidTrail(db.trail);
    TrailDoesNotExplain(db, trail, ObjectsOf(listed), RecordedKeys(db));
    assert RecordedKeys(db.(trail := trail)) == RecordedKeys(db);
    AgreeingMatches(db, o.doc, s);
    FollowedIsChecked(db.trail, db.(trail := trail), listed, chain, now, grace, v, o, s, n);
  }

  lemma AgreeingMatches(db: Db, doc: Doc, s: Seal)
    requires AllMatch(db.trail, db.seals) && Agrees(db.seals, doc) && s in doc.seals
    ensures Matches(db.trail, s)
  {
    hide Matches;
    var i: nat :| AgreesAt(db.seals, doc, i);
    var j :| 0 <= j < |doc.seals| && doc.seals[j] == s;
    assert db.seals[i + j] == s;
  }

  /**
   * Recorded exports, in order, tile the sealed sequence without gap or overlap from the first event on: each record
   * is of exactly the next seals, and the object it names holds exactly those bytes.
   */
  lemma ExportsAreInOrder(run: seq<Sys>, times: seq<int>, steps: seq<Step>, k: nat, q: nat)
    requires Run(run, times, steps) && k < |run| && run[k].history != [] && q < |Current(run[k]).exports|
    ensures var db := Current(run[k]);
            var e := db.exports[q];
            && e.key in run[k].archive && run[k].archive[e.key] == e.body && Describes(e)
            && AgreesAt(db.seals, e.body, Covered(db.exports[..q]))
            && e.fromSeq == (if q == 0 then 1 else db.exports[q - 1].toSeq + 1)
  {
    hide Run, Inv, AllWhole, Timeline, Consistent;
    RunsKeep(run, times, steps, k);
    var s := run[k];
    InvParts(s);
    var db := Current(s);
    ConsistentIsWhole(db, s.archive, s.minted, Last(s.history).time);
    hide OneEach, ArchiveOk, MintedOk, ExportsTile, AllPlaced;
    RecordedAgree(db.seals, db.exports, s.archive, q);
    NextEvent(db, s.archive, q);
  }

  lemma NextEvent(db: Db, archive: Archive, q: nat)
    requires Chained(db.seals) && ExportsTile(db.seals, db.exports, archive) && q < |db.exports|
    ensures db.exports[q].fromSeq == if q == 0 then 1 else db.exports[q - 1].toSeq + 1
  {
    hide ExportsTile;
    RecordedAgree(db.seals, db.exports, archive, q);
    var e, c := db.exports[q], Covered(db.exports[..q]);
    assert db.seals[c..c + |e.body.seals|][0] == db.seals[c];
    if q > 0 {
      RecordedAgree(db.seals, db.exports, archive, q - 1);
      var d, b := db.exports[q - 1], Covered(db.exports[..q - 1]);
      assert db.exports[..q][..q - 1] == db.exports[..q - 1];
      assert db.seals[b..b + |d.body.seals|][|d.body.seals| - 1] == db.seals[c - 1];
      assert db.seals[c].fromSeq == db.seals[c - 1].toSeq + 1;
    }
  }

  lemma {:induction false} CoveredGrows(seals: seq<Seal>, exports: seq<Export>, archive: Archive, p: nat, q: nat)
    requires ExportsTile(seals, exports, archive) && p < q <= |exports|
    ensures Covered(exports[..p]) < Covered(exports[..q])
    decreases q
  {
    hide ExportsTile;
    RecordedAgree(seals, exports, archive, q - 1);
    assert exports[..q][..q - 1] == exports[..q - 1];
    if p < q - 1 { CoveredGrows(seals, exports, archive, p, q - 1); }
  }

  /** No object is recorded twice. */
  lemma RecordedOnce(run: seq<Sys>, times: seq<int>, steps: seq<Step>, k: nat, p: nat, q: nat)
    requires Run(run, times, steps) && k < |run| && run[k].history != [] && p < q < |Current(run[k]).exports|
    ensures Current(run[k]).exports[p].key != Current(run[k]).exports[q].key
  {
    hide Run, Inv, AllWhole, Timeline, Consistent;
    RunsKeep(run, times, steps, k);
    var s := run[k];
    InvParts(s);
    var db := Current(s);
    ConsistentIsWhole(db, s.archive, s.minted, Last(s.history).time);
    hide OneEach, ArchiveOk, MintedOk, ExportsTile, AllPlaced, Chained, AgreesAt;
    RecordedAgree(db.seals, db.exports, s.archive, p);
    RecordedAgree(db.seals, db.exports, s.archive, q);
    CoveredGrows(db.seals, db.exports, s.archive, p, q);
    OnePlace(db.seals, db.exports[q].body, Covered(db.exports[..q]), Covered(db.exports[..p]));
  }

  /** An object that a crashed run left unrecorded is the one that the next run records, instead of writing another. */
  lemma OrphanIsAdopted(run: seq<Sys>, times: seq<int>, steps: seq<Step>, k: nat, key: Key, listed: seq<Key>,
                        maxSeals: nat)
    requires Run(run, times, steps) && k < |run| && run[k].history != [] && key in run[k].archive
    requires var db := Current(run[k]);
             AgreesAt(db.seals, run[k].archive[key], Covered(db.exports)) && Lists(run[k].archive, listed, key.first)
    ensures var o := Exporting(Current(run[k]), run[k].archive, listed, maxSeals);
            o.Adopted? && o.record.key == key && o.record.body == run[k].archive[key] && Describes(o.record)
  {
    hide Run, Inv, AllWhole, Timeline, Consistent, AllPlaced;
    RunsKeep(run, times, steps, k);
    InvParts(run[k]);
    hide Current;
    OrphanIsNext(Current(run[k]), run[k].archive, run[k].minted, Last(run[k].history).time, key, listed, maxSeals);
  }

  lemma OrphanIsNext(db: Db, archive: Archive, minted: map<Hash, Seal>, now: int, key: Key, listed: seq<Key>,
                     maxSeals: nat)
    requires Consistent(db, archive, minted, now) && key in archive
    requires AgreesAt(db.seals, archive[key], Covered(db.exports)) && Lists(archive, listed, key.first)
    ensures var o := Exporting(db, archive, listed, maxSeals);
            o.Adopted? && o.record.key == key && o.record.body == archive[key] && Describes(o.record)
  {
    ConsistentIsWhole(db, archive, minted, now);
    hide Consistent, AgreesAt, Adoption, Chained, AllMatch, AllMinted, ExportsTile, MintedOk, ArchiveOk, Describes,
         ExportedTo, ExportedHash, SealsAfter, FirstAdoption;
    AgreeingIsAdoptable(db, archive, minted, now, key);
    PendingSeals(db, archive, minted, now);
    var after, afterHash := ExportedTo(db.exports), ExportedHash(db.exports);
    FirstAdopted(db.seals, archive, listed, after, afterHash);
    assert key in listed;
    var l :| l in listed
      && Adoption(db.seals, archive, l, after, afterHash) == FirstAdoption(db.seals, archive, listed, after, afterHash);
    AdoptedAgrees(db, archive, minted, now, l);
    assert l == key;
  }

  // ---- how far an export gets -------------------------------------------------------------------------------------

  ghost predicate SomeAgreesThere(db: Db, archive: Archive) {
    exists k :: k in archive && AgreesAt(db.seals, archive[k], Covered(db.exports))
  }

  lemma UpToAsMany(seals: seq<Seal>, c: nat, most: nat)
    requires c <= |seals|
    ensures var left, n := seals[c..], |seals|;
            (if |left| > most then left[..most] else left) == seals[c..if c + most < n then c + most else n]
  {
  }

  /**
   * What a run exports: nothing if all is exported; the archived range that continues what is, if there is one; and
   * else all seals that are left, up to as many as it may.
   */
  lemma ExportsExactly(db: Db, archive: Archive, minted: map<Hash, Seal>, now: int, listed: seq<Key>, maxSeals: nat)
    requires Consistent(db, archive, minted, now)
    requires var pending := SealsAfter(db.seals, ExportedTo(db.exports));
             pending != [] ==> Lists(archive, listed, pending[0].id)
    ensures var c, n, o := Covered(db.exports), |db.seals|, Exporting(db, archive, listed, maxSeals);
            && c <= n
            && (o.Nothing? <==> c == n || (maxSeals == 0 && !SomeAgreesThere(db, archive)))
            && (o.Adopted? <==> c < n && SomeAgreesThere(db, archive))
            && (o.Adopted? ==> o.record.key in archive && o.record.body == archive[o.record.key]
                               && AgreesAt(db.seals, o.record.body, c))
            && (o.Written? ==> o.record.body.seals == db.seals[c..if c + maxSeals < n then c + maxSeals else n])
  {
    hide Consistent, AgreesAt, Adoption, FirstAdoption, ExportedTo, ExportedHash, SealsAfter;
    ConsistentIsWhole(db, archive, minted, now);
    hide Whole, MintedOk, ArchiveOk, OneEach, Covered, KeyOf;
    PendingSeals(db, archive, minted, now);
    var c, n := Covered(db.exports), |db.seals|;
    var after, afterHash := ExportedTo(db.exports), ExportedHash(db.exports);
    if c < n {
      assert SealsAfter(db.seals, after)[0] == db.seals[c];
      FirstAdopted(db.seals, archive, listed, after, afterHash);
      if FirstAdoption(db.seals, archive, listed, after, afterHash).Some? {
        var k :| k in listed
               && Adoption(db.seals, archive, k, after, afterHash)
                  == FirstAdoption(db.seals, archive, listed, after, afterHash);
        AdoptedAgrees(db, archive, minted, now, k);
      } else {
        forall k | k in archive
          ensures !AgreesAt(db.seals, archive[k], c)
        {
          NothingAgreesThere(db, archive, minted, now, listed, k);
        }
        UpToAsMany(db.seals, c, maxSeals);
      }
    } else {
      NoneBeyond(db, archive, minted);
    }
  }

  /** In every reachable state a run that is not cut short records more, until every seal is exported. */
  lemma ExportsAdvance(run: seq<Sys>, times: seq<int>, steps: seq<Step>, k: nat)
    requires Run(run, times, steps) && k < |steps| && steps[k].ExportSeals? && !steps[k].crashes
    requires steps[k].maxSeals > 0 && run[k].history != [] && run[k + 1].history != []
    ensures var db, after := Current(run[k]), Current(run[k + 1]);
            var c, n := Covered(db.exports), |db.seals|;
            && c <= n && after.seals == db.seals
            && (c < n ==> c < Covered(after.exports) <= n)
            && (!SomeAgreesThere(db, run[k].archive) ==>
                  Covered(after.exports) == if c + steps[k].maxSeals < n then c + steps[k].maxSeals else n)
  {
    hide Run, Inv, AllWhole, Timeline, Consistent, AgreesAt, Exporting, SomeAgreesThere, AllPlaced;
    StepTaken(run, times, steps, k);
    RunsKeep(run, times, steps, k);
    var s, step := run[k], steps[k];
    InvParts(s);
    var db, t := Current(s), times[k];
    var o := Exporting(db, s.archive, step.listed, step.maxSeals);
    ExportsExactly(db, s.archive, s.minted, Last(s.history).time, step.listed, step.maxSeals);
    assert Current(run[k + 1]) == db.(exports := RecordedExports(db.exports, o, false));
    if !o.Nothing? {
      assert (db.exports + [o.record])[..|db.exports|] == db.exports;
      if o.Adopted? {
        ArchivedHasSeals(s.archive, s.minted, db, Last(s.history).time, o.record.key);
        AgreesWithin(db.seals, o.record.body, Covered(db.exports));
      }
    }
  }

  lemma StepTaken(run: seq<Sys>, times: seq<int>, steps: seq<Step>, k: nat)
    requires Run(run, times, steps) && k < |steps|
    ensures |run| == |steps| + 1 && |times| == |steps| && Takes(run[k], times[k], steps[k], run[k + 1])
  {
  }

  lemma ArchivedHasSeals(archive: Archive, minted: map<Hash, Seal>, db: Db, now: int, key: Key)
    requires Consistent(db, archive, minted, now) && key in archive
    ensures archive[key].seals != []
  {
  }

  lemma AgreesWithin(seals: seq<Seal>, doc: Doc, i: nat)
    requires AgreesAt(seals, doc, i)
    ensures i + |doc.seals| <= |seals|
  {
  }

  lemma NoneBeyond(db: Db, archive: Archive, minted: map<Hash, Seal>)
    requires ArchiveOk(archive, minted) && Covered(db.exports) >= |db.seals|
    ensures !SomeAgreesThere(db, archive)
  {
    hide WellFormed, EndsWith;
    forall k | k in archive
      ensures !AgreesAt(db.seals, archive[k], Covered(db.exports))
    {
      assert DocOk(archive[k], minted);
    }
  }

  // ---- why an archived seal's hash must not come back -------------------------------------------------------------

  /**
   * When a run writes a range, the archive afterwards holds what the record says exactly if the name was free: an
   * object of that name is not what is written now, for then it would have been adopted.
   */
  lemma RecordHoldsExactly(db: Db, archive: Archive, listed: seq<Key>, maxSeals: nat)
    requires Chained(db.seals) && Numbered(db.seals) && ExportsTile(db.seals, db.exports, archive)
    requires var pending := SealsAfter(db.seals, ExportedTo(db.exports));
             pending != [] ==> Lists(archive, listed, pending[0].id)
    requires Exporting(db, archive, listed, maxSeals).Written?
    ensures var o := Exporting(db, archive, listed, maxSeals);
            var after := ExportedArchive(archive, o);
            o.record.key in after && (after[o.record.key] == o.record.body <==> o.record.key !in archive)
  {
    hide Chained, ExportsTile, ExportedTo, ExportedHash, SealsAfter, FirstAdoption, Adoption, Exporting;
    PendingAre(db, archive);
    var c, o := Covered(db.exports), Exporting(db, archive, listed, maxSeals);
    var d := WrittenRows(db, archive, listed, maxSeals, c);
    var after, afterHash := ExportedTo(db.exports), ExportedHash(db.exports);
    FirstAdopted(db.seals, archive, listed, after, afterHash);
    var key, doc := o.record.key, o.record.body;
    assert doc.seals[0] == db.seals[c] && Last(doc.seals) == db.seals[d - 1];
    assert key in archive ==> key in listed;
    if key in archive && archive[key] == doc {
      Between(db.seals, c, d);
      if c > 0 { IdOrder(db.seals, c - 1, c); }
      AdoptableIf(db.seals, archive, key, after, afterHash);
    }
  }

  ghost predicate CanGo(s: Sys, t: int, step: Step, u: Sys) {
    s.history != [] && Possible(s, t, step) && u == Next(s, t, step)
  }

  /**
   * A restore that recovers the events of a lost seal but not the seal lets them be sealed again, to the same hash at
   * another time. The name is then taken by the lost range, which is not adopted, because it bears the older time; the
   * record is of bytes that the archive does not hold.
   */
  lemma ReusedHashBreaksTheRecord() returns (run: seq<Sys>, times: seq<int>, steps: seq<Step>)
    ensures |run| == |steps| + 1 == |times| + 1 && run[0] == Begin(0)
    ensures forall i, j :: 0 <= i < |steps| && j == i + 1 ==> CanGo(run[i], times[i], steps[i], run[j])
    ensures var s := Last(run);
            s.history != [] && Current(s).exports != [] &&
            var e := Last(Current(s).exports);
            e.key in s.archive && s.archive[e.key] != e.body
  {
    hide CanGo;
    var s0 := Begin(0);
    var s1, s2, s3 := SealedAndExported(s0);
    var s4, s5, s6 := RestoredAndSealedAgain(s3);
    var e := Event(1, 0, 0);
    times := [1, 2, 3, 4, 5, 6];
    steps := [Append(e), Step.SealAudit(1, 1, 0), ExportSeals([], 9, false), Restore(1, Fence(0, 1)),
              Step.SealAudit(1, 1, 0), ExportSeals([Key(1, 1, Hash(None, [e]))], 9, false)];
    run := [s0, s1, s2, s3, s4, s5, s6];
  }

  /** The one event of the example, its seal at a time, the range that holds the seal, and the record of that. */
  function OneTrail(): Trail {
    map[1 := Event(1, 0, 0)]
  }

  function OneSeal(t: int): Seal {
    Seal(1, 1, 1, 1, None, Hash(None, [Event(1, 0, 0)]), t)
  }

  function OneDoc(t: int): Doc {
    Doc(1, 1, 1, 1, 0, None, [OneSeal(t)])
  }

  function OneRecord(t: int): Export {
    Export(1, 1, 1, 1, 1, OneSeal(t).hash, Key(1, 1, OneSeal(t).hash), OneDoc(t))
  }

  lemma SealedAndExported(s0: Sys) returns (s1: Sys, s2: Sys, s3: Sys)
    requires s0 == Begin(0)
    ensures CanGo(s0, 1, Append(Event(1, 0, 0)), s1) && CanGo(s1, 2, Step.SealAudit(1, 1, 0), s2)
            && CanGo(s2, 3, ExportSeals([], 9, false), s3)
    ensures |s3.history| == 4 && s3.history[1] == Snapshot(1, Db(OneTrail(), [], [], [])) && s3.history[3].time == 3
    ensures s3.archive == map[OneRecord(2).key := OneDoc(2)]
  {
    hide NextSeal, Exporting;
    OneEventSeals(Event(1, 0, 0), 2);
    FirstExport(OneTrail(), [], OneSeal(2), map[], [], OneRecord(2));
    s1 := Next(s0, 1, Append(Event(1, 0, 0)));
    Goes(s0, 1, Append(Event(1, 0, 0)), Db(OneTrail(), [], [], []), map[]);
    s2 := Next(s1, 2, Step.SealAudit(1, 1, 0));
    Goes(s1, 2, Step.SealAudit(1, 1, 0), Db(OneTrail(), [OneSeal(2)], [], []), map[]);
    s3 := Next(s2, 3, ExportSeals([], 9, false));
    Goes(s2, 3, ExportSeals([], 9, false), Db(OneTrail(), [OneSeal(2)], [OneRecord(2)], []),
         map[OneRecord(2).key := OneDoc(2)]);
  }

  lemma RestoredAndSealedAgain(s3: Sys) returns (s4: Sys, s5: Sys, s6: Sys)
    requires |s3.history| == 4 && s3.history[1] == Snapshot(1, Db(OneTrail(), [], [], [])) && s3.history[3].time == 3
    requires s3.archive == map[OneRecord(2).key := OneDoc(2)]
    ensures CanGo(s3, 4, Restore(1, Fence(0, 1)), s4) && CanGo(s4, 5, Step.SealAudit(1, 1, 0), s5)
            && CanGo(s5, 6, ExportSeals([OneRecord(2).key], 9, false), s6)
    ensures s6.history != [] && Current(s6).exports == [OneRecord(5)] && s6.archive == s3.archive
  {
    hide NextSeal, Exporting, CanGo;
    OneEventSeals(Event(1, 0, 0), 5);
    var fences := [Fence(0, 1)];
    FirstExport(OneTrail(), fences, OneSeal(5), s3.archive, [OneRecord(2).key], OneRecord(5));
    s4 := Next(s3, 4, Restore(1, Fence(0, 1)));
    Goes(s3, 4, Restore(1, Fence(0, 1)), Db(OneTrail(), [], [], fences), s3.archive);
    s5 := Next(s4, 5, Step.SealAudit(1, 1, 0));
    Goes(s4, 5, Step.SealAudit(1, 1, 0), Db(OneTrail(), [OneSeal(5)], [], fences), s3.archive);
    s6 := Next(s5, 6, ExportSeals([OneRecord(2).key], 9, false));
    Goes(s5, 6, ExportSeals([OneRecord(2).key], 9, false), Db(OneTrail(), [OneSeal(5)], [OneRecord(5)], fences),
         s3.archive);
  }

  lemma Goes(s: Sys, t: int, step: Step, db: Db, archive: Archive)
    requires s.history != [] && Possible(s, t, step) && NextDb(s, t, step) == db && NextArchive(s, step) == archive
    ensures var u := Next(s, t, step);
            CanGo(s, t, step, u) && u.history != [] && Last(u.history) == Snapshot(t, db) && u.archive == archive
  {
  }

  lemma OneEventSeals(e: Event, t: int)
    requires e.number == 1 && e.at < t
    ensures NextSeal(map[1 := e], 1, [], 1, t, 0) == Some(Seal(1, 1, 1, 1, None, Hash(None, [e]), t))
  {
    assert Range(map[1 := e], 1, 0) == [];
    assert Range(map[1 := e], 1, 1) == [e];
  }

  /** The first export of one seal, where any object of its name is of another time. */
  lemma FirstExport(trail: Trail, fences: seq<Fence>, s: Seal, archive: Archive, listed: seq<Key>, record: Export)
    requires s.id == 1
             && forall k :: k in archive ==> archive[k].seals != [s] && archive[k].firstSeal == archive[k].lastSeal == 1
    requires var doc := Doc(1, 1, s.fromSeq, s.toSeq, 0, None, [s]);
             record == Export(1, 1, s.fromSeq, s.toSeq, 1, s.hash, Key(1, 1, s.hash), doc)
    ensures Exporting(Db(trail, [s], [], fences), archive, listed, 9) == Written(record)
    ensures SealsAfter([s], 0) == [s]
  {
    FilterSlice([s], 0, 1, (x: Seal) => x.id > 0);
    FilterSlice([s], 0, 1, (x: Seal) => 1 <= x.id <= 1);
    assert SealsAfter([s], 0) == Filter([s], (x: Seal) => x.id > 0)
           && SealsBetween([s], 1, 1) == Filter([s], (x: Seal) => 1 <= x.id <= 1);
    FirstAdopted([s], archive, listed, 0, None);
  }

  // ---- the sealing machine, step for step -------------------------------------------------------------------------

  lemma {:induction false} SealNumbersArePositive(l: Limits, run: seq<AuditSeal.State>, steps: seq<AuditSeal.Step>,
                                                  k: nat)
    requires AuditSeal.Run(l, run, steps) && k < |run|
    ensures run[k].nextId > 0
  {
    if k > 0 {
      SealNumbersArePositive(l, run, steps, k - 1);
      assert AuditSeal.Takes(l, run[k - 1], steps[k - 1], run[k - 1 + 1]);
    }
  }

  /**
   * What happens to the trail and its seals, with transactions open and a clock running, are steps allowed here: a
   * commit is an `Append`, a sealing run a `SealAudit`, and nothing else changes either.
   */
  lemma SealingIsAllowed(l: Limits, run: seq<AuditSeal.State>, steps: seq<AuditSeal.Step>, k: nat, s: Sys, t: int)
    requires AuditSeal.Run(l, run, steps) && SettlesLongEnough(l) && k < |steps|
    requires s.history != [] && Last(s.history).time < t
    requires Current(s).trail == run[k].trail && Current(s).seals == run[k].seals
    ensures steps[k].Commit? ==>
              var step := Append(steps[k].event);
              Possible(s, t, step) && NextDb(s, t, step).trail == run[k + 1].trail && run[k + 1].seals == run[k].seals
    ensures steps[k].SealAudit? && t == run[k].now ==>
              var step := Step.SealAudit(run[k].nextId, |run[k].born|, l.settle);
              Possible(s, t, step) && NextDb(s, t, step).seals == run[k + 1].seals && run[k + 1].trail == run[k].trail
    ensures !steps[k].Commit? && !steps[k].SealAudit? ==>
              run[k + 1].trail == run[k].trail && run[k + 1].seals == run[k].seals
  {
    hide AllMatch, Chained, Range, HighestSettled;
    SealsStaySound(l, run, steps, k);
    SealNumbersArePositive(l, run, steps, k);
    assert AuditSeal.Takes(l, run[k], steps[k], run[k + 1]);
  }
}
