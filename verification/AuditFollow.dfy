/**
 * The first half of `verifyAuditArchive` (packages/audit/src/export.ts): following this database's chain through
 * archived ranges that restores may have made branch.
 */
module AuditFollow {
  import opened Sequences
  import opened AuditSeal
  import opened AuditArchive

  datatype Finding =
    | Gap(lastSeal: nat, next: nat)
    | ChainBroken(seal: nat)
    | Unreadable(key: Key)
    | SealDiffers(seal: nat)
    | SealMissingHere(seal: nat)
    | EventsDiffer(seal: nat)
    | NotArchived(seal: nat)
    | Diverged(key: Key)

  /** A range from a timeline this database no longer has. */
  datatype Superseded = Superseded(divergesAt: nat, fence: nat)

  datatype Object = Object(key: Key, doc: Doc)

  // ---- the comparisons ----------------------------------------------------------------------------------------

  predicate Same(a: Seal, b: Seal) {
    a.hash == b.hash && a.prev == b.prev && a.fromSeq == b.fromSeq && a.toSeq == b.toSeq
  }

  /** The seal here under a number. */
  function Here(seals: seq<Seal>, id: nat): Option<Seal> {
    Find(seals, (s: Seal) => s.id == id)
  }

  predicate SameHere(seals: seq<Seal>, s: Seal) {
    Here(seals, s.id).Some? && Same(s, Here(seals, s.id).value)
  }

  function FirstDifference(seals: seq<Seal>, doc: Doc): Option<Seal> {
    Find(doc.seals, (s: Seal) => !SameHere(seals, s))
  }

  predicate KnownEarlier(a: Fence, b: Fence) {
    a.knownUntil < b.knownUntil
  }

  /** The fence, the earliest first, that the first differing seal was sealed after. */
  function Supersession(db: Db, doc: Doc): Option<Superseded> {
    var d := FirstDifference(db.seals, doc);
    if d.None? then None
    else
      var fence := Find(Sort(KnownEarlier, db.fences), (f: Fence) => d.value.sealedAt > f.knownUntil);
      if fence.None? then None else Some(Superseded(d.value.id, fence.value.ref))
  }

  // ---- following the chain --------------------------------------------------------------------------------------

  ghost predicate DistinctKeys(objects: seq<Object>) {
    forall i, j :: 0 <= i < j < |objects| ==> objects[i].key != objects[j].key
  }

  /** Each range starts where the one before it ended, the first at event 1. */
  ghost predicate Contiguous(chain: seq<Object>) {
    && (chain != [] ==> chain[0].doc.fromSeq == 1)
    && forall j, k :: 0 <= j && k == j + 1 && k < |chain| ==> chain[k].doc.fromSeq == chain[j].doc.toSeq + 1
  }

  ghost predicate PlacedIs(chain: seq<Object>, placed: set<Key>) {
    DistinctKeys(chain) && forall k :: k in placed <==> exists i :: 0 <= i < |chain| && chain[i].key == k
  }

  ghost predicate AnyGap(findings: seq<Finding>) {
    exists k :: 0 <= k < |findings| && findings[k].Gap?
  }

  /** What following the chain establishes of any archive whatever. */
  ghost predicate Followed(db: Db, objects: seq<Object>, chain: seq<Object>, placed: set<Key>,
                           superseded: map<Key, Superseded>, findings: seq<Finding>) {
    && (forall i :: 0 <= i < |chain| ==> chain[i] in objects)
    && PlacedIs(chain, placed)
    && (AnyGap(findings) || Contiguous(chain))
    && (forall k :: k in superseded ==> Explained(db, objects, placed, k, superseded[k]))
    && (forall i :: 0 <= i < |findings| ==> findings[i].Gap?)
  }

  ghost predicate Explained(db: Db, objects: seq<Object>, placed: set<Key>, k: Key, s: Superseded) {
    k !in placed && exists o :: o in objects && o.key == k && Supersession(db, o.doc) == Some(s)
  }

  function Start(chain: seq<Object>): nat {
    if chain == [] then 1 else Last(chain).doc.toSeq + 1
  }

  predicate BeforeInSeq(a: Object, b: Object) {
    a.doc.fromSeq < b.doc.fromSeq
  }

  /**
   * The range that continues the chain: its own recorded export, else one that agrees here, else one nothing explains.
   */
  function Pick(db: Db, recorded: set<Key>, superseded: map<Key, Superseded>,
                candidates: seq<Object>): (r: Option<Object>)
    ensures r.Some? ==> r.value in candidates
  {
    var a := Find(candidates, (c: Object) => c.key in recorded);
    if a.Some? then a
    else
      var b := Find(candidates, (c: Object) => FirstDifference(db.seals, c.doc).None?);
      if b.Some? then b else Find(candidates, (c: Object) => c.key !in superseded)
  }

  function NoteSuperseded(db: Db, candidates: seq<Object>, superseded: map<Key, Superseded>): map<Key, Superseded> {
    if candidates == [] then superseded
    else
      var s := Supersession(db, candidates[0].doc);
      NoteSuperseded(db, candidates[1..], if s.Some? then superseded[candidates[0].key := s.value] else superseded)
  }

  /** The candidates at a place of the event sequence. */
  function CandidatesAt(objects: seq<Object>, placed: set<Key>, expected: nat): seq<Object> {
    Filter(objects, (o: Object) => o.doc.fromSeq == expected && o.key !in placed)
  }

  /** The ranges further on that no restore explains, nearest first. */
  function LaterThan(db: Db, objects: seq<Object>, placed: set<Key>, expected: nat): seq<Object> {
    Sort(BeforeInSeq, Filter(objects, (o: Object) => o.doc.fromSeq > expected && o.key !in placed
                             && Supersession(db, o.doc).None?))
  }

  lemma {:induction false} NotedKeys(db: Db, candidates: seq<Object>, superseded: map<Key, Superseded>)
    ensures superseded.Keys <= NoteSuperseded(db, candidates, superseded).Keys
    ensures forall c ::
              c in candidates && Supersession(db, c.doc).Some? ==> c.key in NoteSuperseded(db, candidates, superseded)
    decreases |candidates|
  {
    if candidates != [] {
      var s := Supersession(db, candidates[0].doc);
      NotedKeys(db, candidates[1..], if s.Some? then superseded[candidates[0].key := s.value] else superseded);
    }
  }

  lemma {:induction false} NotedAreExplained(db: Db, objects: seq<Object>, placed: set<Key>, candidates: seq<Object>,
                                             superseded: map<Key, Superseded>)
    requires forall k :: k in superseded ==> Explained(db, objects, placed, k, superseded[k])
    requires forall c :: c in candidates ==> c in objects && c.key !in placed
    ensures var all := NoteSuperseded(db, candidates, superseded);
            forall k :: k in all ==> Explained(db, objects, placed, k, all[k])
    decreases |candidates|
  {
    if candidates != [] {
      var s := Supersession(db, candidates[0].doc);
      var next := if s.Some? then superseded[candidates[0].key := s.value] else superseded;
      var c := candidates[0];
      assert c in candidates && c in objects;
      forall k | k in next
        ensures Explained(db, objects, placed, k, next[k])
      {
        if s.Some? && k == c.key { assert c.key == k && Supersession(db, c.doc) == Some(next[k]); }
      }
      NotedAreExplained(db, objects, placed, candidates[1..], next);
      assert NoteSuperseded(db, candidates, superseded) == NoteSuperseded(db, candidates[1..], next);
    }
  }

  function KeysOf(objects: seq<Object>): set<Key> {
    set o | o in objects :: o.key
  }

  // ---- an archive that honest exports wrote ---------------------------------------------------------------------

  /**
   * What the archive and the database are to each other when nothing was tampered with; `recorded` are the exports
   * recorded here.
   */
  ghost predicate HonestArchive(db: Db, objects: seq<Object>, recorded: set<Key>) {
    && Chained(db.seals) && DistinctKeys(objects)
    && (forall o :: o in objects ==> Labelled(o.doc))
    // A range differs from the seals here only if a fence explains it; a recorded one does not.
    && (forall o :: o in objects ==> (FirstDifference(db.seals, o.doc).None? <==> Agrees(db.seals, o.doc)))
    && (forall o :: o in objects && FirstDifference(db.seals, o.doc).Some? ==> Supersession(db, o.doc).Some?)
    && (forall o :: o in objects && o.key in recorded ==> Agrees(db.seals, o.doc))
    // Of the ranges that agree, one at most starts at each seal, and each continues another.
    && (forall o, p, i: nat ::
          o in objects && p in objects && AgreesAt(db.seals, o.doc, i) && AgreesAt(db.seals, p.doc, i) ==> o == p)
    && (forall o, i: nat :: o in objects && i > 0 && AgreesAt(db.seals, o.doc, i) ==> Preceded(db.seals, objects, i))
  }

  ghost predicate Labelled(doc: Doc) {
    doc.seals != [] && doc.fromSeq == doc.seals[0].fromSeq && doc.toSeq == Last(doc.seals).toSeq
  }

  ghost predicate Preceded(seals: seq<Seal>, objects: seq<Object>, i: nat) {
    exists p, h: nat :: p in objects && AgreesAt(seals, p.doc, h) && h + |p.doc.seals| == i
  }

  /** The chain so far is the seals here up to `m`, range by range; `pos` says where each range starts. */
  ghost predicate Tiled(seals: seq<Seal>, chain: seq<Object>, pos: seq<nat>, m: nat) {
    && |pos| == |chain| + 1 && pos[0] == 0 && pos[|chain|] == m <= |seals|
    && forall q ::
        0 <= q < |chain| ==> AgreesAt(seals, chain[q].doc, pos[q]) && pos[q + 1] == pos[q] + |chain[q].doc.seals|
  }

  lemma {:induction false} SeqAfterGrows(seals: seq<Seal>, i: nat, m: nat)
    requires Chained(seals) && i < m <= |seals|
    ensures SeqAfter(seals, i) < SeqAfter(seals, m)
    decreases m
  {
    assert SeqAfter(seals, m - 1) == seals[m - 1].fromSeq;
    if i < m - 1 { SeqAfterGrows(seals, i, m - 1); }
  }

  /** A range that agrees starts where its first event says. */
  lemma StartIndex(seals: seq<Seal>, doc: Doc, i: nat, m: nat)
    requires Chained(seals) && Labelled(doc) && AgreesAt(seals, doc, i) && m <= |seals|
    ensures i == m <==> doc.fromSeq == SeqAfter(seals, m)
  {
    assert doc.seals[0] == seals[i];
    assert doc.fromSeq == SeqAfter(seals, i);
    if i < m { SeqAfterGrows(seals, i, m); } else if m < i { SeqAfterGrows(seals, m, i); }
  }

  lemma OneStartsHere(db: Db, objects: seq<Object>, recorded: set<Key>, o: Object, p: Object, i: nat)
    requires HonestArchive(db, objects, recorded) && o in objects && p in objects && AgreesAt(db.seals, o.doc, i)
             && AgreesAt(db.seals, p.doc, i)
    ensures o == p
  {
  }

  lemma PredecessorOf(db: Db, objects: seq<Object>, recorded: set<Key>, o: Object, i: nat) returns (p: Object, h: nat)
    requires HonestArchive(db, objects, recorded) && o in objects && AgreesAt(db.seals, o.doc, i) && i > 0
    ensures p in objects && AgreesAt(db.seals, p.doc, h) && h < i == h + |p.doc.seals|
  {
    assert Preceded(db.seals, objects, i);
    p, h :| p in objects && AgreesAt(db.seals, p.doc, h) && h + |p.doc.seals| == i;
    assert Labelled(p.doc);
  }

  lemma TileAt(seals: seq<Seal>, chain: seq<Object>, pos: seq<nat>, m: nat, q: nat)
    requires Tiled(seals, chain, pos, m) && q < |chain|
    ensures AgreesAt(seals, chain[q].doc, pos[q]) && pos[q + 1] == pos[q] + |chain[q].doc.seals| && |pos| == |chain| + 1
    ensures pos[0] == 0 && (q + 1 == |chain| ==> pos[q + 1] == m)
  {
  }

  /** Every range that agrees and starts within what is followed is one of those followed. */
  lemma {:induction false} AgreeingIsFollowed(db: Db, objects: seq<Object>, recorded: set<Key>, chain: seq<Object>,
                                              pos: seq<nat>, m: nat, o: Object, j: nat)
      returns (q: nat)
    requires HonestArchive(db, objects, recorded) && Tiled(db.seals, chain, pos, m)
    requires forall q :: 0 <= q < |chain| ==> chain[q] in objects
    requires o in objects && AgreesAt(db.seals, o.doc, j) && j < m
    ensures |pos| == |chain| + 1 && q < |chain| && chain[q] == o && pos[q] == j
    decreases j
  {
    hide HonestArchive;
    if j == 0 {
      q := 0;
      assert chain != [];
    } else {
      var p, h := PredecessorOf(db, objects, recorded, o, j);
      var before := AgreeingIsFollowed(db, objects, recorded, chain, pos, m, p, h);
      TileAt(db.seals, chain, pos, m, before);
      q := before + 1;
      assert q < |chain|;
    }
    TileAt(db.seals, chain, pos, m, q);
    OneStartsHere(db, objects, recorded, o, chain[q], j);
  }

  /** When nothing that agrees starts where the chain ends, nothing that agrees is left at all. */
  lemma {:induction false} NothingAgreesBeyond(db: Db, objects: seq<Object>, recorded: set<Key>, chain: seq<Object>,
                                               pos: seq<nat>, m: nat, o: Object, j: nat)
    requires HonestArchive(db, objects, recorded) && Tiled(db.seals, chain, pos, m)
    requires forall q :: 0 <= q < |chain| ==> chain[q] in objects
    requires forall p :: p in objects ==> !AgreesAt(db.seals, p.doc, m)
    requires o in objects && AgreesAt(db.seals, o.doc, j)
    ensures j < m
    decreases j
  {
    hide HonestArchive, AgreesAt;
    if j > m {
      var p, h := PredecessorOf(db, objects, recorded, o, j);
      NothingAgreesBeyond(db, objects, recorded, chain, pos, m, p, h);
      var q := AgreeingIsFollowed(db, objects, recorded, chain, pos, m, p, h);
      TileAt(db.seals, chain, pos, m, q);
      PositionsGrow(db.seals, chain, pos, m, q + 1);
    }
  }

  lemma {:induction false} PositionsGrow(seals: seq<Seal>, chain: seq<Object>, pos: seq<nat>, m: nat, q: nat)
    requires Tiled(seals, chain, pos, m) && q <= |chain|
    ensures pos[q] <= m
    decreases |chain| - q
  {
    if q < |chain| { PositionsGrow(seals, chain, pos, m, q + 1); }
  }

  // ---- the loop ---------------------------------------------------------------------------------------------------

  /** How an honest archive is followed: range by range along the seals here, with nothing to report. */
  ghost predicate OnCourse(db: Db, chain: seq<Object>, pos: seq<nat>, m: nat, expected: nat, findings: seq<Finding>) {
    Tiled(db.seals, chain, pos, m) && findings == [] && expected == SeqAfter(db.seals, m)
  }

  lemma GapKeeps(db: Db, objects: seq<Object>, chain: seq<Object>, placed: set<Key>, superseded: map<Key, Superseded>,
                 findings: seq<Finding>, gap: Finding)
    requires Followed(db, objects, chain, placed, superseded, findings) && gap.Gap?
    ensures Followed(db, objects, chain, placed, superseded, findings + [gap]) && AnyGap(findings + [gap])
  {
    hide PlacedIs, Explained, Contiguous;
    var all := findings + [gap];
    assert all[|findings|].Gap?;
  }

  lemma PlaceAdds(chain: seq<Object>, placed: set<Key>, pick: Object)
    requires PlacedIs(chain, placed) && pick.key !in placed
    ensures PlacedIs(chain + [pick], placed + {pick.key})
  {
    var all := chain + [pick];
    assert forall i :: 0 <= i < |chain| ==> all[i] == chain[i];
    assert all[|chain|] == pick;
  }

  lemma PlaceContinues(chain: seq<Object>, pick: Object)
    requires Contiguous(chain) && pick.doc.fromSeq == Start(chain)
    ensures Contiguous(chain + [pick])
  {
    var all := chain + [pick];
    assert forall i :: 0 <= i < |chain| ==> all[i] == chain[i];
    assert all[|chain|] == pick;
  }

  lemma PlaceKeeps(db: Db, objects: seq<Object>, chain: seq<Object>, placed: set<Key>, superseded: map<Key, Superseded>,
                   noted: map<Key, Superseded>, findings: seq<Finding>, pick: Object)
    requires Followed(db, objects, chain, placed, superseded, findings)
    requires pick in objects && pick.key !in placed && (AnyGap(findings) || pick.doc.fromSeq == Start(chain))
    requires forall k :: k in noted ==> Explained(db, objects, placed, k, noted[k])
    ensures Followed(db, objects, chain + [pick], placed + {pick.key}, noted - {pick.key}, findings)
  {
    hide PlacedIs, AnyGap, Contiguous;
    PlaceAdds(chain, placed, pick);
    if !AnyGap(findings) { PlaceContinues(chain, pick); }
  }

  lemma NothingPicked(db: Db, objects: seq<Object>, recorded: set<Key>, candidates: seq<Object>,
                      superseded: map<Key, Superseded>)
    requires Pick(db, recorded, superseded, candidates).None?
    ensures forall c :: c in candidates ==> FirstDifference(db.seals, c.doc).Some?
  {
  }

  lemma {:induction false} PickAgrees(db: Db, objects: seq<Object>, recorded: set<Key>, candidates: seq<Object>,
                                      superseded: map<Key, Superseded>)
    requires HonestArchive(db, objects, recorded)
    requires forall c :: c in candidates ==> c in objects
    requires forall c :: c in candidates && Supersession(db, c.doc).Some? ==> c.key in superseded
    ensures var pick := Pick(db, recorded, superseded, candidates);
            pick.Some? ==> Agrees(db.seals, pick.value.doc)
  {
    hide Supersession, FirstDifference, Agrees, AgreesAt, Labelled, Preceded, Chained;
  }

  /** The range picked in an honest archive is the next stretch of the seals here. */
  lemma PlaceTiles(db: Db, objects: seq<Object>, recorded: set<Key>, chain: seq<Object>, pos: seq<nat>, m: nat,
                   pick: Object)
    requires HonestArchive(db, objects, recorded) && Tiled(db.seals, chain, pos, m) && pick in objects
    requires Agrees(db.seals, pick.doc) && pick.doc.fromSeq == SeqAfter(db.seals, m)
    ensures var n := m + |pick.doc.seals|;
            Tiled(db.seals, chain + [pick], pos + [n], n) && SeqAfter(db.seals, n) == pick.doc.toSeq + 1
  {
    var i: nat :| AgreesAt(db.seals, pick.doc, i);
    assert Labelled(pick.doc);
    StartIndex(db.seals, pick.doc, i, m);
    var n, all, pos' := m + |pick.doc.seals|, chain + [pick], pos + [m + |pick.doc.seals|];
    assert Last(pick.doc.seals) == db.seals[m..n][n - 1 - m];
    forall q | 0 <= q < |all|
      ensures AgreesAt(db.seals, all[q].doc, pos'[q]) && pos'[q + 1] == pos'[q] + |all[q].doc.seals|
    {
      if q < |chain| { TileAt(db.seals, chain, pos, m, q); }
    }
  }

  lemma PlacedStartsBefore(db: Db, objects: seq<Object>, chain: seq<Object>, pos: seq<nat>, m: nat, placed: set<Key>,
                           p: Object)
    requires Chained(db.seals) && DistinctKeys(objects) && Tiled(db.seals, chain, pos, m) && PlacedIs(chain, placed)
    requires forall q :: 0 <= q < |chain| ==> chain[q] in objects
    requires p in objects && p.key in placed && Labelled(p.doc)
    ensures !AgreesAt(db.seals, p.doc, m)
  {
    hide Chained, AgreesAt;
    var q :| 0 <= q < |chain| && chain[q].key == p.key;
    assert chain[q] == p;
    TileAt(db.seals, chain, pos, m, q);
    PositionsGrow(db.seals, chain, pos, m, q + 1);
    if AgreesAt(db.seals, p.doc, m) {
      StartIndex(db.seals, p.doc, m, m);
      StartIndex(db.seals, p.doc, pos[q], m);
    }
  }

  /** Once nothing that agrees starts where the chain ends, everything that agrees has been placed. */
  lemma AllAgreeingPlaced(db: Db, objects: seq<Object>, recorded: set<Key>, chain: seq<Object>, pos: seq<nat>, m: nat,
                          placed: set<Key>, expected: nat)
    requires HonestArchive(db, objects, recorded) && Tiled(db.seals, chain, pos, m) && PlacedIs(chain, placed)
             && expected == SeqAfter(db.seals, m)
    requires forall q :: 0 <= q < |chain| ==> chain[q] in objects
    requires forall c :: c in CandidatesAt(objects, placed, expected) ==> FirstDifference(db.seals, c.doc).Some?
    ensures forall o :: o in objects && Agrees(db.seals, o.doc) ==> o.key in placed
  {
    hide Chained, FirstDifference, Supersession;
    forall p | p in objects
      ensures !AgreesAt(db.seals, p.doc, m)
    {
      if p.key in placed {
        PlacedStartsBefore(db, objects, chain, pos, m, placed, p);
      } else {
        assert AgreesAt(db.seals, p.doc, m) ==> Agrees(db.seals, p.doc);
        if AgreesAt(db.seals, p.doc, m) { StartIndex(db.seals, p.doc, m, m); }
      }
    }
    forall o | o in objects && Agrees(db.seals, o.doc)
      ensures o.key in placed
    {
      var j: nat :| AgreesAt(db.seals, o.doc, j);
      NothingAgreesBeyond(db, objects, recorded, chain, pos, m, o, j);
      var q := AgreeingIsFollowed(db, objects, recorded, chain, pos, m, o, j);
    }
  }

  /** What an honest archive is followed to: all of what agrees with the seals here, in order, and nothing else. */
  ghost predicate FollowedToTheEnd(db: Db, objects: seq<Object>, chain: seq<Object>, placed: set<Key>,
                                   findings: seq<Finding>) {
    && findings == []
    && (exists pos, m :: Tiled(db.seals, chain, pos, m))
    && forall o :: o in objects && Agrees(db.seals, o.doc) ==> o.key in placed
  }

  lemma NothingLater(db: Db, objects: seq<Object>, recorded: set<Key>, placed: set<Key>, expected: nat)
    requires HonestArchive(db, objects, recorded)
    requires forall o :: o in objects && Agrees(db.seals, o.doc) ==> o.key in placed
    ensures LaterThan(db, objects, placed, expected) == []
  {
    hide Supersession, FirstDifference, Agrees, AgreesAt, Labelled, Preceded, Chained;
    var later := Filter(objects, (o: Object) => o.doc.fromSeq > expected && o.key !in placed
                        && Supersession(db, o.doc).None?);
    assert forall o :: o !in later;
    EmptyIfNone(later);
  }

  lemma FirstLater(db: Db, objects: seq<Object>, placed: set<Key>, expected: nat)
    ensures var later := LaterThan(db, objects, placed, expected);
            later != [] ==> later[0] in objects && later[0].doc.fromSeq > expected
                            && CandidatesAt(objects, placed, later[0].doc.fromSeq) != []
  {
    var found := Filter(objects, (o: Object) => o.doc.fromSeq > expected && o.key !in placed
                        && Supersession(db, o.doc).None?);
    SortKeeps(BeforeInSeq, found);
    var later := LaterThan(db, objects, placed, expected);
    if later != [] {
      assert later[0] in found;
      assert later[0] in CandidatesAt(objects, placed, later[0].doc.fromSeq);
    }
  }

  lemma FollowStarts(db: Db, objects: seq<Object>)
    ensures Followed(db, objects, [], {}, map[], []) && OnCourse(db, [], [0], 0, 1, [])
  {
  }

  /** Out of candidates, the honest archive is finished. */
  lemma HonestStop(db: Db, objects: seq<Object>, recorded: set<Key>, chain: seq<Object>, pos: seq<nat>, m: nat,
                   placed: set<Key>, expected: nat, superseded: map<Key, Superseded>, findings: seq<Finding>)
    requires HonestArchive(db, objects, recorded) && OnCourse(db, chain, pos, m, expected, findings)
    requires Followed(db, objects, chain, placed, superseded, findings)
    requires forall c :: c in CandidatesAt(objects, placed, expected) ==> FirstDifference(db.seals, c.doc).Some?
    ensures FollowedToTheEnd(db, objects, chain, placed, findings) && LaterThan(db, objects, placed, expected) == []
  {
    hide HonestArchive, CandidatesAt, LaterThan, FirstDifference, PlacedIs, Contiguous, Explained, Agrees, SeqAfter;
    AllAgreeingPlaced(db, objects, recorded, chain, pos, m, placed, expected);
    NothingLater(db, objects, recorded, placed, expected);
  }

  lemma HonestPick(db: Db, objects: seq<Object>, recorded: set<Key>, chain: seq<Object>, pos: seq<nat>, m: nat,
                   placed: set<Key>, expected: nat, superseded: map<Key, Superseded>, noted: map<Key, Superseded>,
                   findings: seq<Finding>)
    requires HonestArchive(db, objects, recorded) && OnCourse(db, chain, pos, m, expected, findings)
    requires Followed(db, objects, chain, placed, superseded, findings)
    requires noted == NoteSuperseded(db, CandidatesAt(objects, placed, expected), superseded)
    ensures var pick := Pick(db, recorded, noted, CandidatesAt(objects, placed, expected));
            if pick.Some? then
              var n := m + |pick.value.doc.seals|;
              OnCourse(db, chain + [pick.value], pos + [n], n, pick.value.doc.toSeq + 1, findings)
            else FollowedToTheEnd(db, objects, chain, placed, findings)
  {
    hide HonestArchive, FirstDifference, PlacedIs, Contiguous, Explained, Agrees, SeqAfter, Followed, Supersession,
         NoteSuperseded, Pick, Tiled;
    var candidates := CandidatesAt(objects, placed, expected);
    var pick := Pick(db, recorded, noted, candidates);
    NotedKeys(db, candidates, superseded);
    PickAgrees(db, objects, recorded, candidates, noted);
    if pick.Some? {
      PlaceTiles(db, objects, recorded, chain, pos, m, pick.value);
    } else {
      NothingPicked(db, objects, recorded, candidates, noted);
      HonestStop(db, objects, recorded, chain, pos, m, placed, expected, superseded, findings);
    }
  }

  lemma NotedOf(db: Db, objects: seq<Object>, chain: seq<Object>, placed: set<Key>, expected: nat,
                superseded: map<Key, Superseded>, noted: map<Key, Superseded>, findings: seq<Finding>)
    requires Followed(db, objects, chain, placed, superseded, findings)
    requires noted == NoteSuperseded(db, CandidatesAt(objects, placed, expected), superseded)
    ensures forall k :: k in noted ==> Explained(db, objects, placed, k, noted[k])
    ensures Followed(db, objects, chain, placed, noted, findings)
  {
    hide PlacedIs, Contiguous, Explained, AnyGap, NoteSuperseded, Supersession;
    NotedAreExplained(db, objects, placed, CandidatesAt(objects, placed, expected), superseded);
  }

  lemma PickedIsOpen(db: Db, objects: seq<Object>, recorded: set<Key>, placed: set<Key>, expected: nat,
                     noted: map<Key, Superseded>)
    ensures var pick := Pick(db, recorded, noted, CandidatesAt(objects, placed, expected));
            pick.Some? ==> pick.value in objects && pick.value.key !in placed && pick.value.doc.fromSeq == expected
  {
  }

  // ---- what the loop does to any archive --------------------------------------------------------------------------

  /**
   * How a range is preferred at its place: its own recorded export, one that agrees here, one that nothing explains.
   */
  function Rank(db: Db, recorded: set<Key>, o: Object): nat {
    if o.key in recorded then 0
    else if FirstDifference(db.seals, o.doc).None? then 1
    else if Supersession(db, o.doc).None? then 2
    else 3
  }

  ghost predicate Open(objects: seq<Object>, chain: seq<Object>, o: Object) {
    o in objects && forall i :: 0 <= i < |chain| ==> chain[i].key != o.key
  }

  /** From one place the loop goes to another only over ranges that a restore explains. */
  ghost predicate JumpsTo(db: Db, objects: seq<Object>, chain: seq<Object>, next: nat) {
    next > Start(chain) &&
    forall o ::
        Open(objects, chain, o) ==>
            o.doc.fromSeq != Start(chain) && (Start(chain) < o.doc.fromSeq < next ==> Supersession(db, o.doc).Some?)
  }

  /** Each range followed was the preferred one of those left at its place, and its place the next one to go to. */
  ghost predicate Chosen(db: Db, objects: seq<Object>, recorded: set<Key>, chain: seq<Object>, i: nat) {
    i < |chain| ==>
      var c, before := chain[i], chain[..i];
      && Open(objects, before, c) && Rank(db, recorded, c) < 3
      && (forall o ::
            Open(objects, before, o) && o.doc.fromSeq == c.doc.fromSeq ==>
                Rank(db, recorded, c) <= Rank(db, recorded, o))
      && (c.doc.fromSeq == Start(before) || JumpsTo(db, objects, before, c.doc.fromSeq))
  }

  ghost predicate AllChosen(db: Db, objects: seq<Object>, recorded: set<Key>, chain: seq<Object>) {
    forall i: nat :: Chosen(db, objects, recorded, chain, i)
  }

  /**
   * Nothing is left to follow: whatever is left where the chain ends comes from a lost timeline; and if nothing is,
   * so does whatever is left further on.
   */
  ghost predicate Exhausted(db: Db, objects: seq<Object>, recorded: set<Key>, chain: seq<Object>) {
    && (forall o :: Open(objects, chain, o) && o.doc.fromSeq == Start(chain) ==> Rank(db, recorded, o) == 3)
    && ((forall o :: Open(objects, chain, o) ==> o.doc.fromSeq != Start(chain)) ==>
          forall o :: Open(objects, chain, o) && o.doc.fromSeq > Start(chain) ==> Supersession(db, o.doc).Some?)
  }

  /** Where the loop is: where the chain ends, or ahead of it, to a range that nothing explains. */
  ghost predicate Heading(db: Db, objects: seq<Object>, chain: seq<Object>, findings: seq<Finding>, expected: nat) {
    if expected == Start(chain) then AnyGap(findings) <==> !Contiguous(chain)
    else
      && AnyGap(findings) && JumpsTo(db, objects, chain, expected)
      && exists o :: Open(objects, chain, o) && o.doc.fromSeq == expected && Supersession(db, o.doc).None?
  }

  lemma OpenIsUnplaced(objects: seq<Object>, chain: seq<Object>, placed: set<Key>, o: Object)
    requires PlacedIs(chain, placed) && o in objects
    ensures Open(objects, chain, o) <==> o.key !in placed
  {
  }

  lemma CandidatesAre(objects: seq<Object>, chain: seq<Object>, placed: set<Key>, expected: nat)
    requires PlacedIs(chain, placed)
    ensures forall o ::
              o in CandidatesAt(objects, placed, expected) <==> Open(objects, chain, o) && o.doc.fromSeq == expected
  {
    hide PlacedIs;
    forall o | o in objects
      ensures Open(objects, chain, o) <==> o.key !in placed
    {
      OpenIsUnplaced(objects, chain, placed, o);
    }
  }

  lemma InSeqIsAnOrder()
    ensures StrictWeakOrder(BeforeInSeq)
  {
  }

  /** The ranges further on, nearest first. */
  lemma LaterAre(db: Db, objects: seq<Object>, chain: seq<Object>, placed: set<Key>, expected: nat)
    requires PlacedIs(chain, placed)
    ensures var later := LaterThan(db, objects, placed, expected);
            && (later == []
                <==> forall o :: Open(objects, chain, o) && o.doc.fromSeq > expected ==> Supersession(db, o.doc).Some?)
            && (later != [] ==>
                  Open(objects, chain, later[0]) && later[0].doc.fromSeq > expected
                  && Supersession(db, later[0].doc).None?)
            && (later != [] ==>
                  forall o ::
                      Open(objects, chain, o) && expected < o.doc.fromSeq < later[0].doc.fromSeq ==>
                          Supersession(db, o.doc).Some?)
  {
    hide PlacedIs, Supersession;
    forall o | o in objects
      ensures Open(objects, chain, o) <==> o.key !in placed
    {
      OpenIsUnplaced(objects, chain, placed, o);
    }
    LaterMembers(db, objects, placed, expected);
    hide LaterThan, Open;
    var later := LaterThan(db, objects, placed, expected);
    EmptyIfNone(later);
    if later != [] { assert later[0] in later; }
  }

  lemma LaterMembers(db: Db, objects: seq<Object>, placed: set<Key>, expected: nat)
    ensures var later := LaterThan(db, objects, placed, expected);
            && (forall o ::
                  o in later
                  <==> o in objects && o.doc.fromSeq > expected && o.key !in placed && Supersession(db, o.doc).None?)
            && (later != [] ==> forall o :: o in later ==> later[0].doc.fromSeq <= o.doc.fromSeq)
  {
    hide Supersession;
    var found := Filter(objects, (o: Object) => o.doc.fromSeq > expected && o.key !in placed
                        && Supersession(db, o.doc).None?);
    SortKeeps(BeforeInSeq, found);
    InSeqIsAnOrder();
    SortAscending(BeforeInSeq, found);
    NearestFirst(LaterThan(db, objects, placed, expected));
  }

  lemma NearestFirst(later: seq<Object>)
    requires Ascending(BeforeInSeq, later)
    ensures later != [] ==> forall o :: o in later ==> later[0].doc.fromSeq <= o.doc.fromSeq
  {
    forall o | o in later
      ensures later[0].doc.fromSeq <= o.doc.fromSeq
    {
      var j :| 0 <= j < |later| && later[j] == o;
      assert j == 0 || !BeforeInSeq(later[j], later[0]);
    }
  }

  lemma HeadingStarts(db: Db, objects: seq<Object>, recorded: set<Key>)
    ensures Heading(db, objects, [], [], 1) && AllChosen(db, objects, recorded, [])
  {
  }

  /**
   * With nothing at its place, the loop is where the chain ends; it then ends, or goes to the nearest range that
   * nothing explains.
   */
  lemma HeadingAhead(db: Db, objects: seq<Object>, recorded: set<Key>, chain: seq<Object>, placed: set<Key>,
                     findings: seq<Finding>, expected: nat, gap: Finding)
    requires PlacedIs(chain, placed) && Heading(db, objects, chain, findings, expected)
             && CandidatesAt(objects, placed, expected) == [] && gap.Gap?
    ensures var later := LaterThan(db, objects, placed, expected);
            if later == [] then Exhausted(db, objects, recorded, chain) && (AnyGap(findings) <==> !Contiguous(chain))
            else Heading(db, objects, chain, findings + [gap], later[0].doc.fromSeq)
    ensures expected == Start(chain)
  {
    hide PlacedIs, Supersession, Contiguous, Rank, CandidatesAt, LaterThan;
    CandidatesAre(objects, chain, placed, expected);
    LaterAre(db, objects, chain, placed, expected);
    assert expected == Start(chain);
    var later, all := LaterThan(db, objects, placed, expected), findings + [gap];
    assert all[|findings|].Gap?;
    if later != [] { assert Open(objects, chain, later[0]); }
  }

  lemma PlaceBreaks(chain: seq<Object>, pick: Object)
    ensures Contiguous(chain + [pick]) <==> Contiguous(chain) && pick.doc.fromSeq == Start(chain)
  {
    var all := chain + [pick];
    assert forall i :: 0 <= i < |chain| ==> all[i] == chain[i];
    assert all[|chain|] == pick;
    if Contiguous(all) {
      assert chain != [] ==> all[|chain|].doc.fromSeq == all[|chain| - 1].doc.toSeq + 1;
    }
  }

  /** A range placed leaves the loop where the chain ends. */
  lemma HeadingOn(db: Db, objects: seq<Object>, recorded: set<Key>, chain: seq<Object>, findings: seq<Finding>,
                  expected: nat, pick: Object)
    requires Heading(db, objects, chain, findings, expected) && AllChosen(db, objects, recorded, chain)
    requires Open(objects, chain, pick) && pick.doc.fromSeq == expected && Rank(db, recorded, pick) < 3
    requires forall o ::
               Open(objects, chain, o) && o.doc.fromSeq == expected ==>
                   Rank(db, recorded, pick) <= Rank(db, recorded, o)
    ensures Heading(db, objects, chain + [pick], findings, pick.doc.toSeq + 1)
            && AllChosen(db, objects, recorded, chain + [pick])
  {
    hide Rank, Open, JumpsTo, Contiguous;
    PlaceBreaks(chain, pick);
    var all := chain + [pick];
    assert Last(all) == pick;
    forall i: nat
      ensures Chosen(db, objects, recorded, all, i)
    {
      assert Chosen(db, objects, recorded, chain, i);
      assert i <= |chain| ==> all[..i] == chain[..i];
      assert chain[..|chain|] == chain;
    }
  }

  /** What is picked is preferred; when nothing is, everything there comes from a lost timeline. */
  lemma PickIsPreferred(db: Db, objects: seq<Object>, recorded: set<Key>, placed: set<Key>, candidates: seq<Object>,
                        noted: map<Key, Superseded>)
    requires DistinctKeys(objects) && forall c :: c in candidates ==> c in objects
    requires forall k :: k in noted ==> Explained(db, objects, placed, k, noted[k])
    requires forall c :: c in candidates && Supersession(db, c.doc).Some? ==> c.key in noted
    ensures var pick := Pick(db, recorded, noted, candidates);
            if pick.None? then forall c :: c in candidates ==> Rank(db, recorded, c) == 3
            else Rank(db, recorded, pick.value) < 3
                 && forall c :: c in candidates ==> Rank(db, recorded, pick.value) <= Rank(db, recorded, c)
  {
    hide Supersession, FirstDifference;
    forall c | c in candidates
      ensures c.key in noted <==> Supersession(db, c.doc).Some?
    {
      if c.key in noted {
        var o :| o in objects && o.key == c.key && Supersession(db, o.doc) == Some(noted[c.key]);
        assert o == c;
      }
    }
    assert forall c :: Supersession(db, c).Some? ==> FirstDifference(db.seals, c).Some? by {
      forall c
        ensures Supersession(db, c).Some? ==> FirstDifference(db.seals, c).Some?
      {
        OnlyDifferent(db, c);
      }
    }
  }

  lemma OnlyDifferent(db: Db, doc: Doc)
    ensures Supersession(db, doc).Some? ==> FirstDifference(db.seals, doc).Some?
  {
  }

  lemma StopsThere(db: Db, objects: seq<Object>, recorded: set<Key>, chain: seq<Object>, placed: set<Key>,
                   findings: seq<Finding>, expected: nat)
    requires PlacedIs(chain, placed) && Heading(db, objects, chain, findings, expected)
             && CandidatesAt(objects, placed, expected) != []
    requires forall c :: c in CandidatesAt(objects, placed, expected) ==> Rank(db, recorded, c) == 3
    ensures Exhausted(db, objects, recorded, chain) && (AnyGap(findings) <==> !Contiguous(chain))
            && expected == Start(chain)
  {
    hide PlacedIs, Contiguous, CandidatesAt;
    CandidatesAre(objects, chain, placed, expected);
    var first := CandidatesAt(objects, placed, expected)[0];
    assert first in CandidatesAt(objects, placed, expected);
    assert expected == Start(chain);
  }

  /** A gap names the seal that the chain breaks off at and the first of a range where it goes on. */
  ghost predicate GapBefore(objects: seq<Object>, chain: seq<Object>, f: Finding, expected: nat, i: nat, o: Object) {
    && i <= |chain| && o in objects && o.doc.fromSeq > Start(chain[..i])
    && o.doc.fromSeq == (if i < |chain| then chain[i].doc.fromSeq else expected)
    && f == Gap(if i == 0 then 0 else chain[i - 1].doc.lastSeal, o.doc.firstSeal)
  }

  ghost predicate GapsTell(objects: seq<Object>, chain: seq<Object>, findings: seq<Finding>, expected: nat) {
    forall f :: f in findings ==> exists i: nat, o :: GapBefore(objects, chain, f, expected, i, o)
  }

  /** Where ranges were passed over, the finding says between which seals. */
  ghost predicate GapsTold(objects: seq<Object>, chain: seq<Object>, findings: seq<Finding>) {
    forall f :: f in findings && f.Gap? ==>
      exists i: nat, o :: i < |chain| && GapBefore(objects, chain, f, 0, i, o)
  }

  lemma NoGapsYet(objects: seq<Object>)
    ensures GapsTell(objects, [], [], 1)
  {
  }

  lemma OneMoreGap(db: Db, objects: seq<Object>, chain: seq<Object>, placed: set<Key>, findings: seq<Finding>,
                   expected: nat)
    requires GapsTell(objects, chain, findings, expected) && expected == Start(chain)
    ensures var later := LaterThan(db, objects, placed, expected);
            later != [] ==>
              GapsTell(objects, chain, findings + [Gap(if chain == [] then 0 else Last(chain).doc.lastSeal,
                                                       later[0].doc.firstSeal)], later[0].doc.fromSeq)
  {
    hide LaterThan;
    var later := LaterThan(db, objects, placed, expected);
    if later != [] {
      FirstLater(db, objects, placed, expected);
      var gap := Gap(if chain == [] then 0 else Last(chain).doc.lastSeal, later[0].doc.firstSeal);
      assert chain[..|chain|] == chain;
      assert GapBefore(objects, chain, gap, later[0].doc.fromSeq, |chain|, later[0]);
      forall f | f in findings
        ensures exists i: nat, o :: GapBefore(objects, chain, f, later[0].doc.fromSeq, i, o)
      {
        var i: nat, o :| GapBefore(objects, chain, f, expected, i, o);
        assert i < |chain|;
        assert GapBefore(objects, chain, f, later[0].doc.fromSeq, i, o);
      }
    }
  }

  lemma GapsGoOn(objects: seq<Object>, chain: seq<Object>, findings: seq<Finding>, expected: nat, pick: Object,
                 next: nat)
    requires GapsTell(objects, chain, findings, expected) && pick.doc.fromSeq == expected
    ensures GapsTell(objects, chain + [pick], findings, next)
  {
    var all := chain + [pick];
    forall f | f in findings
      ensures exists i: nat, o :: GapBefore(objects, all, f, next, i, o)
    {
      var i: nat, o :| GapBefore(objects, chain, f, expected, i, o);
      assert all[..i] == chain[..i];
      assert GapBefore(objects, all, f, next, i, o);
    }
  }

  lemma GapsEnd(objects: seq<Object>, chain: seq<Object>, findings: seq<Finding>, expected: nat)
    requires GapsTell(objects, chain, findings, expected) && expected == Start(chain)
    ensures GapsTold(objects, chain, findings)
  {
    forall f | f in findings
      ensures exists i: nat, o :: i < |chain| && GapBefore(objects, chain, f, 0, i, o)
    {
      var i: nat, o :| GapBefore(objects, chain, f, expected, i, o);
      assert chain[..|chain|] == chain;
      assert i < |chain| && GapBefore(objects, chain, f, 0, i, o);
    }
  }

  method FollowChain(db: Db, objects: seq<Object>, recorded: set<Key>)
      returns (chain: seq<Object>, placed: set<Key>, superseded: map<Key, Superseded>, findings: seq<Finding>)
    requires DistinctKeys(objects)
    ensures Followed(db, objects, chain, placed, superseded, findings)
    // Any archive is followed as far as it goes, and a gap is found exactly when what was followed has one.
    ensures AllChosen(db, objects, recorded, chain) && Exhausted(db, objects, recorded, chain)
    ensures (AnyGap(findings) <==> !Contiguous(chain)) && GapsTold(objects, chain, findings)
    ensures HonestArchive(db, objects, recorded) ==> FollowedToTheEnd(db, objects, chain, placed, findings)
  {
    hide Followed, HonestArchive, FollowedToTheEnd, OnCourse, CandidatesAt, LaterThan, Pick, Explained, Supersession,
         AnyGap, FirstDifference, Heading, AllChosen, Exhausted, Contiguous, NoteSuperseded, DistinctKeys, PlacedIs,
         Rank, Open, GapsTell, GapsTold;
    chain, placed, superseded, findings := [], {}, map[], [];
    var expected: nat := 1;
    ghost var pos: seq<nat>, m: nat := [0], 0;
    FollowStarts(db, objects);
    HeadingStarts(db, objects, recorded);
    assert GapsTell(objects, chain, findings, expected) by { NoGapsYet(objects); }
    while true
      invariant Followed(db, objects, chain, placed, superseded, findings)
      invariant Heading(db, objects, chain, findings, expected) && AllChosen(db, objects, recorded, chain)
      invariant GapsTell(objects, chain, findings, expected)
      invariant HonestArchive(db, objects, recorded) ==> OnCourse(db, chain, pos, m, expected, findings)
      decreases KeysOf(objects) - placed, if CandidatesAt(objects, placed, expected) == [] then 1 else 0
    {
      var candidates := CandidatesAt(objects, placed, expected);
      FollowedPlaces(db, objects, chain, placed, superseded, findings);
      if candidates == [] {
        var later := LaterThan(db, objects, placed, expected);
        if HonestArchive(db, objects, recorded) {
          HonestStop(db, objects, recorded, chain, pos, m, placed, expected, superseded, findings);
        }
        var gap := if later == [] then Gap(0, 0)
                   else Gap(if chain == [] then 0 else Last(chain).doc.lastSeal, later[0].doc.firstSeal);
        HeadingAhead(db, objects, recorded, chain, placed, findings, expected, gap);
        if later == [] {
          GapsEnd(objects, chain, findings, expected);
          break;
        }
        OneMoreGap(db, objects, chain, placed, findings, expected);
        FirstLater(db, objects, placed, expected);
        GapKeeps(db, objects, chain, placed, superseded, findings, gap);
        findings := findings + [gap];
        expected := later[0].doc.fromSeq;
        continue;
      }
      var noted := NoteSuperseded(db, candidates, superseded);
      var pick := Pick(db, recorded, noted, candidates);
      if HonestArchive(db, objects, recorded) {
        HonestPick(db, objects, recorded, chain, pos, m, placed, expected, superseded, noted, findings);
      }
      NotedOf(db, objects, chain, placed, expected, superseded, noted, findings);
      PickedIs(db, objects, recorded, chain, placed, expected, superseded, noted, findings);
      if pick.None? {
        superseded := noted;
        GapsEnd(objects, chain, findings, expected);
        break;
      }
      PickedIsOpen(db, objects, recorded, placed, expected, noted);
      GapsGoOn(objects, chain, findings, expected, pick.value, pick.value.doc.toSeq + 1);
      PlaceStaysFollowed(db, objects, chain, placed, superseded, noted, findings, expected, pick.value);
      superseded := noted - {pick.value.key};
      placed := placed + {pick.value.key};
      chain := chain + [pick.value];
      expected := pick.value.doc.toSeq + 1;
      pos, m := pos + [m + |pick.value.doc.seals|], m + |pick.value.doc.seals|;
    }
  }

  lemma FollowedPlaces(db: Db, objects: seq<Object>, chain: seq<Object>, placed: set<Key>,
                       superseded: map<Key, Superseded>, findings: seq<Finding>)
    requires Followed(db, objects, chain, placed, superseded, findings)
    ensures PlacedIs(chain, placed)
  {
  }

  lemma PlaceStaysFollowed(db: Db, objects: seq<Object>, chain: seq<Object>, placed: set<Key>,
                           superseded: map<Key, Superseded>, noted: map<Key, Superseded>, findings: seq<Finding>,
                           expected: nat, pick: Object)
    requires Followed(db, objects, chain, placed, superseded, findings)
             && Heading(db, objects, chain, findings, expected)
    requires pick in objects && pick.key !in placed && pick.doc.fromSeq == expected
    requires forall k :: k in noted ==> Explained(db, objects, placed, k, noted[k])
    ensures Followed(db, objects, chain + [pick], placed + {pick.key}, noted - {pick.key}, findings)
  {
    hide Followed, PlacedIs, Explained, Contiguous, JumpsTo, Open;
    PlaceKeeps(db, objects, chain, placed, superseded, noted, findings, pick);
  }

  /** What a pick, or the lack of one, means for where the loop goes. */
  lemma PickedIs(db: Db, objects: seq<Object>, recorded: set<Key>, chain: seq<Object>, placed: set<Key>, expected: nat,
                 superseded: map<Key, Superseded>, noted: map<Key, Superseded>, findings: seq<Finding>)
    requires DistinctKeys(objects) && Followed(db, objects, chain, placed, noted, findings)
             && CandidatesAt(objects, placed, expected) != []
    requires Heading(db, objects, chain, findings, expected) && AllChosen(db, objects, recorded, chain)
    requires noted == NoteSuperseded(db, CandidatesAt(objects, placed, expected), superseded)
    ensures var pick := Pick(db, recorded, noted, CandidatesAt(objects, placed, expected));
            if pick.None? then Exhausted(db, objects, recorded, chain) && (AnyGap(findings) <==> !Contiguous(chain))
                               && expected == Start(chain)
            else Heading(db, objects, chain + [pick.value], findings, pick.value.doc.toSeq + 1)
                 && AllChosen(db, objects, recorded, chain + [pick.value])
  {
    hide Heading, AllChosen, Exhausted, Contiguous, PlacedIs, Explained, Rank, Open, Pick, NoteSuperseded, Supersession,
         AnyGap;
    var candidates := CandidatesAt(objects, placed, expected);
    var pick := Pick(db, recorded, noted, candidates);
    NotedKeys(db, candidates, superseded);
    PickIsPreferred(db, objects, recorded, placed, candidates, noted);
    CandidatesAre(objects, chain, placed, expected);
    if pick.None? {
      StopsThere(db, objects, recorded, chain, placed, findings, expected);
    } else {
      HeadingOn(db, objects, recorded, chain, findings, expected, pick.value);
    }
  }
}
