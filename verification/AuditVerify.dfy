/**
 * `verifyAuditArchive` of packages/audit/src/export.ts: the archive against itself, the seals here and the audit
 * events, and what a verdict means.
 */
module AuditVerify {
  import opened Sequences
  import opened AuditSeal
  import opened AuditArchive
  import opened AuditFollow

  /** A listed object as fetched: no body when it is missing or is not JSON. */
  datatype Listed = Listed(key: Key, body: Option<Doc>)

  datatype Verification = Verification(archivedSeals: nat, findings: seq<Finding>, superseded: map<Key, Superseded>)

  predicate Readable(l: Listed) {
    l.body.Some? && WellFormed(l.key, l.body.value)
  }

  function ObjectsOf(listed: seq<Listed>): seq<Object> {
    if listed == [] then []
    else (if Readable(listed[0]) then [Object(listed[0].key, listed[0].body.value)] else []) + ObjectsOf(listed[1..])
  }

  function RecordedKeys(db: Db): set<Key> {
    set e | e in db.exports :: e.key
  }

  /** The seals of followed ranges, in order. */
  function SealsOf(chain: seq<Object>): seq<Seal> {
    if chain == [] then [] else SealsOf(chain[..|chain| - 1]) + Last(chain).doc.seals
  }

  // ---- the checks -------------------------------------------------------------------------------------------------

  lemma ObjectsFrom(listed: seq<Listed>)
    ensures ObjectsOf([]) == []
    ensures listed != [] ==>
              ObjectsOf(listed) == (if Readable(listed[0]) then [Object(listed[0].key, listed[0].body.value)] else [])
              + ObjectsOf(listed[1..])
  {
  }

  method ReadArchive(listed: seq<Listed>) returns (objects: seq<Object>, findings: seq<Finding>)
    ensures objects == ObjectsOf(listed)
    ensures forall f :: f in findings <==> exists l :: l in listed && !Readable(l) && f == Unreadable(l.key)
  {
    hide WellFormed, ObjectsOf;
    objects, findings := [], [];
    ObjectsFrom(listed);
    assert listed[0..] == listed;
    for k := 0 to |listed|
      invariant objects + ObjectsOf(listed[k..]) == ObjectsOf(listed)
      invariant forall f :: f in findings <==> exists l :: l in listed[..k] && !Readable(l) && f == Unreadable(l.key)
    {
      var l := listed[k];
      assert listed[k..][0] == l && listed[k..][1..] == listed[k + 1..];
      ObjectsFrom(listed[k..]);
      assert listed[..k + 1] == listed[..k] + [l];
      if Readable(l) {
        objects := objects + [Object(l.key, l.body.value)];
      } else {
        findings := findings + [Unreadable(l.key)];
      }
    }
    assert listed[..|listed|] == listed;
  }

  ghost predicate IsDiverged(db: Db, objects: seq<Object>, placed: set<Key>, o: Object) {
    o in objects && o.key !in placed && FirstDifference(db.seals, o.doc).Some? && Supersession(db, o.doc).None?
  }

  ghost predicate IsSuperseded(db: Db, objects: seq<Object>, placed: set<Key>, k: Key) {
    k !in placed && exists o :: o in objects && o.key == k && Supersession(db, o.doc).Some?
  }

  /** The ranges off the chain: each either superseded, or a finding when it differs from the seals here. */
  method CheckLeftOver(db: Db, objects: seq<Object>, placed: set<Key>, noted: map<Key, Superseded>)
      returns (superseded: map<Key, Superseded>, findings: seq<Finding>)
    requires DistinctKeys(objects)
    requires forall k :: k in noted ==> Explained(db, objects, placed, k, noted[k])
    ensures forall k :: k in superseded ==> Explained(db, objects, placed, k, superseded[k])
    ensures forall k :: k in superseded <==> IsSuperseded(db, objects, placed, k)
    ensures forall f :: f in findings <==> exists o :: IsDiverged(db, objects, placed, o) && f == Diverged(o.key)
  {
    hide Supersession, FirstDifference;
    superseded, findings := noted, [];
    for i := 0 to |objects|
      invariant forall k :: k in superseded ==> Explained(db, objects, placed, k, superseded[k])
      invariant forall k :: k in superseded ==> IsSuperseded(db, objects, placed, k)
      invariant forall h ::
                  0 <= h < i && objects[h].key !in placed && Supersession(db, objects[h].doc).Some? ==>
                      objects[h].key in superseded
      invariant forall f ::
                  f in findings
                  <==> exists h ::
                      0 <= h < i && IsDiverged(db, objects, placed, objects[h]) && f == Diverged(objects[h].key)
    {
      var o := objects[i];
      if o.key in placed || o.key in superseded {
        SupersededNotDiverged(db, objects, placed, o, superseded);
        continue;
      }
      var s := Supersession(db, o.doc);
      if s.Some? {
        superseded := superseded[o.key := s.value];
      } else if FirstDifference(db.seals, o.doc).Some? {
        findings := findings + [Diverged(o.key)];
      }
    }
  }

  lemma SupersededNotDiverged(db: Db, objects: seq<Object>, placed: set<Key>, o: Object,
                              superseded: map<Key, Superseded>)
    requires DistinctKeys(objects) && o in objects
    requires forall k :: k in superseded ==> IsSuperseded(db, objects, placed, k)
    requires o.key in placed || o.key in superseded
    ensures !IsDiverged(db, objects, placed, o)
  {
  }

  /** The hash each seal has to continue from. */
  function HashBefore(archived: seq<Seal>, k: nat): Option<Hash>
    requires k <= |archived|
  {
    if k == 0 then None else Some(archived[k - 1].hash)
  }

  ghost predicate BrokenAt(archived: seq<Seal>, k: nat) {
    k < |archived| && archived[k].prev != HashBefore(archived, k)
  }

  ghost predicate Breaks(archived: seq<Seal>, f: Finding) {
    exists k: nat :: BrokenAt(archived, k) && f == ChainBroken(archived[k].id)
  }

  /** The chain, seal to seal across ranges as within them. */
  method CheckLinks(chain: seq<Object>) returns (archived: seq<Seal>, findings: seq<Finding>)
    ensures archived == SealsOf(chain)
    ensures forall f :: f in findings <==> Breaks(archived, f)
  {
    hide Breaks;
    archived, findings := [], [];
    NothingBreaks();
    var previousHash: Option<Hash> := None;
    for q := 0 to |chain|
      invariant archived == SealsOf(chain[..q])
      invariant previousHash == HashBefore(archived, |archived|)
      invariant forall f :: f in findings <==> Breaks(archived, f)
    {
      ghost var before := archived;
      var seals := chain[q].doc.seals;
      for h := 0 to |seals|
        invariant archived == before + seals[..h]
        invariant previousHash == HashBefore(archived, |archived|)
        invariant forall f :: f in findings <==> Breaks(archived, f)
      {
        BreaksAfter(archived, seals[h]);
        if seals[h].prev != previousHash { findings := findings + [ChainBroken(seals[h].id)]; }
        previousHash := Some(seals[h].hash);
        archived := archived + [seals[h]];
      }
      assert chain[..q + 1][..q] == chain[..q];
      assert seals[..|seals|] == seals;
    }
    assert chain[..|chain|] == chain;
  }

  lemma NothingBreaks()
    ensures forall f :: !Breaks([], f)
  {
  }

  lemma BreaksAfter(archived: seq<Seal>, s: Seal)
    ensures forall f ::
              Breaks(archived + [s], f)
              <==> Breaks(archived, f) || (s.prev != HashBefore(archived, |archived|) && f == ChainBroken(s.id))
  {
    var all := archived + [s];
    assert forall k: nat :: k < |archived| ==> (BrokenAt(all, k) <==> BrokenAt(archived, k)) && all[k] == archived[k];
    assert BrokenAt(all, |archived|) <==> s.prev != HashBefore(archived, |archived|);
    assert all[|archived|] == s;
    forall f | s.prev != HashBefore(archived, |archived|) && f == ChainBroken(s.id)
      ensures Breaks(all, f)
    {
      assert BrokenAt(all, |archived|);
    }
  }

  /** The seals here, against the archive. */
  method CheckSeals(seals: seq<Seal>, archived: seq<Seal>) returns (findings: seq<Finding>)
    ensures forall f :: f in findings <==> exists s :: s in archived && Unlike(seals, s, f)
  {
    findings := [];
    for k := 0 to |archived|
      invariant forall f :: f in findings <==> exists s :: s in archived[..k] && Unlike(seals, s, f)
    {
      var s := archived[k];
      assert archived[..k + 1] == archived[..k] + [s];
      ghost var before := findings;
      var row := Here(seals, s.id);
      if row.None? { findings := findings + [SealMissingHere(s.id)]; }
      else if !Same(s, row.value) { findings := findings + [SealDiffers(s.id)]; }
      assert forall f :: Unlike(seals, s, f) ==> f in findings;
      assert forall f :: f in findings && f !in before ==> Unlike(seals, s, f);
    }
    assert archived[..|archived|] == archived;
  }

  ghost predicate Unlike(seals: seq<Seal>, s: Seal, f: Finding) {
    var row := Here(seals, s.id);
    (row.None? && f == SealMissingHere(s.id)) || (row.Some? && !Same(s, row.value) && f == SealDiffers(s.id))
  }

  /** The audit events, re-hashed against the archived seals. */
  method CheckEvents(trail: Trail, archived: seq<Seal>) returns (findings: seq<Finding>)
    ensures forall f :: f in findings <==> exists s :: s in archived && !Matches(trail, s) && f == EventsDiffer(s.id)
  {
    findings := [];
    for k := 0 to |archived|
      invariant forall f ::
                  f in findings <==> exists s :: s in archived[..k] && !Matches(trail, s) && f == EventsDiffer(s.id)
    {
      var s := archived[k];
      assert archived[..k + 1] == archived[..k] + [s];
      var events := Range(trail, s.fromSeq, s.toSeq);
      if Hash(s.prev, events) != s.hash || |events| != s.count { findings := findings + [EventsDiffer(s.id)]; }
    }
    assert archived[..|archived|] == archived;
  }

  predicate Overdue(s: Seal, archivedTo: nat, limit: int) {
    s.fromSeq > archivedTo && s.sealedAt < limit
  }

  /** The first seal beyond the archive that has waited longer than the grace period. */
  function FirstPending(seals: seq<Seal>, archivedTo: nat, limit: int): Option<Seal> {
    Find(Sort((a: Seal, b: Seal) => a.fromSeq < b.fromSeq, seals), (s: Seal) => Overdue(s, archivedTo, limit))
  }

  lemma PendingIsExact(seals: seq<Seal>, archivedTo: nat, limit: int)
    ensures FirstPending(seals, archivedTo, limit).Some? <==> exists s :: s in seals && Overdue(s, archivedTo, limit)
    ensures FirstPending(seals, archivedTo, limit).Some? ==>
              FirstPending(seals, archivedTo, limit).value in seals
              && Overdue(FirstPending(seals, archivedTo, limit).value, archivedTo, limit)
  {
    SortKeeps((a: Seal, b: Seal) => a.fromSeq < b.fromSeq, seals);
  }

  // ---- what a verdict means ---------------------------------------------------------------------------------------

  ghost predicate AllReadable(listed: seq<Listed>) {
    forall l :: l in listed ==> Readable(l)
  }

  /** Archived seals that chain from the very first, are the seals here, and still say what the trail holds. */
  ghost predicate Sound(db: Db, archived: seq<Seal>) {
    && (forall k: nat :: !BrokenAt(archived, k))
    && (forall s :: s in archived ==> SameHere(db.seals, s))
    && (forall s :: s in archived ==> Matches(db.trail, s))
  }

  /** A range is the same as here, or explained by a restore. */
  ghost predicate Accounted(db: Db, superseded: map<Key, Superseded>, o: Object) {
    FirstDifference(db.seals, o.doc).None? || (Supersession(db, o.doc).Some? && o.key in superseded)
  }

  /** What no finding at all says. */
  ghost predicate Clean(db: Db, listed: seq<Listed>, chain: seq<Object>, superseded: map<Key, Superseded>) {
    && AllReadable(listed) && Contiguous(chain) && Sound(db, SealsOf(chain))
    && forall o :: o in ObjectsOf(listed) ==> Accounted(db, superseded, o)
  }

  /**
   * What an archive nobody tampered with is told: at most that seals still wait, and which ranges a restore superseded.
   */
  ghost predicate NoFalseAlarm(db: Db, objects: seq<Object>, v: Verification) {
    && (forall f :: f in v.findings ==> f.NotArchived?)
    && forall o :: o in objects ==> (o.key in v.superseded <==> FirstDifference(db.seals, o.doc).Some?)
  }

  ghost predicate Untampered(db: Db, listed: seq<Listed>) {
    AllReadable(listed) && HonestArchive(db, ObjectsOf(listed), RecordedKeys(db)) && AllMatch(db.trail, db.seals)
  }

  lemma {:induction false} IdsGrow(seals: seq<Seal>, i: nat, j: nat)
    requires Chained(seals) && i < j < |seals|
    ensures seals[i].id < seals[j].id
    decreases j
  {
    assert seals[j - 1].id < seals[j].id;
    if i < j - 1 { IdsGrow(seals, i, j - 1); }
  }

  /** In a chain a seal is found under its number. */
  lemma FoundHere(seals: seq<Seal>, k: nat)
    requires Chained(seals) && k < |seals|
    ensures Here(seals, seals[k].id) == Some(seals[k])
  {
    var r := Here(seals, seals[k].id);
    assert seals[k] in seals;
    var j :| 0 <= j < |seals| && seals[j] == r.value;
    if j < k { IdsGrow(seals, j, k); } else if k < j { IdsGrow(seals, k, j); }
  }

  lemma {:induction false} TiledSeals(seals: seq<Seal>, chain: seq<Object>, pos: seq<nat>, m: nat)
    requires Tiled(seals, chain, pos, m)
    ensures SealsOf(chain) == seals[..m]
    decreases |chain|
  {
    if chain != [] {
      var q := |chain| - 1;
      TileAt(seals, chain, pos, m, q);
      TiledSeals(seals, chain[..q], pos[..q + 1], pos[q]);
    }
  }

  lemma PrefixIsSound(db: Db, m: nat)
    requires Chained(db.seals) && AllMatch(db.trail, db.seals) && m <= |db.seals|
    ensures Sound(db, db.seals[..m])
  {
    var archived := db.seals[..m];
    forall k: nat
      ensures !BrokenAt(archived, k)
    {
      if 0 < k < m { assert db.seals[k].prev == Some(db.seals[k - 1].hash); }
    }
    forall s | s in archived
      ensures SameHere(db.seals, s) && Matches(db.trail, s)
    {
      var k :| 0 <= k < m && archived[k] == s;
      FoundHere(db.seals, k);
    }
  }

  /** The seals of an honest archive's chain need no complaint. */
  lemma HonestChainIsSound(db: Db, objects: seq<Object>, recorded: set<Key>, chain: seq<Object>, placed: set<Key>,
                           findings: seq<Finding>)
    requires HonestArchive(db, objects, recorded) && AllMatch(db.trail, db.seals)
             && FollowedToTheEnd(db, objects, chain, placed, findings)
    ensures Sound(db, SealsOf(chain))
  {
    hide Sound, Matches, Agrees;
    var pos, m :| Tiled(db.seals, chain, pos, m);
    TiledSeals(db.seals, chain, pos, m);
    PrefixIsSound(db, m);
  }

  lemma HonestPlacing(db: Db, objects: seq<Object>, recorded: set<Key>, chain: seq<Object>, placed: set<Key>,
                      findings: seq<Finding>, o: Object)
    requires HonestArchive(db, objects, recorded) && FollowedToTheEnd(db, objects, chain, placed, findings)
    requires PlacedIs(chain, placed) && (forall i :: 0 <= i < |chain| ==> chain[i] in objects)
    requires o in objects
    ensures o.key in placed <==> FirstDifference(db.seals, o.doc).None?
    ensures FirstDifference(db.seals, o.doc).Some? ==> Supersession(db, o.doc).Some?
  {
    hide FirstDifference, Supersession, Chained;
    if o.key in placed {
      var q :| 0 <= q < |chain| && chain[q].key == o.key;
      assert chain[q] == o;
      var pos, m :| Tiled(db.seals, chain, pos, m);
      TileAt(db.seals, chain, pos, m, q);
      assert Agrees(db.seals, o.doc);
    }
  }

  lemma {:induction false} SealsOfHolds(chain: seq<Object>, q: nat, s: Seal)
    requires q < |chain| && s in chain[q].doc.seals
    ensures s in SealsOf(chain)
    decreases |chain|
  {
    if q < |chain| - 1 { SealsOfHolds(chain[..|chain| - 1], q, s); }
  }

  /** With no finding, every range is the same as here or superseded. */
  lemma CleanAccounts(db: Db, objects: seq<Object>, chain: seq<Object>, placed: set<Key>,
                      superseded: map<Key, Superseded>, o: Object)
    requires DistinctKeys(objects) && PlacedIs(chain, placed) && (forall i :: 0 <= i < |chain| ==> chain[i] in objects)
    requires Sound(db, SealsOf(chain)) && o in objects && !IsDiverged(db, objects, placed, o)
    requires forall k :: k in superseded <==> IsSuperseded(db, objects, placed, k)
    ensures Accounted(db, superseded, o)
  {
    hide Sound, Supersession;
    if o.key in placed {
      var q :| 0 <= q < |chain| && chain[q].key == o.key;
      assert chain[q] == o;
      forall s | s in o.doc.seals
        ensures SameHere(db.seals, s)
      {
        SealsOfHolds(chain, q, s);
        SoundHere(db, SealsOf(chain), s);
      }
    }
  }

  lemma SoundHere(db: Db, archived: seq<Seal>, s: Seal)
    requires Sound(db, archived) && s in archived
    ensures SameHere(db.seals, s) && Matches(db.trail, s)
  {
  }

  lemma {:induction false} ReadableObjects(listed: seq<Listed>)
    ensures forall o ::
              o in ObjectsOf(listed) <==> exists l :: l in listed && Readable(l) && o == Object(l.key, l.body.value)
  {
    if listed != [] { ReadableObjects(listed[1..]); }
  }

  /** The findings of each check, in the order they are reported. */
  datatype Checks = Checks(unreadable: seq<Finding>, gaps: seq<Finding>, diverged: seq<Finding>, broken: seq<Finding>,
                           unlike: seq<Finding>, differing: seq<Finding>)

  function Gathered(c: Checks): seq<Finding> {
    c.unreadable + c.gaps + c.diverged + c.broken + c.unlike + c.differing
  }

  /** What each check establishes. */
  ghost predicate Checked(db: Db, listed: seq<Listed>, objects: seq<Object>, placed: set<Key>,
                          superseded: map<Key, Superseded>, archived: seq<Seal>, c: Checks) {
    && (forall f :: f in c.unreadable <==> exists l :: l in listed && !Readable(l) && f == Unreadable(l.key))
    && (forall k :: k in superseded <==> IsSuperseded(db, objects, placed, k))
    && (forall f :: f in c.diverged <==> exists o :: IsDiverged(db, objects, placed, o) && f == Diverged(o.key))
    && (forall f :: f in c.broken <==> Breaks(archived, f))
    && (forall f :: f in c.unlike <==> exists s :: s in archived && Unlike(db.seals, s, f))
    && (forall f :: f in c.differing <==> exists s :: s in archived && !Matches(db.trail, s) && f == EventsDiffer(s.id))
  }

  lemma NotedAre(db: Db, objects: seq<Object>, chain: seq<Object>, placed: set<Key>, noted: map<Key, Superseded>,
                 gaps: seq<Finding>)
    requires Followed(db, objects, chain, placed, noted, gaps)
    ensures forall k :: k in noted ==> Explained(db, objects, placed, k, noted[k])
    ensures PlacedIs(chain, placed) && (forall i :: 0 <= i < |chain| ==> chain[i] in objects)
            && (gaps == [] ==> Contiguous(chain))
  {
    hide Explained, PlacedIs, Contiguous;
  }

  lemma SilentChecksAreSound(db: Db, listed: seq<Listed>, objects: seq<Object>, placed: set<Key>,
                             superseded: map<Key, Superseded>, archived: seq<Seal>, c: Checks)
    requires Checked(db, listed, objects, placed, superseded, archived, c) && Gathered(c) == []
    ensures AllReadable(listed) && Sound(db, archived)
    ensures forall o :: !IsDiverged(db, objects, placed, o)
  {
    hide Matches, FirstDifference, Supersession, IsDiverged, IsSuperseded, BrokenAt;
    assert c.unreadable == [] && c.diverged == [] && c.broken == [] && c.unlike == [] && c.differing == [];
    forall s | s in archived
      ensures SameHere(db.seals, s)
    {
      var row := Here(db.seals, s.id);
      assert SealMissingHere(s.id) !in c.unlike && SealDiffers(s.id) !in c.unlike;
    }
    forall k: nat
      ensures !BrokenAt(archived, k)
    {
      BrokenWithin(archived, k);
      assert BrokenAt(archived, k) ==> ChainBroken(archived[k].id) in c.broken;
    }
    assert forall o :: IsDiverged(db, objects, placed, o) ==> Diverged(o.key) in c.diverged;
    assert forall l :: l in listed && !Readable(l) ==> Unreadable(l.key) in c.unreadable;
    assert forall s :: s in archived && !Matches(db.trail, s) ==> EventsDiffer(s.id) in c.differing;
  }

  lemma BrokenWithin(archived: seq<Seal>, k: nat)
    ensures BrokenAt(archived, k) ==> k < |archived|
  {
  }

  lemma WhatChecksSay(db: Db, listed: seq<Listed>, objects: seq<Object>, chain: seq<Object>, placed: set<Key>,
                      noted: map<Key, Superseded>, superseded: map<Key, Superseded>, archived: seq<Seal>, c: Checks)
    requires objects == ObjectsOf(listed) && DistinctKeys(objects) && archived == SealsOf(chain)
    requires Followed(db, objects, chain, placed, noted, c.gaps)
    requires Checked(db, listed, objects, placed, superseded, archived, c)
    ensures Gathered(c) == [] ==> Clean(db, listed, chain, superseded)
    ensures forall s :: s in archived && !Matches(db.trail, s) ==> EventsDiffer(s.id) in Gathered(c)
  {
    hide Followed, Matches, FirstDifference, Supersession, Sound, Accounted, IsSuperseded, IsDiverged, SealsOf,
         ObjectsOf, AllReadable, Contiguous, PlacedIs, DistinctKeys;
    assert forall s :: s in archived && !Matches(db.trail, s) ==> EventsDiffer(s.id) in c.differing;
    if Gathered(c) == [] {
      NotedAre(db, objects, chain, placed, noted, c.gaps);
      SilentChecksAreSound(db, listed, objects, placed, superseded, archived, c);
      forall o | o in objects
        ensures Accounted(db, superseded, o)
      {
        CleanAccounts(db, objects, chain, placed, superseded, o);
      }
    }
  }

  lemma SoundIsSilent(db: Db, archived: seq<Seal>, s: Seal, f: Finding)
    requires Sound(db, archived) && s in archived
    ensures !Unlike(db.seals, s, f)
  {
  }

  lemma HonestSaysNothing(db: Db, listed: seq<Listed>, objects: seq<Object>, chain: seq<Object>, placed: set<Key>,
                          noted: map<Key, Superseded>, superseded: map<Key, Superseded>, archived: seq<Seal>, c: Checks)
    requires objects == ObjectsOf(listed) && DistinctKeys(objects) && archived == SealsOf(chain)
    requires Followed(db, objects, chain, placed, noted, c.gaps) && FollowedToTheEnd(db, objects, chain, placed, c.gaps)
    requires Checked(db, listed, objects, placed, superseded, archived, c) && Untampered(db, listed)
    ensures Gathered(c) == []
    ensures forall o :: o in objects ==> (o.key in superseded <==> FirstDifference(db.seals, o.doc).Some?)
  {
    hide HonestArchive, Followed, FollowedToTheEnd, Matches, FirstDifference, Supersession, SealsOf, ObjectsOf,
         PlacedIs, AllMatch, Contiguous, Unlike, BrokenAt;
    NotedAre(db, objects, chain, placed, noted, c.gaps);
    HonestChainIsSound(db, objects, RecordedKeys(db), chain, placed, c.gaps);
    forall o | o in objects
      ensures !IsDiverged(db, objects, placed, o) && (o.key in superseded <==> FirstDifference(db.seals, o.doc).Some?)
    {
      HonestPlacing(db, objects, RecordedKeys(db), chain, placed, c.gaps, o);
      OwnKey(db, objects, placed, o);
    }
    forall s, f | s in archived
      ensures !Unlike(db.seals, s, f)
    {
      SoundIsSilent(db, archived, s, f);
    }
    assert c.gaps == [] by { GapsAreNone(db, objects, chain, placed, c.gaps); }
    EmptyIfNone(c.unreadable);
    EmptyIfNone(c.diverged);
    EmptyIfNone(c.broken);
    EmptyIfNone(c.unlike);
    EmptyIfNone(c.differing);
  }

  lemma OwnKey(db: Db, objects: seq<Object>, placed: set<Key>, o: Object)
    requires DistinctKeys(objects) && o in objects
    ensures IsSuperseded(db, objects, placed, o.key) <==> o.key !in placed && Supersession(db, o.doc).Some?
  {
  }

  lemma GapsAreNone(db: Db, objects: seq<Object>, chain: seq<Object>, placed: set<Key>, findings: seq<Finding>)
    requires FollowedToTheEnd(db, objects, chain, placed, findings)
    ensures findings == []
  {
  }

  lemma AlarmsOnlyWaiting(db: Db, objects: seq<Object>, v: Verification, c: Checks, waiting: seq<Finding>)
    requires Gathered(c) == [] && v.findings == Gathered(c) + waiting && (forall f :: f in waiting ==> f.NotArchived?)
    requires forall o :: o in objects ==> (o.key in v.superseded <==> FirstDifference(db.seals, o.doc).Some?)
    ensures NoFalseAlarm(db, objects, v)
  {
  }

  // ---- the whole ----------------------------------------------------------------------------------------------------

  /** What warrants a finding, other than a gap, of an archive of which some ranges were followed. */
  ghost predicate Warranted(db: Db, listed: seq<Listed>, chain: seq<Object>, now: int, grace: nat, f: Finding) {
    var archived := SealsOf(chain);
    match f
    case Gap(_, _) => false
    case Unreadable(_) => exists l :: l in listed && !Readable(l) && f == Unreadable(l.key)
    case Diverged(_) => exists o :: IsDiverged(db, ObjectsOf(listed), KeysOf(chain), o) && f == Diverged(o.key)
    case ChainBroken(_) => Breaks(archived, f)
    case SealDiffers(_) => exists s :: s in archived && Unlike(db.seals, s, f)
    case SealMissingHere(_) => exists s :: s in archived && Unlike(db.seals, s, f)
    case EventsDiffer(_) => exists s :: s in archived && !Matches(db.trail, s) && f == EventsDiffer(s.id)
    case NotArchived(_) => IsPending(FirstPending(db.seals, LastTo(archived), now - grace), f)
  }

  ghost predicate IsPending(pending: Option<Seal>, f: Finding) {
    pending.Some? && f == NotArchived(pending.value.id)
  }

  /**
   * A verification: the ranges followed are those that the loop comes to, as far as it goes; each finding is warranted
   * and everything that warrants one is found; and exactly the ranges that a fence explains are superseded. Of an
   * archive that honest exports wrote, whatever the trail says now, every range that agrees is followed.
   */
  ghost predicate Reports(db: Db, listed: seq<Listed>, chain: seq<Object>, now: int, grace: nat, v: Verification) {
    && (forall i :: 0 <= i < |chain| ==> chain[i] in ObjectsOf(listed))
    && AllChosen(db, ObjectsOf(listed), RecordedKeys(db), chain)
    && Exhausted(db, ObjectsOf(listed), RecordedKeys(db), chain)
    && (AnyGap(v.findings) <==> !Contiguous(chain))
    && (forall f: Finding :: !f.Gap? ==> (f in v.findings <==> Warranted(db, listed, chain, now, grace, f)))
    && (forall k :: k in v.superseded <==> IsSuperseded(db, ObjectsOf(listed), KeysOf(chain), k))
    && v.archivedSeals == |SealsOf(chain)|
    && (HonestArchive(db, ObjectsOf(listed), RecordedKeys(db)) ==>
          forall o :: o in ObjectsOf(listed) && Agrees(db.seals, o.doc) ==> o in chain)
  }

  lemma PlacedAreKeys(chain: seq<Object>, placed: set<Key>)
    requires PlacedIs(chain, placed)
    ensures placed == KeysOf(chain)
  {
    forall k
      ensures k in placed <==> k in KeysOf(chain)
    {
      if k in placed {
        var i :| 0 <= i < |chain| && chain[i].key == k;
        assert chain[i] in chain;
      }
    }
  }

  /** The findings of the checks, and of what waits, are those warranted. */
  lemma WarrantedAre(db: Db, listed: seq<Listed>, chain: seq<Object>, now: int, grace: nat,
                     superseded: map<Key, Superseded>, c: Checks, waiting: seq<Finding>)
    requires Checked(db, listed, ObjectsOf(listed), KeysOf(chain), superseded, SealsOf(chain), c)
             && (forall f :: f in c.gaps ==> f.Gap?)
    requires var pending := FirstPending(db.seals, LastTo(SealsOf(chain)), now - grace);
             waiting == if pending.Some? then [NotArchived(pending.value.id)] else []
    ensures forall f: Finding ::
              !f.Gap? ==> (f in Gathered(c) + waiting <==> Warranted(db, listed, chain, now, grace, f))
    ensures AnyGap(Gathered(c) + waiting) <==> AnyGap(c.gaps)
    ensures forall f: Finding :: f.Gap? && f in Gathered(c) + waiting ==> f in c.gaps
  {
    hide Matches, IsDiverged, IsSuperseded, Breaks, SealsOf, ObjectsOf, FirstPending, Readable, KeysOf, Gathered,
         AnyGap;
    BreaksAre(SealsOf(chain));
    assert forall f :: f in c.broken ==> f.ChainBroken?;
    GatheredAre(c, waiting);
    AnyGapIs(Gathered(c) + waiting);
    AnyGapIs(c.gaps);
  }

  lemma GatheredAre(c: Checks, waiting: seq<Finding>)
    ensures forall f ::
              f in Gathered(c) + waiting <==>
                f in c.unreadable || f in c.gaps || f in c.diverged || f in c.broken || f in c.unlike
                  || f in c.differing || f in waiting
  {
  }

  lemma ExplainedBy(db: Db, objects: seq<Object>, placed: set<Key>, superseded: map<Key, Superseded>)
    requires forall k :: k in superseded ==> Explained(db, objects, placed, k, superseded[k])
    ensures forall k :: k in superseded ==>
              exists o :: o in objects && o.key == k && Supersession(db, o.doc) == Some(superseded[k])
  {
  }

  lemma SameGapsTold(objects: seq<Object>, chain: seq<Object>, gaps: seq<Finding>, all: seq<Finding>)
    requires GapsTold(objects, chain, gaps) && forall f: Finding :: f.Gap? && f in all ==> f in gaps
    ensures GapsTold(objects, chain, all)
  {
  }

  lemma AnyGapIs(findings: seq<Finding>)
    ensures AnyGap(findings) <==> exists f :: f in findings && f.Gap?
  {
    if AnyGap(findings) {
      var k :| 0 <= k < |findings| && findings[k].Gap?;
      assert findings[k] in findings;
    }
  }

  lemma BreaksAre(archived: seq<Seal>)
    ensures forall f :: Breaks(archived, f) ==> f.ChainBroken?
  {
  }

  lemma FollowedGaps(db: Db, objects: seq<Object>, chain: seq<Object>, placed: set<Key>, noted: map<Key, Superseded>,
                     gaps: seq<Finding>)
    requires Followed(db, objects, chain, placed, noted, gaps)
    ensures forall f :: f in gaps ==> f.Gap?
  {
  }

  /** With a chain that holds every range that agrees, as far as the honest archive goes. */
  lemma AgreeingAreFollowed(db: Db, objects: seq<Object>, chain: seq<Object>, placed: set<Key>, gaps: seq<Finding>)
    requires FollowedToTheEnd(db, objects, chain, placed, gaps) && PlacedIs(chain, placed) && DistinctKeys(objects)
    requires forall i :: 0 <= i < |chain| ==> chain[i] in objects
    ensures forall o :: o in objects && Agrees(db.seals, o.doc) ==> o in chain
  {
    hide Agrees, Tiled;
    forall o | o in objects && Agrees(db.seals, o.doc)
      ensures o in chain
    {
      assert o.key in placed;
      var i :| 0 <= i < |chain| && chain[i].key == o.key;
    }
  }

  method VerifyAuditArchive(db: Db, listed: seq<Listed>, now: int, grace: nat)
      returns (v: Verification, chain: seq<Object>)
    requires DistinctKeys(ObjectsOf(listed))
    ensures Reports(db, listed, chain, now, grace, v) && GapsTold(ObjectsOf(listed), chain, v.findings)
    // What is said of a superseded range is where it differs and the fence that explains it.
    ensures forall k :: k in v.superseded ==>
              exists o :: o in ObjectsOf(listed) && o.key == k && Supersession(db, o.doc) == Some(v.superseded[k])
    ensures v.findings == [] ==> Clean(db, listed, chain, v.superseded)
    ensures Untampered(db, listed) ==> NoFalseAlarm(db, ObjectsOf(listed), v)
    ensures HonestArchive(db, ObjectsOf(listed), RecordedKeys(db)) ==>
              forall o :: o in ObjectsOf(listed) && Agrees(db.seals, o.doc) ==> o in chain
  {
    hide Followed, FollowedToTheEnd, HonestArchive, Sound, SealsOf, Matches, Clean, NoFalseAlarm, FirstDifference,
         Supersession, ObjectsOf, FirstPending, Explained, Contiguous, AnyGap, AllChosen, Exhausted, Warranted,
         PlacedIs, KeysOf, IsSuperseded, IsDiverged, Breaks, Agrees, DistinctKeys, Unlike, Untampered, GapsTold;
    var objects, unreadable := ReadArchive(listed);
    var placed, noted, gaps;
    chain, placed, noted, gaps := FollowChain(db, objects, RecordedKeys(db));
    NotedAre(db, objects, chain, placed, noted, gaps);
    FollowedGaps(db, objects, chain, placed, noted, gaps);
    PlacedAreKeys(chain, placed);
    var superseded, diverged := CheckLeftOver(db, objects, placed, noted);
    var archived, broken := CheckLinks(chain);
    var unlike := CheckSeals(db.seals, archived);
    var differing := CheckEvents(db.trail, archived);
    var archivedTo := LastTo(archived);
    var pending := FirstPending(db.seals, archivedTo, now - grace);
    var waiting := if pending.Some? then [NotArchived(pending.value.id)] else [];
    var checks := Checks(unreadable, gaps, diverged, broken, unlike, differing);
    v := Verification(|archived|, Gathered(checks) + waiting, superseded);
    WarrantedAre(db, listed, chain, now, grace, superseded, checks, waiting);
    SameGapsTold(objects, chain, gaps, v.findings);
    WhatChecksSay(db, listed, objects, chain, placed, noted, superseded, archived, checks);
    ExplainedBy(db, objects, placed, superseded);
    if HonestArchive(db, objects, RecordedKeys(db)) { AgreeingAreFollowed(db, objects, chain, placed, gaps); }
    if Untampered(db, listed) {
      UntamperedIs(db, listed);
      HonestSaysNothing(db, listed, objects, chain, placed, noted, superseded, archived, checks);
      AlarmsOnlyWaiting(db, objects, v, checks, waiting);
    }
  }

  lemma UntamperedIs(db: Db, listed: seq<Listed>)
    requires Untampered(db, listed)
    ensures HonestArchive(db, ObjectsOf(listed), RecordedKeys(db))
  {
  }

  // ---- consequences -----------------------------------------------------------------------------------------------

  /** Without restores, no finding means that every archived seal is the seal here. */
  lemma CleanWithoutFences(db: Db, listed: seq<Listed>, chain: seq<Object>, superseded: map<Key, Superseded>, o: Object,
                           s: Seal)
    requires Clean(db, listed, chain, superseded) && db.fences == [] && o in ObjectsOf(listed) && s in o.doc.seals
    ensures SameHere(db.seals, s)
  {
    SortKeeps(KnownEarlier, db.fences);
    assert Accounted(db, superseded, o);
  }

  /** How many hashes a hash continues. */
  function Depth(h: Hash): nat {
    if h.prev.None? then 1 else 1 + Depth(h.prev.value)
  }

  lemma {:induction false} DepthInChain(db: Db, k: nat)
    requires Chained(db.seals) && AllMatch(db.trail, db.seals) && k < |db.seals|
    ensures Depth(db.seals[k].hash) == k + 1
  {
    assert Matches(db.trail, db.seals[k]);
    if k > 0 {
      DepthInChain(db, k - 1);
      assert db.seals[k].prev == Some(db.seals[k - 1].hash);
    }
  }

  /**
   * With seals here that verify against themselves, sound archived seals are the first seals here, one for one: the
   * archive is whole, without gap or overlap, up to where it ends.
   */
  lemma {:induction false} SoundIsAPrefix(db: Db, archived: seq<Seal>, k: nat)
    requires Chained(db.seals) && AllMatch(db.trail, db.seals) && Sound(db, archived) && k < |archived|
    ensures k < |db.seals| && Same(archived[k], db.seals[k])
  {
    hide Chained, AllMatch;
    var s := archived[k];
    var row := Here(db.seals, s.id);
    assert SameHere(db.seals, s);
    var j: nat :| j < |db.seals| && db.seals[j] == row.value;
    DepthInChain(db, j);
    assert !BrokenAt(archived, k);
    SealDepth(db, s);
    if k > 0 {
      SoundIsAPrefix(db, archived, k - 1);
      DepthInChain(db, k - 1);
    }
  }

  lemma SealDepth(db: Db, s: Seal)
    requires Matches(db.trail, s)
    ensures Depth(s.hash) == 1 + if s.prev.None? then 0 else Depth(s.prev.value)
  {
  }
}
