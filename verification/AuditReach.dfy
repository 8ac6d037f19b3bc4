/**
 * Which archived ranges `verifyAuditArchive` (packages/audit/src/export.ts) follows, and so re-hashes, said of the
 * listed archive alone; what that means for detection; and two archives of which it passes over a range.
 */
module AuditReach {
  import opened Sequences
  import opened AuditSeal
  import opened AuditArchive
  import opened AuditFollow
  import opened AuditVerify

  // ---- conditions on what is listed -------------------------------------------------------------------------------

  /** A range that no restore explains; any other is lost. */
  predicate Live(db: Db, o: Object) {
    Supersession(db, o.doc).None?
  }

  predicate Apart(o: Object, p: Object) {
    o.doc.toSeq < p.doc.fromSeq || p.doc.toSeq < o.doc.fromSeq
  }

  /** Objects have keys of their own, live ranges have events, and what is recorded here is not lost. */
  ghost predicate Regular(db: Db, objects: seq<Object>, recorded: set<Key>) {
    && DistinctKeys(objects)
    && (forall o :: o in objects && Live(db, o) ==> 1 <= o.doc.fromSeq <= o.doc.toSeq)
    && (forall o :: o in objects && o.key in recorded ==> Live(db, o))
  }

  /** No other live range shares an event with this one. */
  ghost predicate StandsApart(db: Db, objects: seq<Object>, o: Object) {
    forall p :: p in objects && p != o && Live(db, p) ==> Apart(o, p)
  }

  /** A place the event sequence can be followed to: event 1, or right after a live range. */
  ghost predicate IsPlace(db: Db, objects: seq<Object>, n: nat) {
    n == 1 || exists p :: p in objects && Live(db, p) && n == p.doc.toSeq + 1
  }

  /** At such a place only lost ranges go on. */
  ghost predicate CutsAt(db: Db, objects: seq<Object>, x: Object) {
    && x in objects && !Live(db, x) && IsPlace(db, objects, x.doc.fromSeq)
    && forall p :: p in objects && Live(db, p) ==> p.doc.fromSeq != x.doc.fromSeq
  }

  ghost predicate CutOff(db: Db, objects: seq<Object>, o: Object) {
    exists x :: CutsAt(db, objects, x) && x.doc.fromSeq < o.doc.fromSeq
  }

  // ---- what is followed -------------------------------------------------------------------------------------------

  /** A run of the loop: every choice as it makes them, up to where it ends. */
  ghost predicate Walked(db: Db, objects: seq<Object>, recorded: set<Key>, chain: seq<Object>) {
    AllChosen(db, objects, recorded, chain) && Exhausted(db, objects, recorded, chain)
  }

  /** Each range followed is live, and starts no earlier than where the one before it ended. */
  lemma StepForward(db: Db, objects: seq<Object>, recorded: set<Key>, chain: seq<Object>, i: nat)
    requires Regular(db, objects, recorded) && AllChosen(db, objects, recorded, chain) && i < |chain|
    ensures chain[i] in objects && Live(db, chain[i]) && 1 <= chain[i].doc.fromSeq <= chain[i].doc.toSeq
    ensures Start(chain[..i]) <= chain[i].doc.fromSeq && Start(chain[..i + 1]) == chain[i].doc.toSeq + 1
  {
    hide FirstDifference, Supersession, DistinctKeys;
    assert Chosen(db, objects, recorded, chain, i);
    OnlyDifferent(db, chain[i].doc);
    assert Last(chain[..i + 1]) == chain[i];
  }

  lemma {:induction false} StartsGrow(db: Db, objects: seq<Object>, recorded: set<Key>, chain: seq<Object>, i: nat,
                                      j: nat)
    requires Regular(db, objects, recorded) && AllChosen(db, objects, recorded, chain) && i <= j <= |chain|
    ensures Start(chain[..i]) <= Start(chain[..j])
    decreases j
  {
    hide Regular, AllChosen;
    if i < j {
      StartsGrow(db, objects, recorded, chain, i, j - 1);
      StepForward(db, objects, recorded, chain, j - 1);
    }
  }

  lemma LaterStartsAfter(db: Db, objects: seq<Object>, recorded: set<Key>, chain: seq<Object>, i: nat, j: nat)
    requires Regular(db, objects, recorded) && AllChosen(db, objects, recorded, chain) && i < j < |chain|
    ensures chain[i].doc.toSeq < chain[j].doc.fromSeq
  {
    hide Regular, AllChosen;
    StepForward(db, objects, recorded, chain, i);
    StepForward(db, objects, recorded, chain, j);
    StartsGrow(db, objects, recorded, chain, i + 1, j);
  }

  lemma LeftIsOpen(db: Db, objects: seq<Object>, recorded: set<Key>, chain: seq<Object>, o: Object, i: nat)
    requires Regular(db, objects, recorded) && AllChosen(db, objects, recorded, chain) && i <= |chain|
    requires o in objects && o !in chain[..i]
    ensures Open(objects, chain[..i], o)
  {
    hide Live;
    forall q | 0 <= q < i
      ensures chain[q].key != o.key
    {
      StepForward(db, objects, recorded, chain, q);
      assert chain[..i][q] == chain[q];
    }
  }

  /** The loop goes past no live range that stands apart. */
  lemma {:induction false} NeverPassed(db: Db, objects: seq<Object>, recorded: set<Key>, chain: seq<Object>, o: Object,
                                       i: nat)
    requires Regular(db, objects, recorded) && AllChosen(db, objects, recorded, chain) && i <= |chain|
    requires o in objects && Live(db, o) && StandsApart(db, objects, o) && o !in chain[..i]
    ensures Start(chain[..i]) <= o.doc.fromSeq
    decreases i
  {
    hide FirstDifference, Supersession, AllChosen, DistinctKeys;
    if i > 0 {
      var c, before := chain[i - 1], chain[..i - 1];
      assert forall q :: 0 <= q < i - 1 ==> before[q] == chain[..i][q];
      assert chain[..i][i - 1] == c;
      NeverPassed(db, objects, recorded, chain, o, i - 1);
      StepForward(db, objects, recorded, chain, i - 1);
      LeftIsOpen(db, objects, recorded, chain, o, i - 1);
      assert c.doc.fromSeq <= o.doc.fromSeq by { ChosenFirst(db, objects, recorded, chain, i - 1); }
      assert Apart(o, c);
    }
  }

  /** Nothing live that is left and lies ahead starts before the range that is followed next. */
  lemma ChosenFirst(db: Db, objects: seq<Object>, recorded: set<Key>, chain: seq<Object>, i: nat)
    requires AllChosen(db, objects, recorded, chain) && i < |chain|
    ensures forall o ::
              Open(objects, chain[..i], o) && Live(db, o) && Start(chain[..i]) <= o.doc.fromSeq ==>
                  chain[i].doc.fromSeq <= o.doc.fromSeq
  {
    hide FirstDifference, Supersession, Open, Rank;
    assert Chosen(db, objects, recorded, chain, i);
  }

  /** A live range that stands apart and is not cut off is followed. */
  lemma ApartIsFollowed(db: Db, objects: seq<Object>, recorded: set<Key>, chain: seq<Object>, o: Object)
    requires Regular(db, objects, recorded) && Walked(db, objects, recorded, chain)
    requires o in objects && Live(db, o) && StandsApart(db, objects, o) && !CutOff(db, objects, o)
    ensures o in chain
  {
    hide FirstDifference, Supersession, AllChosen, StandsApart, DistinctKeys;
    if o !in chain {
      assert chain[..|chain|] == chain;
      NeverPassed(db, objects, recorded, chain, o, |chain|);
      LeftIsOpen(db, objects, recorded, chain, o, |chain|);
      var x :| Open(objects, chain, x) && x.doc.fromSeq == Start(chain);
      StopsAtLost(db, objects, recorded, chain, x);
    }
  }

  /** Where something is left at the chain's end, it cuts off all that is further on. */
  lemma StopsAtLost(db: Db, objects: seq<Object>, recorded: set<Key>, chain: seq<Object>, x: Object)
    requires Regular(db, objects, recorded) && Walked(db, objects, recorded, chain)
    requires Open(objects, chain, x) && x.doc.fromSeq == Start(chain)
    ensures CutsAt(db, objects, x)
  {
    hide FirstDifference, Supersession, AllChosen, DistinctKeys;
    assert chain[..|chain|] == chain;
    if chain != [] {
      StepForward(db, objects, recorded, chain, |chain| - 1);
    }
    forall p | p in objects && Live(db, p)
      ensures p.doc.fromSeq != x.doc.fromSeq
    {
      if p in chain {
        var q :| 0 <= q < |chain| && chain[q] == p;
        StepForward(db, objects, recorded, chain, q);
        StartsGrow(db, objects, recorded, chain, q + 1, |chain|);
      } else {
        LeftIsOpen(db, objects, recorded, chain, p, |chain|);
      }
    }
  }

  ghost predicate AllLiveFollowed(db: Db, objects: seq<Object>, chain: seq<Object>) {
    forall o :: o in objects && Live(db, o) ==> o in chain
  }

  ghost predicate AllApart(db: Db, objects: seq<Object>) {
    forall o :: o in objects && Live(db, o) ==> StandsApart(db, objects, o)
  }

  ghost predicate NoneCutOff(db: Db, objects: seq<Object>) {
    forall o :: o in objects && Live(db, o) ==> !CutOff(db, objects, o)
  }

  lemma FollowedStandApart(db: Db, objects: seq<Object>, recorded: set<Key>, chain: seq<Object>, o: Object, p: Object)
    requires Regular(db, objects, recorded) && AllChosen(db, objects, recorded, chain)
    requires o in chain && p in chain && o != p
    ensures Apart(o, p)
  {
    hide Regular, AllChosen;
    var i: nat, j: nat :| i < |chain| && j < |chain| && chain[i] == o && chain[j] == p;
    if i < j {
      LaterStartsAfter(db, objects, recorded, chain, i, j);
    } else {
      LaterStartsAfter(db, objects, recorded, chain, j, i);
    }
  }

  /** The first range followed that starts beyond `n`. */
  lemma {:induction false} FirstBeyond(chain: seq<Object>, n: nat) returns (j: nat)
    requires exists o :: o in chain && o.doc.fromSeq > n
    ensures j < |chain| && chain[j].doc.fromSeq > n && forall i :: 0 <= i < j ==> chain[i].doc.fromSeq <= n
  {
    if chain[0].doc.fromSeq > n {
      j := 0;
    } else {
      var o :| o in chain && o.doc.fromSeq > n;
      assert o in chain[1..];
      j := FirstBeyond(chain[1..], n);
      j := j + 1;
      assert forall i :: 1 <= i < j ==> chain[i] == chain[1..][i - 1];
    }
  }

  /** When every live range is followed, the loop has come to each place that any could be cut off at. */
  lemma PlaceIsReached(db: Db, objects: seq<Object>, recorded: set<Key>, chain: seq<Object>, x: Object, j: nat)
    requires Regular(db, objects, recorded) && AllChosen(db, objects, recorded, chain)
    requires AllLiveFollowed(db, objects, chain) && CutsAt(db, objects, x)
    requires j < |chain| && forall i :: 0 <= i < j ==> chain[i].doc.fromSeq <= x.doc.fromSeq
    requires chain[j].doc.fromSeq > x.doc.fromSeq
    ensures Start(chain[..j]) == x.doc.fromSeq
  {
    hide AllChosen, Live, DistinctKeys;
    var n := x.doc.fromSeq;
    forall i | 0 <= i < j
      ensures chain[i].doc.fromSeq < n
    {
      StepForward(db, objects, recorded, chain, i);
    }
    if n == 1 {
      if j > 0 { StepForward(db, objects, recorded, chain, 0); }
    } else {
      var p :| p in objects && Live(db, p) && n == p.doc.toSeq + 1;
      var i: nat :| i < |chain| && chain[i] == p;
      StepForward(db, objects, recorded, chain, i);
      if j <= i {
        if j < i { LaterStartsAfter(db, objects, recorded, chain, j, i); StepForward(db, objects, recorded, chain, j); }
      } else if i + 1 < j {
        LaterStartsAfter(db, objects, recorded, chain, i, i + 1);
      }
    }
  }

  lemma FollowedNotCutOff(db: Db, objects: seq<Object>, recorded: set<Key>, chain: seq<Object>, o: Object)
    requires Regular(db, objects, recorded) && AllChosen(db, objects, recorded, chain)
    requires AllLiveFollowed(db, objects, chain) && o in chain
    ensures !CutOff(db, objects, o)
  {
    hide FirstDifference, Supersession, AllChosen, AllLiveFollowed, IsPlace, DistinctKeys;
    if CutOff(db, objects, o) {
      var x :| CutsAt(db, objects, x) && x.doc.fromSeq < o.doc.fromSeq;
      var j := FirstBeyond(chain, x.doc.fromSeq);
      PlaceIsReached(db, objects, recorded, chain, x, j);
      LostIsOpen(db, objects, recorded, chain, x, j);
      NothingThere(db, objects, recorded, chain, x, j);
    }
  }

  lemma LostIsOpen(db: Db, objects: seq<Object>, recorded: set<Key>, chain: seq<Object>, x: Object, i: nat)
    requires Regular(db, objects, recorded) && AllChosen(db, objects, recorded, chain) && i <= |chain|
    requires x in objects && !Live(db, x)
    ensures Open(objects, chain[..i], x)
  {
    hide Regular, AllChosen, Live;
    forall q | 0 <= q < |chain[..i]|
      ensures chain[..i][q] != x
    {
      StepForward(db, objects, recorded, chain, q);
    }
    LeftIsOpen(db, objects, recorded, chain, x, i);
  }

  /** The loop jumps ahead only from a place where nothing is left. */
  lemma NothingThere(db: Db, objects: seq<Object>, recorded: set<Key>, chain: seq<Object>, x: Object, j: nat)
    requires AllChosen(db, objects, recorded, chain) && j < |chain| && chain[j].doc.fromSeq > x.doc.fromSeq
    requires x.doc.fromSeq == Start(chain[..j])
    ensures !Open(objects, chain[..j], x)
  {
    hide FirstDifference, Supersession, Open, Rank;
    assert Chosen(db, objects, recorded, chain, j);
  }

  /**
   * Exactly when all live ranges are followed: when no two of them share an event, and none is cut off from event 1 by
   * a lost range that goes on where no live one does.
   */
  lemma LiveFollowedIff(db: Db, objects: seq<Object>, recorded: set<Key>, chain: seq<Object>)
    requires Regular(db, objects, recorded) && Walked(db, objects, recorded, chain)
    ensures AllLiveFollowed(db, objects, chain) <==> AllApart(db, objects) && NoneCutOff(db, objects)
  {
    hide Regular, AllChosen, Exhausted, CutOff, Live;
    if AllApart(db, objects) && NoneCutOff(db, objects) {
      forall o | o in objects && Live(db, o)
        ensures o in chain
      {
        ApartIsFollowed(db, objects, recorded, chain, o);
      }
    }
    if AllLiveFollowed(db, objects, chain) {
      forall o | o in objects && Live(db, o)
        ensures StandsApart(db, objects, o) && !CutOff(db, objects, o)
      {
        forall p | p in objects && p != o && Live(db, p)
          ensures Apart(o, p)
        {
          FollowedStandApart(db, objects, recorded, chain, o, p);
        }
        FollowedNotCutOff(db, objects, recorded, chain, o);
      }
    }
  }

  /** Without restores every range is live, and none is cut off. */
  lemma NothingLost(db: Db)
    requires db.fences == []
    ensures forall o: Object :: Live(db, o)
  {
    SortKeeps(KnownEarlier, db.fences);
  }

  /** So without restores every range is followed exactly when no two of them share an event, whatever is missing. */
  lemma AllFollowedIff(db: Db, objects: seq<Object>, recorded: set<Key>, chain: seq<Object>)
    requires db.fences == [] && DistinctKeys(objects) && Walked(db, objects, recorded, chain)
    requires forall o :: o in objects ==> 1 <= o.doc.fromSeq <= o.doc.toSeq
    ensures (forall o :: o in objects ==> o in chain)
       <==> forall o, p :: o in objects && p in objects && o != p ==> Apart(o, p)
  {
    hide Live, AllChosen, Exhausted, DistinctKeys, Apart;
    NothingLost(db);
    LiveFollowedIff(db, objects, recorded, chain);
  }

  // ---- detection --------------------------------------------------------------------------------------------------

  lemma AlteredDiffers(sealed: Trail, trail: Trail, s: Seal, n: nat)
    requires ValidTrail(sealed) && ValidTrail(trail) && Matches(sealed, s) && s.fromSeq <= n <= s.toSeq && n > 0
    requires (n in sealed) != (n in trail) || (n in sealed && sealed[n] != trail[n])
    ensures !Matches(trail, s)
  {
    if Matches(trail, s) { SealPinsEvents(sealed, trail, s, n); }
  }

  /** A followed range's events are re-hashed; `sealed` is the trail when the range was sealed. */
  lemma FollowedIsChecked(sealed: Trail, db: Db, listed: seq<Listed>, chain: seq<Object>, now: int, grace: nat,
                          v: Verification, o: Object, s: Seal, n: nat)
    requires Reports(db, listed, chain, now, grace, v) && o in chain && s in o.doc.seals
    requires ValidTrail(sealed) && ValidTrail(db.trail) && Matches(sealed, s) && s.fromSeq <= n <= s.toSeq && n > 0
    requires (n in sealed) != (n in db.trail) || (n in sealed && sealed[n] != db.trail[n])
    ensures EventsDiffer(s.id) in v.findings
  {
    hide Exhausted, AllChosen, Matches, SealsOf, ObjectsOf, HonestArchive, Contiguous, IsSuperseded;
    AlteredDiffers(sealed, db.trail, s, n);
    var q :| 0 <= q < |chain| && chain[q] == o;
    SealsOfHolds(chain, q, s);
    assert Warranted(db, listed, chain, now, grace, EventsDiffer(s.id));
  }

  /**
   * An event changed, added or removed since its range was archived is found, restores or not, when the range is live,
   * shares no event with another live range, and is not cut off.
   */
  lemma AlteredEventIsFound(sealed: Trail, db: Db, listed: seq<Listed>, chain: seq<Object>, now: int, grace: nat,
                            v: Verification, o: Object, s: Seal, n: nat)
    requires Reports(db, listed, chain, now, grace, v) && Regular(db, ObjectsOf(listed), RecordedKeys(db))
    requires o in ObjectsOf(listed) && Live(db, o) && s in o.doc.seals
    requires StandsApart(db, ObjectsOf(listed), o) && !CutOff(db, ObjectsOf(listed), o)
    requires ValidTrail(sealed) && ValidTrail(db.trail) && Matches(sealed, s) && s.fromSeq <= n <= s.toSeq && n > 0
    requires (n in sealed) != (n in db.trail) || (n in sealed && sealed[n] != db.trail[n])
    ensures EventsDiffer(s.id) in v.findings
  {
    hide Regular, AllChosen, Exhausted, Matches, ObjectsOf, HonestArchive, StandsApart, CutOff, Warranted, ValidTrail;
    ApartIsFollowed(db, ObjectsOf(listed), RecordedKeys(db), chain, o);
    FollowedIsChecked(sealed, db, listed, chain, now, grace, v, o, s, n);
  }

  // ---- what a difference comes to ---------------------------------------------------------------------------------

  /** The first seal of a range that is not the seal of its number here, by hash, predecessor and events. */
  ghost predicate FirstUnlike(db: Db, doc: Doc, d: Seal) {
    exists k :: 0 <= k < |doc.seals| && doc.seals[k] == d && !IsHere(db.seals, d)
      && forall j :: 0 <= j < k ==> IsHere(db.seals, doc.seals[j])
  }

  /** The seals here, each under its own number, have this one. */
  ghost predicate IsHere(seals: seq<Seal>, s: Seal) {
    exists h :: h in seals && h.id == s.id && h.hash == s.hash && h.prev == s.prev && h.fromSeq == s.fromSeq
      && h.toSeq == s.toSeq
  }

  ghost predicate NumberedApart(seals: seq<Seal>) {
    forall h, s :: h in seals && s in seals && h.id == s.id ==> h == s
  }

  lemma HereIs(seals: seq<Seal>, s: Seal)
    requires NumberedApart(seals)
    ensures SameHere(seals, s) <==> IsHere(seals, s)
  {
  }

  lemma {:induction false} FirstIn(s: seq<Seal>, p: Seal -> bool, k: nat)
    requires k < |s| && p(s[k]) && forall j :: 0 <= j < k ==> !p(s[j])
    ensures Find(s, p) == Some(s[k])
  {
    if k > 0 { FirstIn(s[1..], p, k - 1); }
  }

  lemma FirstUnlikeIs(db: Db, doc: Doc, d: Seal)
    requires NumberedApart(db.seals) && FirstUnlike(db, doc, d)
    ensures FirstDifference(db.seals, doc) == Some(d)
  {
    hide IsHere, SameHere;
    forall s: Seal
      ensures SameHere(db.seals, s) <==> IsHere(db.seals, s)
    {
      HereIs(db.seals, s);
    }
    var k :| 0 <= k < |doc.seals| && doc.seals[k] == d && !IsHere(db.seals, d)
      && forall j :: 0 <= j < k ==> IsHere(db.seals, doc.seals[j]);
    FirstIn(doc.seals, (s: Seal) => !SameHere(db.seals, s), k);
    assert FirstDifference(db.seals, doc) == Find(doc.seals, (s: Seal) => !SameHere(db.seals, s));
  }

  /** A range that differs in no seal is excused by no restore, and needs none. */
  lemma AlikeIsNotExcused(db: Db, doc: Doc)
    requires NumberedApart(db.seals) && forall s :: s in doc.seals ==> IsHere(db.seals, s)
    ensures FirstDifference(db.seals, doc).None? && Supersession(db, doc).None?
  {
    hide IsHere, SameHere;
    forall s | s in doc.seals
      ensures SameHere(db.seals, s)
    {
      HereIs(db.seals, s);
    }
  }

  /**
   * Which restore excuses a range that differs: the earliest known whole until before its first differing seal was
   * sealed, and only if there is such a restore.
   */
  lemma ExcusedExactly(db: Db, doc: Doc, d: Seal)
    requires NumberedApart(db.seals) && FirstUnlike(db, doc, d)
    ensures Supersession(db, doc).Some? <==> exists f :: f in db.fences && f.knownUntil < d.sealedAt
    ensures Supersession(db, doc).Some? ==>
              exists f :: f in db.fences && f.knownUntil < d.sealedAt
                && Supersession(db, doc) == Some(Superseded(d.id, f.ref))
                && forall g :: g in db.fences ==> f.knownUntil <= g.knownUntil
  {
    hide FirstDifference;
    FirstUnlikeIs(db, doc, d);
    FencesAscend(db.fences);
    var sorted := Sort(KnownEarlier, db.fences);
    SortKeeps(KnownEarlier, db.fences);
    var found := Find(sorted, (f: Fence) => d.sealedAt > f.knownUntil);
    if found.Some? { FirstIsEarliest(sorted, d.sealedAt, found.value); }
  }

  lemma FencesAscend(fences: seq<Fence>)
    ensures Ascending(KnownEarlier, Sort(KnownEarlier, fences))
  {
    assert StrictWeakOrder(KnownEarlier);
    SortAscending(KnownEarlier, fences);
  }

  lemma {:induction false} FirstIsEarliest(sorted: seq<Fence>, at: int, f: Fence)
    requires Ascending(KnownEarlier, sorted) && Find(sorted, (g: Fence) => at > g.knownUntil) == Some(f)
    ensures forall g :: g in sorted ==> f.knownUntil <= g.knownUntil
  {
    assert sorted[0].knownUntil <= f.knownUntil by {
      var j :| 0 <= j < |sorted| && sorted[j] == f;
      assert j == 0 || !KnownEarlier(sorted[j], sorted[0]);
    }
    assert sorted[0] == f;
    forall g | g in sorted
      ensures f.knownUntil <= g.knownUntil
    {
      var j :| 0 <= j < |sorted| && sorted[j] == g;
      assert j == 0 || !KnownEarlier(sorted[j], sorted[0]);
    }
  }

  /** What is reported of an archived seal that is not the same here: another is, or none is, under its number. */
  ghost function FindingOf(seals: seq<Seal>, s: Seal): Finding {
    if exists h :: h in seals && h.id == s.id then SealDiffers(s.id) else SealMissingHere(s.id)
  }

  /** A range that differs from the seals here before any restore could excuse it is not passed off as superseded. */
  lemma UnexcusedIsFound(db: Db, listed: seq<Listed>, chain: seq<Object>, now: int, grace: nat, v: Verification,
                         o: Object, d: Seal)
    requires Reports(db, listed, chain, now, grace, v) && DistinctKeys(ObjectsOf(listed)) && o in ObjectsOf(listed)
    requires NumberedApart(db.seals) && FirstUnlike(db, o.doc, d)
    requires forall f :: f in db.fences ==> d.sealedAt <= f.knownUntil
    ensures o.key !in v.superseded
    ensures Diverged(o.key) in v.findings
            || FindingOf(db.seals, d) in v.findings
  {
    hide AllChosen, Exhausted, ObjectsOf, FirstDifference, Supersession, HonestArchive, Contiguous, SealsOf, IsHere;
    ExcusedExactly(db, o.doc, d);
    FirstUnlikeIs(db, o.doc, d);
    OwnKey(db, ObjectsOf(listed), KeysOf(chain), o);
    if o in chain {
      var q :| 0 <= q < |chain| && chain[q] == o;
      SealsOfHolds(chain, q, d);
      UnlikeIsReported(db, listed, chain, now, grace, v, d);
    } else {
      assert o.key !in KeysOf(chain) by { NotAmong(ObjectsOf(listed), chain, o); }
      assert IsDiverged(db, ObjectsOf(listed), KeysOf(chain), o);
      assert Warranted(db, listed, chain, now, grace, Diverged(o.key));
    }
  }

  lemma NotAmong(objects: seq<Object>, chain: seq<Object>, o: Object)
    requires DistinctKeys(objects) && o in objects && o !in chain
    requires forall i :: 0 <= i < |chain| ==> chain[i] in objects
    ensures o.key !in KeysOf(chain)
  {
  }

  /** A followed range's seal that is not here, or is another here, is reported. */
  lemma UnlikeIsReported(db: Db, listed: seq<Listed>, chain: seq<Object>, now: int, grace: nat, v: Verification,
                         s: Seal)
    requires Reports(db, listed, chain, now, grace, v) && s in SealsOf(chain)
    requires NumberedApart(db.seals) && !IsHere(db.seals, s)
    ensures FindingOf(db.seals, s) in v.findings
  {
    hide AllChosen, Exhausted, ObjectsOf, FirstDifference, Supersession, HonestArchive, Contiguous, SealsOf, IsHere;
    HereIs(db.seals, s);
    var f := FindingOf(db.seals, s);
    assert Unlike(db.seals, s, f);
    assert Warranted(db, listed, chain, now, grace, f);
  }

  /** A listed object that was fetched, holds seals, and is named for its range. */
  ghost predicate IsWhole(l: Listed) {
    && l.body.Some? && l.body.value.seals != []
    && l.key == Key(l.body.value.firstSeal, l.body.value.lastSeal,
                    l.body.value.seals[|l.body.value.seals| - 1].hash)
  }

  /** Exactly the listed objects that are not whole are reported unreadable; the others are those the chain is of. */
  lemma UnreadableIsReported(db: Db, listed: seq<Listed>, chain: seq<Object>, now: int, grace: nat, v: Verification,
                             key: Key)
    requires Reports(db, listed, chain, now, grace, v)
    ensures Unreadable(key) in v.findings <==> exists l :: l in listed && !IsWhole(l) && l.key == key
    ensures forall o :: o in chain ==> exists l :: l in listed && IsWhole(l) && l.key == o.key && l.body == Some(o.doc)
  {
    hide AllChosen, Exhausted, FirstDifference, Supersession, HonestArchive, Contiguous, SealsOf;
    assert Unreadable(key) in v.findings <==> Warranted(db, listed, chain, now, grace, Unreadable(key));
    assert forall l :: IsWhole(l) <==> Readable(l);
    forall o | o in chain
      ensures exists l :: l in listed && IsWhole(l) && l.key == o.key && l.body == Some(o.doc)
    {
      assert o in ObjectsOf(listed);
      ObjectIsListed(listed, o);
    }
  }

  lemma {:induction false} ObjectIsListed(listed: seq<Listed>, o: Object)
    requires o in ObjectsOf(listed)
    ensures exists l :: l in listed && IsWhole(l) && l.key == o.key && l.body == Some(o.doc)
  {
    if Readable(listed[0]) && o == Object(listed[0].key, listed[0].body.value) {
      assert listed[0] in listed;
    } else {
      assert o in ObjectsOf(listed[1..]);
      ObjectIsListed(listed[1..], o);
      var l :| l in listed[1..] && IsWhole(l) && l.key == o.key && l.body == Some(o.doc);
      assert l in listed;
    }
  }

  /** The last event that the followed ranges hold. */
  function ArchivedTo(chain: seq<Object>): nat {
    if SealsOf(chain) == [] then 0 else Last(SealsOf(chain)).toSeq
  }

  /** A seal here that the ranges followed do not reach, and that is older than the grace period. */
  ghost predicate WaitsTooLong(db: Db, chain: seq<Object>, now: int, grace: nat, s: Seal) {
    s in db.seals && s.fromSeq > ArchivedTo(chain) && s.sealedAt < now - grace
  }

  /** A seal is reported as not archived exactly when one waits too long, and it is the first of those that do. */
  lemma WaitingIsReported(db: Db, listed: seq<Listed>, chain: seq<Object>, now: int, grace: nat, v: Verification)
    requires Reports(db, listed, chain, now, grace, v)
    ensures (exists id :: NotArchived(id) in v.findings) <==> exists s :: WaitsTooLong(db, chain, now, grace, s)
    ensures forall id :: NotArchived(id) in v.findings ==>
              exists s :: WaitsTooLong(db, chain, now, grace, s) && s.id == id
                && forall o :: WaitsTooLong(db, chain, now, grace, o) ==> s.fromSeq <= o.fromSeq
  {
    hide AllChosen, Exhausted, ObjectsOf, HonestArchive, Contiguous, SealsOf, FirstPending;
    var archivedTo, limit := LastTo(SealsOf(chain)), now - grace;
    PendingIsExact(db.seals, archivedTo, limit);
    PendingIsFirst(db.seals, archivedTo, limit);
    var pending := FirstPending(db.seals, archivedTo, limit);
    forall id
      ensures NotArchived(id) in v.findings <==> pending.Some? && pending.value.id == id
    {
      assert NotArchived(id) in v.findings <==> Warranted(db, listed, chain, now, grace, NotArchived(id));
    }
    if pending.Some? {
      assert WaitsTooLong(db, chain, now, grace, pending.value);
      assert NotArchived(pending.value.id) in v.findings;
    }
  }

  lemma PendingIsFirst(seals: seq<Seal>, archivedTo: nat, limit: int)
    ensures var p := FirstPending(seals, archivedTo, limit);
            p.Some? ==>
              forall s :: s in seals && s.fromSeq > archivedTo && s.sealedAt < limit ==> p.value.fromSeq <= s.fromSeq
  {
    var before := (a: Seal, b: Seal) => a.fromSeq < b.fromSeq;
    var sorted := Sort(before, seals);
    SortKeeps(before, seals);
    assert StrictWeakOrder(before);
    SortAscending(before, seals);
    var p := FirstPending(seals, archivedTo, limit);
    if p.Some? { FoundFirst(sorted, archivedTo, limit, p.value); }
  }

  lemma {:induction false} FoundFirst(sorted: seq<Seal>, archivedTo: nat, limit: int, p: Seal)
    requires Ascending((a: Seal, b: Seal) => a.fromSeq < b.fromSeq, sorted)
    requires Find(sorted, (s: Seal) => Overdue(s, archivedTo, limit)) == Some(p)
    ensures forall s :: s in sorted && Overdue(s, archivedTo, limit) ==> p.fromSeq <= s.fromSeq
  {
    if !Overdue(sorted[0], archivedTo, limit) {
      assert sorted == [sorted[0]] + sorted[1..];
      FoundFirst(sorted[1..], archivedTo, limit, p);
    } else {
      forall s | s in sorted
        ensures p.fromSeq <= s.fromSeq
      {
        var j :| 0 <= j < |sorted| && sorted[j] == s;
      }
    }
  }

  // ---- a range that is passed over --------------------------------------------------------------------------------

  /** Two ranges over three seals here: the first two seals, and the last two. */
  ghost predicate Overlapping(db: Db, a: Object, b: Object) {
    && |db.seals| == 3 && Chained(db.seals) && db.fences == [] && db.exports == []
    && a.doc.seals == db.seals[..2] && a.doc.fromSeq == db.seals[0].fromSeq && a.doc.toSeq == db.seals[1].toSeq
    && b.doc.seals == db.seals[1..] && b.doc.fromSeq == db.seals[1].fromSeq && b.doc.toSeq == db.seals[2].toSeq
    && WellFormed(a.key, a.doc) && WellFormed(b.key, b.doc) && a.key != b.key
  }

  lemma {:induction false} SliceIsHere(db: Db, doc: Doc, i: nat, j: nat)
    requires Chained(db.seals) && i <= j <= |db.seals| && doc.seals == db.seals[i..j]
    ensures FirstDifference(db.seals, doc).None?
  {
    forall s | s in doc.seals
      ensures SameHere(db.seals, s)
    {
      var k :| i <= k < j && db.seals[k] == s;
      FoundHere(db.seals, k);
    }
  }

  /** The loop follows the first and leaves the second behind. */
  lemma {:induction false} FirstIsFollowed(db: Db, a: Object, b: Object, chain: seq<Object>)
    requires Overlapping(db, a, b) && AllChosen(db, [a, b], {}, chain) && Exhausted(db, [a, b], {}, chain)
    ensures chain == [a]
  {
    hide FirstDifference, Supersession, WellFormed, JumpsTo;
    assert db.seals[1].fromSeq == db.seals[0].toSeq + 1 && db.seals[2].fromSeq == db.seals[1].toSeq + 1;
    assert a.doc.seals == db.seals[0..2];
    SliceIsHere(db, a.doc, 0, 2);
    assert Open([a, b], [], a);
    assert chain != [];
    assert Chosen(db, [a, b], {}, chain, 0) && Chosen(db, [a, b], {}, chain, 1);
    assert chain[..0] == [];
    assert !JumpsTo(db, [a, b], [], chain[0].doc.fromSeq) by { NoJump(db, [a, b], [], a, chain[0].doc.fromSeq); }
    assert chain[0] == a;
    if |chain| > 1 {
      assert chain[..1] == [a];
      assert Open([a, b], [a], chain[1]);
      NoLeap(db, [a, b], [a], chain[1].doc.fromSeq);
    }
  }

  lemma NoJump(db: Db, objects: seq<Object>, chain: seq<Object>, o: Object, next: nat)
    requires Open(objects, chain, o) && o.doc.fromSeq == Start(chain)
    ensures !JumpsTo(db, objects, chain, next)
  {
  }

  lemma NoLeap(db: Db, objects: seq<Object>, chain: seq<Object>, next: nat)
    requires next <= Start(chain)
    ensures !JumpsTo(db, objects, chain, next)
  {
  }

  /**
   * So an archived seal is not checked against the events at all, and nothing is reported, whatever the trail holds in
   * its range: the second range agrees with the seals here, so that it is no finding either.
   */
  lemma {:induction false} OverlapIsPassedOver(db: Db, a: Object, b: Object, now: int, grace: nat, chain: seq<Object>,
                                               v: Verification)
    requires Overlapping(db, a, b) && Matches(db.trail, db.seals[0]) && Matches(db.trail, db.seals[1])
    requires forall k :: 0 <= k < 3 ==> db.seals[k].sealedAt >= now - grace
    requires Reports(db, [Listed(a.key, Some(a.doc)), Listed(b.key, Some(b.doc))], chain, now, grace, v)
    ensures v.findings == [] && db.seals[2] in b.doc.seals && db.seals[2] !in SealsOf(chain)
  {
    hide Warranted, AllChosen, Exhausted, Contiguous, AnyGap, FirstDifference, IsSuperseded, SealsOf, Chained;
    var listed := [Listed(a.key, Some(a.doc)), Listed(b.key, Some(b.doc))];
    TwoObjects(a, b);
    assert RecordedKeys(db) == {};
    FirstIsFollowed(db, a, b, chain);
    TwoSeals(db, a);
    forall f: Finding
      ensures !f.Gap? ==> !Warranted(db, listed, chain, now, grace, f)
    {
      NothingWarranted(db, a, b, now, grace, f);
    }
    OneIsContiguous(db, a);
    NothingFound(v.findings);
  }

  lemma TwoObjects(a: Object, b: Object)
    requires WellFormed(a.key, a.doc) && WellFormed(b.key, b.doc)
    ensures ObjectsOf([Listed(a.key, Some(a.doc)), Listed(b.key, Some(b.doc))]) == [a, b]
  {
    var listed := [Listed(a.key, Some(a.doc)), Listed(b.key, Some(b.doc))];
    ObjectsFrom(listed);
    assert listed[1..] == [Listed(b.key, Some(b.doc))];
    ObjectsFrom(listed[1..]);
    assert listed[1..][1..] == [];
    assert Object(a.key, a.doc) == a && Object(b.key, b.doc) == b;
  }

  lemma TwoSeals(db: Db, a: Object)
    requires |db.seals| == 3 && Chained(db.seals) && a.doc.seals == db.seals[..2]
    ensures SealsOf([a]) == db.seals[..2] && db.seals[2] !in db.seals[..2]
  {
    assert [a][..0] == [];
    IdsGrow(db.seals, 0, 2);
    IdsGrow(db.seals, 1, 2);
  }

  lemma OneIsContiguous(db: Db, a: Object)
    requires |db.seals| == 3 && Chained(db.seals) && a.doc.fromSeq == db.seals[0].fromSeq
    ensures Contiguous([a])
  {
  }

  lemma NothingFound(findings: seq<Finding>)
    requires !AnyGap(findings) && forall f: Finding :: !f.Gap? ==> f !in findings
    ensures findings == []
  {
    AnyGapIs(findings);
    EmptyIfNone(findings);
  }

  lemma {:induction false} NothingWarranted(db: Db, a: Object, b: Object, now: int, grace: nat, f: Finding)
    requires Overlapping(db, a, b) && Matches(db.trail, db.seals[0]) && Matches(db.trail, db.seals[1])
    requires forall k :: 0 <= k < 3 ==> db.seals[k].sealedAt >= now - grace
    ensures !Warranted(db, [Listed(a.key, Some(a.doc)), Listed(b.key, Some(b.doc))], [a], now, grace, f)
  {
    hide FirstDifference, Matches, Supersession, FirstPending;
    var listed := [Listed(a.key, Some(a.doc)), Listed(b.key, Some(b.doc))];
    TwoObjects(a, b);
    TwoSeals(db, a);
    assert a.doc.seals == db.seals[0..2] && b.doc.seals == db.seals[1..3];
    SliceIsHere(db, a.doc, 0, 2);
    SliceIsHere(db, b.doc, 1, 3);
    forall s | s in db.seals[..2]
      ensures SameHere(db.seals, s) && Matches(db.trail, s)
    {
      if s == db.seals[0] { FoundHere(db.seals, 0); } else { FoundHere(db.seals, 1); }
    }
    assert db.seals[1].prev == Some(db.seals[0].hash);
    PendingIsExact(db.seals, LastTo(db.seals[..2]), now - grace);
  }

  // ---- a range that is cut off ------------------------------------------------------------------------------------

  /** The first and the last of three seals here are archived; where the second was, only a lost range goes on. */
  ghost predicate Severed(db: Db, a: Object, x: Object, c: Object) {
    && |db.seals| == 3 && Chained(db.seals) && db.exports == []
    && a.doc.seals == db.seals[..1] && a.doc.fromSeq == db.seals[0].fromSeq && a.doc.toSeq == db.seals[0].toSeq
    && c.doc.seals == db.seals[2..] && c.doc.fromSeq == db.seals[2].fromSeq && c.doc.toSeq == db.seals[2].toSeq
    && x.doc.fromSeq == db.seals[1].fromSeq && Supersession(db, x.doc).Some?
    && WellFormed(a.key, a.doc) && WellFormed(x.key, x.doc) && WellFormed(c.key, c.doc)
    && a.key != x.key && a.key != c.key && x.key != c.key
  }

  lemma {:induction false} SeveredSeals(db: Db, a: Object, x: Object, c: Object)
    requires Severed(db, a, x, c)
    ensures FirstDifference(db.seals, a.doc).None? && FirstDifference(db.seals, c.doc).None?
    ensures Live(db, a) && Live(db, c) && !Live(db, x)
    ensures 1 == a.doc.fromSeq <= a.doc.toSeq && x.doc.fromSeq == a.doc.toSeq + 1
    ensures x.doc.fromSeq < c.doc.fromSeq <= c.doc.toSeq
  {
    assert a.doc.seals == db.seals[0..1] && c.doc.seals == db.seals[2..3];
    SliceIsHere(db, a.doc, 0, 1);
    SliceIsHere(db, c.doc, 2, 3);
    OnlyDifferent(db, a.doc);
    OnlyDifferent(db, c.doc);
    assert db.seals[1].fromSeq == db.seals[0].toSeq + 1 && db.seals[2].fromSeq == db.seals[1].toSeq + 1;
  }

  /** The loop follows the first range and stops at the lost one. */
  lemma {:induction false} StopsWithoutGap(db: Db, a: Object, x: Object, c: Object, chain: seq<Object>)
    requires Severed(db, a, x, c) && Walked(db, [a, x, c], {}, chain)
    ensures chain == [a]
  {
    hide FirstDifference, Supersession, WellFormed, JumpsTo, Chained;
    SeveredSeals(db, a, x, c);
    var objects := [a, x, c];
    assert Open(objects, [], a);
    assert chain != [];
    assert Chosen(db, objects, {}, chain, 0) && Chosen(db, objects, {}, chain, 1);
    assert chain[..0] == [];
    assert !JumpsTo(db, objects, [], chain[0].doc.fromSeq) by { NoJump(db, objects, [], a, chain[0].doc.fromSeq); }
    assert chain[0] == a;
    if |chain| > 1 {
      assert chain[..1] == [a];
      assert Open(objects, [a], x);
      OnlyDifferent(db, x.doc);
      assert chain[1] == c;
      NoJump(db, objects, [a], x, chain[1].doc.fromSeq);
    }
  }

  function ThreeListed(a: Object, x: Object, c: Object): seq<Listed> {
    [Listed(a.key, Some(a.doc)), Listed(x.key, Some(x.doc)), Listed(c.key, Some(c.doc))]
  }

  lemma ThreeObjects(a: Object, x: Object, c: Object)
    requires WellFormed(a.key, a.doc) && WellFormed(x.key, x.doc) && WellFormed(c.key, c.doc)
    ensures ObjectsOf(ThreeListed(a, x, c)) == [a, x, c]
  {
    var listed := ThreeListed(a, x, c);
    ObjectsFrom(listed);
    assert listed[1..] == [Listed(x.key, Some(x.doc)), Listed(c.key, Some(c.doc))];
    TwoObjects(x, c);
    assert Object(a.key, a.doc) == a;
  }

  /**
   * The ranges here are regular and apart, but the last is cut off: its seal is not checked against the events at all,
   * and nothing is reported, not even a gap, whatever the trail holds in its range.
   */
  lemma {:induction false} CutOffIsPassedOver(db: Db, a: Object, x: Object, c: Object, now: int, grace: nat,
                                              chain: seq<Object>, v: Verification)
    requires Severed(db, a, x, c) && Matches(db.trail, db.seals[0])
    requires forall k :: 0 <= k < 3 ==> db.seals[k].sealedAt >= now - grace
    requires Reports(db, ThreeListed(a, x, c), chain, now, grace, v)
    ensures Regular(db, [a, x, c], {}) && AllApart(db, [a, x, c]) && CutOff(db, [a, x, c], c)
    ensures v.findings == [] && db.seals[2] in c.doc.seals && db.seals[2] !in SealsOf(chain)
  {
    hide Warranted, AllChosen, Exhausted, Contiguous, AnyGap, FirstDifference, Supersession, IsSuperseded, SealsOf,
         Chained, HonestArchive, ThreeListed;
    ThreeObjects(a, x, c);
    assert RecordedKeys(db) == {};
    StopsWithoutGap(db, a, x, c, chain);
    SeveredSeals(db, a, x, c);
    SeveredApart(db, a, x, c);
    OneSealOf(db, a);
    forall f: Finding
      ensures !f.Gap? ==> !Warranted(db, ThreeListed(a, x, c), chain, now, grace, f)
    {
      NothingWarrantedThere(db, a, x, c, now, grace, f);
    }
    OneIsContiguous(db, a);
    NothingFound(v.findings);
  }

  lemma SeveredApart(db: Db, a: Object, x: Object, c: Object)
    requires Severed(db, a, x, c)
    ensures Regular(db, [a, x, c], {}) && AllApart(db, [a, x, c]) && CutOff(db, [a, x, c], c)
  {
    hide FirstDifference, Supersession, WellFormed;
    SeveredSeals(db, a, x, c);
    var objects := [a, x, c];
    assert a in objects && IsPlace(db, objects, x.doc.fromSeq);
    assert CutsAt(db, objects, x);
  }

  lemma OneSealOf(db: Db, a: Object)
    requires |db.seals| == 3 && Chained(db.seals) && a.doc.seals == db.seals[..1]
    ensures SealsOf([a]) == db.seals[..1] && db.seals[2] !in db.seals[..1]
  {
    assert [a][..0] == [];
    IdsGrow(db.seals, 0, 2);
  }

  lemma {:induction false} NothingWarrantedThere(db: Db, a: Object, x: Object, c: Object, now: int, grace: nat,
                                                 f: Finding)
    requires Severed(db, a, x, c) && Matches(db.trail, db.seals[0])
    requires forall k :: 0 <= k < 3 ==> db.seals[k].sealedAt >= now - grace
    ensures !Warranted(db, ThreeListed(a, x, c), [a], now, grace, f)
  {
    hide FirstDifference, Matches, Supersession, FirstPending;
    ThreeObjects(a, x, c);
    OneSealOf(db, a);
    SeveredSeals(db, a, x, c);
    FoundHere(db.seals, 0);
    assert forall s :: s in db.seals[..1] ==> s == db.seals[0];
    PendingIsExact(db.seals, LastTo(db.seals[..1]), now - grace);
  }

  /** Such an archive, with a trail in which the event under the last seal was altered. */
  lemma SeveredExists() returns (db: Db, a: Object, x: Object, c: Object)
    ensures Severed(db, a, x, c) && Matches(db.trail, db.seals[0]) && !Matches(db.trail, db.seals[2])
    ensures ValidTrail(db.trail) && forall k :: 0 <= k < 3 ==> db.seals[k].sealedAt == 10
  {
    var e, f, g, lost := Event(1, 0, 0), Event(2, 0, 0), Event(3, 0, 0), Event(2, 0, 7);
    var s := Seal(1, 1, 1, 1, None, Hash(None, [e]), 10);
    var t := Seal(2, 2, 2, 1, Some(s.hash), Hash(Some(s.hash), [f]), 10);
    var u := Seal(3, 3, 3, 1, Some(t.hash), Hash(Some(t.hash), [g]), 10);
    var w := t.(hash := Hash(Some(s.hash), [lost]));
    db := Db(map[1 := e, 2 := f, 3 := g.(content := 7)], [s, t, u], [], [Fence(0, 5)]);
    a := Object(Key(1, 1, s.hash), Doc(1, 1, 1, 1, 0, None, [s]));
    x := Object(Key(2, 2, w.hash), Doc(2, 2, 2, 2, 1, Some(s.hash), [w]));
    c := Object(Key(3, 3, u.hash), Doc(3, 3, 3, 3, 2, Some(t.hash), [u]));
    OneEvent(db.trail, 1);
    OneEvent(db.trail, 3);
    LostIsSuperseded(db, t, w, x.doc);
  }

  lemma OneEvent(trail: Trail, n: nat)
    requires n in trail && n > 0
    ensures Range(trail, n, n) == [trail[n]]
  {
    assert Range(trail, n, n - 1) == [];
  }

  lemma LostIsSuperseded(db: Db, t: Seal, w: Seal, doc: Doc)
    requires |db.seals| == 3 && Chained(db.seals) && db.seals[1] == t && w.id == t.id && w.hash != t.hash
    requires doc.seals == [w] && db.fences == [Fence(0, 5)] && w.sealedAt == 10
    ensures Supersession(db, doc).Some?
  {
    FoundHere(db.seals, 1);
    assert doc.seals[0] == w;
    SortKeeps(KnownEarlier, db.fences);
    assert Fence(0, 5) in Sort(KnownEarlier, db.fences);
  }
}
