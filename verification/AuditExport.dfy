/**
 * `exportAuditSeals` and `adoptExport` of packages/audit/src/export.ts: one run of the daily export, which may stop
 * between writing a range and recording it.
 */
module AuditExport {
  import opened Sequences
  import opened AuditSeal
  import opened AuditArchive

  datatype Outcome =
    | Nothing
    /** A range an earlier run wrote and did not record. */
    | Adopted(record: Export)
    | Written(record: Export)

  /** The recorded export with the highest last seal. */
  function LastExport(exports: seq<Export>): Option<Export> {
    if exports == [] then None
    else
      var best, e := LastExport(exports[..|exports| - 1]), Last(exports);
      if best.Some? && best.value.lastSeal >= e.lastSeal then best else Some(e)
  }

  function ExportedTo(exports: seq<Export>): nat {
    var last := LastExport(exports);
    if last.Some? then last.value.lastSeal else 0
  }

  function ExportedHash(exports: seq<Export>): Option<Hash> {
    var last := LastExport(exports);
    if last.Some? then Some(last.value.lastHash) else None
  }

  function SealsAfter(seals: seq<Seal>, after: nat): seq<Seal> {
    Filter(seals, (s: Seal) => s.id > after)
  }

  function SealsBetween(seals: seq<Seal>, first: nat, last: nat): seq<Seal> {
    Filter(seals, (s: Seal) => first <= s.id <= last)
  }

  function Record(key: Key, doc: Doc, seals: seq<Seal>): Export
    requires seals != []
  {
    Export(doc.firstSeal, Last(seals).id, seals[0].fromSeq, Last(seals).toSeq, |seals|, Last(seals).hash, key, doc)
  }

  /** The record of an object that describes exactly the seals here, when it does. */
  function Adoption(seals: seq<Seal>, archive: Archive, key: Key, after: nat, afterHash: Option<Hash>): Option<Export> {
    if key !in archive then None
    else
      var doc := archive[key];
      if !WellFormed(key, doc) || doc.firstSeal <= after || doc.continuesSeal != after
        || doc.continuesHash != afterHash then None
      else
        var here := SealsBetween(seals, doc.firstSeal, doc.lastSeal);
        if here != doc.seals then None else Some(Record(key, doc, here))
  }

  function FirstAdoption(seals: seq<Seal>, archive: Archive, listed: seq<Key>, after: nat,
                         afterHash: Option<Hash>): Option<Export> {
    if listed == [] then None
    else
      var a := Adoption(seals, archive, listed[0], after, afterHash);
      if a.Some? then a else FirstAdoption(seals, archive, listed[1..], after, afterHash)
  }

  /** The range to write over some seals, continuing from another. */
  function Document(rows: seq<Seal>, after: nat, afterHash: Option<Hash>): Doc
    requires rows != []
  {
    Doc(rows[0].id, Last(rows).id, rows[0].fromSeq, Last(rows).toSeq, after, afterHash, rows)
  }

  function KeyOf(doc: Doc): Key
    requires doc.seals != []
  {
    Key(doc.firstSeal, doc.lastSeal, Last(doc.seals).hash)
  }

  /** What a run does; `listed` are the objects listed under the next seal's number. */
  function Exporting(db: Db, archive: Archive, listed: seq<Key>, maxSeals: nat): Outcome {
    var after, afterHash := ExportedTo(db.exports), ExportedHash(db.exports);
    var pending := SealsAfter(db.seals, after);
    if pending == [] then Nothing
    else
      var adopted := FirstAdoption(db.seals, archive, listed, after, afterHash);
      if adopted.Some? then Adopted(adopted.value)
      else
        var rows := if |pending| > maxSeals then pending[..maxSeals] else pending;
        if rows == [] then Nothing
        else
          var doc := Document(rows, after, afterHash);
          Written(Record(KeyOf(doc), doc, rows))
  }

  /** The seal that exports have got to, and its hash: of the recorded export that ends last, if there is one. */
  ghost predicate GotTo(exports: seq<Export>, seal: nat, hash: Option<Hash>) {
    if exports == [] then seal == 0 && hash == None
    else
      && (exists e :: e in exports && e.lastSeal == seal && hash == Some(e.lastHash))
      && forall e :: e in exports ==> e.lastSeal <= seal
  }

  lemma {:induction false} LastExportEnds(exports: seq<Export>)
    ensures GotTo(exports, ExportedTo(exports), ExportedHash(exports))
  {
    if exports != [] {
      var init, e := exports[..|exports| - 1], Last(exports);
      LastExportEnds(init);
      assert exports == init + [e];
      if init != [] {
        var best :| best in init && best.lastSeal == ExportedTo(init) && ExportedHash(init) == Some(best.lastHash);
        assert best in exports;
      }
    }
  }

  /** A record tells of its range what it is, whether the run wrote it or found it. */
  ghost predicate TellsOf(e: Export, doc: Doc) {
    && e.body == doc && doc.seals != [] && e.count == |doc.seals|
    && e.key == Key(doc.firstSeal, doc.lastSeal, doc.seals[|doc.seals| - 1].hash)
    && e.firstSeal == doc.firstSeal && e.lastSeal == doc.seals[|doc.seals| - 1].id
    && e.fromSeq == doc.seals[0].fromSeq && e.toSeq == doc.seals[|doc.seals| - 1].toSeq
    && e.lastHash == doc.seals[|doc.seals| - 1].hash
  }

  /** A range that an earlier run wrote and did not record: it goes on from there, over exactly the seals here. */
  ghost predicate GoesOnFrom(seals: seq<Seal>, archive: Archive, key: Key, after: nat, afterHash: Option<Hash>) {
    && key in archive
    && var doc := archive[key];
    && doc.seals != [] && key == Key(doc.firstSeal, doc.lastSeal, doc.seals[|doc.seals| - 1].hash)
    && doc.firstSeal > after && doc.continuesSeal == after && doc.continuesHash == afterHash
    && doc.seals == Filter(seals, (s: Seal) => doc.firstSeal <= s.id <= doc.lastSeal)
  }

  /** What a run records, and that it continues from the seal that exports have got to. */
  lemma RecordTells(db: Db, archive: Archive, listed: seq<Key>, maxSeals: nat)
    requires !Exporting(db, archive, listed, maxSeals).Nothing?
    ensures var o := Exporting(db, archive, listed, maxSeals);
            && TellsOf(o.record, o.record.body)
            && GotTo(db.exports, o.record.body.continuesSeal, o.record.body.continuesHash)
            && (o.Adopted? ==>
                  && o.record.key in listed && o.record.key in archive && o.record.body == archive[o.record.key]
                  && GoesOnFrom(db.seals, archive, o.record.key, o.record.body.continuesSeal,
                                o.record.body.continuesHash))
            && (o.Written? ==> forall k :: k in listed ==>
                  !GoesOnFrom(db.seals, archive, k, o.record.body.continuesSeal, o.record.body.continuesHash))
            && (o.Written? ==>
                  && o.record.body.firstSeal == o.record.body.seals[0].id && o.record.body.lastSeal == o.record.lastSeal
                  && o.record.body.fromSeq == o.record.fromSeq && o.record.body.toSeq == o.record.toSeq)
  {
    hide ExportedTo, ExportedHash, SealsAfter, SealsBetween;
    LastExportEnds(db.exports);
    AdoptionTells(db.seals, archive, listed, ExportedTo(db.exports), ExportedHash(db.exports));
  }

  lemma {:induction false} AdoptionTells(seals: seq<Seal>, archive: Archive, listed: seq<Key>, after: nat,
                                         afterHash: Option<Hash>)
    ensures var a := FirstAdoption(seals, archive, listed, after, afterHash);
            a.Some? ==>
              && a.value.key in listed && a.value.key in archive && TellsOf(a.value, archive[a.value.key])
              && a.value.body.continuesSeal == after && a.value.body.continuesHash == afterHash
              && GoesOnFrom(seals, archive, a.value.key, after, afterHash)
    ensures FirstAdoption(seals, archive, listed, after, afterHash).None? ==>
              forall k :: k in listed ==> !GoesOnFrom(seals, archive, k, after, afterHash)
  {
    if listed != [] { AdoptionTells(seals, archive, listed[1..], after, afterHash); }
  }

  /** Under Object Lock an object once written stays as it is. */
  function PutOnce(archive: Archive, key: Key, doc: Doc): Archive {
    if key in archive then archive else archive[key := doc]
  }

  function ExportedArchive(archive: Archive, o: Outcome): Archive {
    if o.Written? then PutOnce(archive, o.record.key, o.record.body) else archive
  }

  /** A run that crashes has written its range, if it had one to write, and recorded nothing. */
  function RecordedExports(exports: seq<Export>, o: Outcome, crashes: bool): seq<Export> {
    if crashes || o.Nothing? then exports else exports + [o.record]
  }

  class ExportJob {
    var db: Db
    var archive: Archive

    method Run(listed: seq<Key>, maxSeals: nat, crashes: bool) returns (o: Outcome)
      modifies this
      ensures o == Exporting(old(db), old(archive), listed, maxSeals)
      ensures archive == ExportedArchive(old(archive), o)
      ensures db == old(db).(exports := RecordedExports(old(db).exports, o, crashes))
      // A run cut short records nothing, and any other what it wrote or found; nothing written is ever written over.
      ensures db == if crashes || o.Nothing? then old(db) else old(db).(exports := old(db).exports + [o.record])
      ensures archive == if o.Written? && o.record.key !in old(archive) then old(archive)[o.record.key := o.record.body]
                         else old(archive)
    {
      var last := LastExport(db.exports);
      var after := if last.Some? then last.value.lastSeal else 0;
      var afterHash := if last.Some? then Some(last.value.lastHash) else None;
      var pending := SealsAfter(db.seals, after);
      if pending == [] { return Nothing; }
      assert listed[0..] == listed;
      for k := 0 to |listed|
        invariant db == old(db) && archive == old(archive)
        invariant FirstAdoption(db.seals, archive, listed, after, afterHash)
                  == FirstAdoption(db.seals, archive, listed[k..], after, afterHash)
      {
        assert listed[k..][0] == listed[k] && listed[k..][1..] == listed[k + 1..];
        var adopted := Adoption(db.seals, archive, listed[k], after, afterHash);
        if adopted.Some? {
          if !crashes { db := db.(exports := db.exports + [adopted.value]); }
          return Adopted(adopted.value);
        }
      }
      var rows := if |pending| > maxSeals then pending[..maxSeals] else pending;
      if rows == [] { return Nothing; }
      var doc := Document(rows, after, afterHash);
      var key := KeyOf(doc);
      archive := PutOnce(archive, key, doc);
      o := Written(Record(key, doc, rows));
      if !crashes { db := db.(exports := db.exports + [o.record]); }
    }
  }
}
