/**
 * Audit seals off the database (packages/audit/src/export.ts): ranges of seals in write-once storage, and the database
 * they are compared with. An archived document stands for its bytes, and a seal hash for its first sixteen digits.
 */
module AuditArchive {
  import opened Sequences
  import opened AuditSeal

  /** A range's name: its first and last seal and the last seal's hash. */
  datatype Key = Key(first: nat, last: nat, lastHash: Hash)

  /** A range as written, with the seal and hash it continues from. */
  datatype Doc = Doc(firstSeal: nat, lastSeal: nat, fromSeq: nat, toSeq: nat, continuesSeal: nat,
                     continuesHash: Option<Hash>, seals: seq<Seal>)

  /** The record of an export; `body` is what the digest kept with it was taken of. */
  datatype Export = Export(firstSeal: nat, lastSeal: nat, fromSeq: nat, toSeq: nat, count: nat, lastHash: Hash,
                           key: Key, body: Doc)

  /** A recorded database change, with the last moment the records are known to have been whole. */
  datatype Fence = Fence(ref: nat, knownUntil: int)

  datatype Db = Db(trail: Trail, seals: seq<Seal>, exports: seq<Export>, fences: seq<Fence>)

  type Archive = map<Key, Doc>

  predicate WellFormed(key: Key, doc: Doc) {
    doc.seals != [] && key == Key(doc.firstSeal, doc.lastSeal, Last(doc.seals).hash)
  }

  /** The part of a chain of seals that a range describes, from position `i` on. */
  ghost predicate AgreesAt(seals: seq<Seal>, doc: Doc, i: nat) {
    i + |doc.seals| <= |seals| && seals[i..i + |doc.seals|] == doc.seals
  }

  ghost predicate Agrees(seals: seq<Seal>, doc: Doc) {
    exists i: nat :: AgreesAt(seals, doc, i)
  }

  function SeqAfter(seals: seq<Seal>, m: nat): nat
    requires m <= |seals|
  {
    if m == 0 then 1 else seals[m - 1].toSeq + 1
  }
}
