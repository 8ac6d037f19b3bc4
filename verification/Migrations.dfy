/** Schema migrations: packages/db/src/migrate.ts. Runs hold an advisory lock, so they come one after the other. */
module Migrations {
  import opened Sequences

  /** A migration file, with the checksum of its text. */
  datatype Migration = Migration(version: nat, checksum: nat)

  /** What becomes of one migration's transaction: a lost commit has happened, but is reported as a failure. */
  datatype Fate = Commits | RollsBack | CommitLost

  datatype Outcome = Done(applied: seq<nat>) | NotContiguous | Modified(version: nat) | FailedAt(version: nat)

  /** The applied versions and their checksums, as `schema_migration` has them. */
  type Schema = map<nat, nat>

  predicate Contiguous(files: seq<Migration>) {
    forall i :: 0 <= i < |files| ==> files[i].version == i + 1
  }

  datatype Result = Result(schema: Schema, outcome: Outcome)

  /** What a run comes to from file `i` on, having applied some. */
  function From(schema: Schema, files: seq<Migration>, fates: seq<Fate>, i: nat, applied: seq<nat>): Result
    requires |fates| == |files| && i <= |files|
    decreases |files| - i
  {
    if i == |files| then Result(schema, Done(applied))
    else
      var m := files[i];
      if m.version in schema then
        if schema[m.version] != m.checksum then Result(schema, Modified(m.version))
        else From(schema, files, fates, i + 1, applied)
      else
        match fates[i]
        case Commits => From(schema[m.version := m.checksum], files, fates, i + 1, applied + [m.version])
        case RollsBack => Result(schema, FailedAt(m.version))
        case CommitLost => Result(schema[m.version := m.checksum], FailedAt(m.version))
  }

  function Migrated(schema: Schema, files: seq<Migration>, fates: seq<Fate>): Result
    requires |fates| == |files|
  {
    if Contiguous(files) then From(schema, files, fates, 0, []) else Result(schema, NotContiguous)
  }

  class Database {
    var schema: Schema

    method Migrate(files: seq<Migration>, fates: seq<Fate>) returns (o: Outcome)
      requires |fates| == |files|
      modifies this
      ensures Result(schema, o) == Migrated(old(schema), files, fates)
    {
      for i := 0 to |files|
        invariant forall h :: 0 <= h < i ==> files[h].version == h + 1
        invariant schema == old(schema)
      {
        if files[i].version != i + 1 { return NotContiguous; }
      }
      var applied := [];
      for i := 0 to |files|
        invariant From(schema, files, fates, i, applied) == From(old(schema), files, fates, 0, [])
      {
        var m := files[i];
        if m.version in schema {
          if schema[m.version] != m.checksum { return Modified(m.version); }
          continue;
        }
        if fates[i].RollsBack? { return FailedAt(m.version); }
        schema := schema[m.version := m.checksum];
        if fates[i].CommitLost? { return FailedAt(m.version); }
        applied := applied + [m.version];
      }
      o := Done(applied);
    }
  }

  // ---- what every run keeps ---------------------------------------------------------------------------------------

  /** Exactly the versions 1 to `k` are applied. */
  ghost predicate IsPrefix(schema: Schema, k: nat) {
    forall v :: v in schema <==> 1 <= v <= k
  }

  ghost predicate Keeps(old': Schema, new': Schema) {
    forall v :: v in old' ==> v in new' && new'[v] == old'[v]
  }

  /** From a prefix, with the files below it checked: the run ends on a prefix again, having changed no checksum. */
  lemma {:induction false} FromKeeps(schema: Schema, files: seq<Migration>, fates: seq<Fate>, i: nat, applied: seq<nat>,
                                     k: nat) returns (n: nat)
    requires |fates| == |files| && i <= |files| && i <= k && Contiguous(files) && IsPrefix(schema, k)
    ensures var r := From(schema, files, fates, i, applied);
            IsPrefix(r.schema, n) && n >= k && Keeps(schema, r.schema)
    ensures var o := From(schema, files, fates, i, applied).outcome;
            o.Done? ==> o.applied == applied + seq(n - k, j => k + 1 + j) && n >= |files|
    decreases |files| - i
  {
    n := k;
    if i < |files| {
      var m := files[i];
      if m.version in schema {
        if schema[m.version] == m.checksum { n := FromKeeps(schema, files, fates, i + 1, applied, k); }
      } else if i == k {
        var next := schema[m.version := m.checksum];
        assert IsPrefix(next, k + 1);
        if fates[i].Commits? {
          n := FromKeeps(next, files, fates, i + 1, applied + [m.version], k + 1);
          assert seq(n - k, j => k + 1 + j) == [k + 1] + seq(n - k - 1, j => k + 2 + j);
        } else if fates[i].CommitLost? {
          n := k + 1;
        }
      }
    }
  }

  /** Runs one after the other, each with the files and fates it has. */
  datatype Attempt = Attempt(files: seq<Migration>, fates: seq<Fate>)

  ghost predicate Fits(runs: seq<Attempt>) {
    forall i :: 0 <= i < |runs| ==> |runs[i].fates| == |runs[i].files|
  }

  function After(runs: seq<Attempt>): Schema
    requires Fits(runs)
  {
    if runs == [] then map[]
    else
      var last := Last(runs);
      Migrated(After(runs[..|runs| - 1]), last.files, last.fates).schema
  }

  /** Whatever fails or crashes, the versions applied are 1 to some k. */
  lemma {:induction false} AlwaysAPrefix(runs: seq<Attempt>) returns (k: nat)
    requires Fits(runs)
    ensures IsPrefix(After(runs), k)
    decreases |runs|
  {
    k := 0;
    if runs != [] {
      k := AlwaysAPrefix(runs[..|runs| - 1]);
      var last := Last(runs);
      if Contiguous(last.files) { k := FromKeeps(After(runs[..|runs| - 1]), last.files, last.fates, 0, [], k); }
    }
  }

  /** What is once applied stays applied, with the checksum it was applied with. */
  lemma {:induction false} ChecksumsStay(runs: seq<Attempt>, j: nat)
    requires Fits(runs) && j <= |runs|
    ensures Keeps(After(runs[..j]), After(runs))
    decreases |runs| - j
  {
    if j == |runs| {
      assert runs[..j] == runs;
    } else {
      var before, run := After(runs[..j]), runs[j];
      var k := AlwaysAPrefix(runs[..j]);
      assert runs[..j + 1][..j] == runs[..j];
      if Contiguous(run.files) { var n := FromKeeps(before, run.files, run.fates, 0, [], k); }
      ChecksumsStay(runs, j + 1);
    }
  }

  ghost predicate FirstModified(schema: Schema, files: seq<Migration>, i: nat) {
    && i < |files| && files[i].version in schema && schema[files[i].version] != files[i].checksum
    && forall h :: 0 <= h < i ==> files[h].version in schema && schema[files[h].version] == files[h].checksum
  }

  lemma {:induction false} ModifiedFrom(schema: Schema, files: seq<Migration>, fates: seq<Fate>, i: nat, m: nat)
    requires |fates| == |files| && i <= m && FirstModified(schema, files, m)
    ensures From(schema, files, fates, i, []) == Result(schema, Modified(files[m].version))
    decreases m - i
  {
    if i < m { ModifiedFrom(schema, files, fates, i + 1, m); }
  }

  /** A run that finds an applied file modified names the first such, and has applied nothing. */
  lemma ModifiedAppliesNothing(runs: seq<Attempt>, files: seq<Migration>, fates: seq<Fate>, i: nat)
    requires Fits(runs) && |fates| == |files| && Contiguous(files)
    requires i < |files| && files[i].version in After(runs) && After(runs)[files[i].version] != files[i].checksum
    ensures var r := Migrated(After(runs), files, fates);
            r.schema == After(runs)
              && exists m: nat :: FirstModified(After(runs), files, m) && r.outcome == Modified(files[m].version)
  {
    var k := AlwaysAPrefix(runs);
    var m := Least(After(runs), files, k, i);
    ModifiedFrom(After(runs), files, fates, 0, m);
  }

  lemma {:induction false} Least(schema: Schema, files: seq<Migration>, k: nat, i: nat) returns (m: nat)
    requires Contiguous(files) && IsPrefix(schema, k)
    requires i < |files| && files[i].version in schema && schema[files[i].version] != files[i].checksum
    ensures FirstModified(schema, files, m)
    decreases i
  {
    if h: nat :| h < i && schema[files[h].version] != files[h].checksum {
      m := Least(schema, files, k, h);
    } else {
      m := i;
    }
  }

  lemma {:induction false} AllAppliedFrom(schema: Schema, files: seq<Migration>, fates: seq<Fate>, i: nat)
    requires |fates| == |files| && i <= |files|
    requires forall h ::
               0 <= h < |files| ==> files[h].version in schema && schema[files[h].version] == files[h].checksum
    ensures From(schema, files, fates, i, []) == Result(schema, Done([]))
    decreases |files| - i
  {
    if i < |files| { AllAppliedFrom(schema, files, fates, i + 1); }
  }

  /** A run that completes has applied what was missing, in order; another with the same files applies nothing. */
  lemma AgainAppliesNothing(runs: seq<Attempt>, files: seq<Migration>, fates: seq<Fate>, fates': seq<Fate>)
    requires Fits(runs) && |fates| == |files| == |fates'|
    requires Migrated(After(runs), files, fates).outcome.Done?
    ensures var r := Migrated(After(runs), files, fates);
            && Migrated(r.schema, files, fates') == Result(r.schema, Done([]))
            && (forall h ::
                  0 <= h < |files| ==> files[h].version in r.schema && r.schema[files[h].version] == files[h].checksum)
  {
    var k := AlwaysAPrefix(runs);
    var r := Migrated(After(runs), files, fates);
    DoneHoldsAll(After(runs), files, fates, 0, [], k);
    AllAppliedFrom(r.schema, files, fates', 0);
  }

  lemma {:induction false} DoneHoldsAll(schema: Schema, files: seq<Migration>, fates: seq<Fate>, i: nat,
                                        applied: seq<nat>, k: nat)
    requires |fates| == |files| && i <= |files| && i <= k && Contiguous(files) && IsPrefix(schema, k)
    requires From(schema, files, fates, i, applied).outcome.Done?
    requires forall h :: 0 <= h < i ==> files[h].version in schema && schema[files[h].version] == files[h].checksum
    ensures var r := From(schema, files, fates, i, applied);
            forall h ::
                0 <= h < |files| ==> files[h].version in r.schema && r.schema[files[h].version] == files[h].checksum
    decreases |files| - i
  {
    if i < |files| {
      var m := files[i];
      if m.version in schema {
        DoneHoldsAll(schema, files, fates, i + 1, applied, k);
      } else {
        assert IsPrefix(schema[m.version := m.checksum], k + 1);
        DoneHoldsAll(schema[m.version := m.checksum], files, fates, i + 1, applied + [m.version], k + 1);
      }
    }
  }

  /** The first migration from `k` on whose transaction does not commit, or the end. */
  ghost predicate StopsAt(fates: seq<Fate>, k: nat, f: nat) {
    k <= f <= |fates| && (forall i :: k <= i < f ==> fates[i].Commits?) && (f < |fates| ==> !fates[f].Commits?)
  }

  /** The versions after `k` up to `f`. */
  function Versions(k: nat, f: nat): seq<nat>
    requires k <= f
  {
    seq(f - k, j => k + 1 + j)
  }

  ghost predicate Unmodified(schema: Schema, files: seq<Migration>) {
    forall i :: 0 <= i < |files| && files[i].version in schema ==> schema[files[i].version] == files[i].checksum
  }

  /** The version that a run records up to: `f`, or the next if its commit took though the answer was lost. */
  function Recorded(fates: seq<Fate>, f: nat): nat {
    if f < |fates| && fates[f].CommitLost? then f + 1 else f
  }

  /** What a run leaves: the versions 1 to `n`, those of before as they were and the rest as their files are now. */
  ghost predicate Leaves(old': Schema, files: seq<Migration>, new': Schema, n: nat) {
    && IsPrefix(new', n) && Keeps(old', new')
    && forall v :: v in new' && v !in old' ==> 1 <= v <= |files| && new'[v] == files[v - 1].checksum
  }

  lemma LeavesOneMore(schema: Schema, files: seq<Migration>, new': Schema, k: nat, n: nat)
    requires Contiguous(files) && IsPrefix(schema, k) && k < |files|
    requires Leaves(schema[k + 1 := files[k].checksum], files, new', n)
    ensures Leaves(schema, files, new', n)
  {
    var next := schema[k + 1 := files[k].checksum];
    assert k + 1 in next && new'[k + 1] == next[k + 1];
  }

  lemma {:induction false} FromStops(schema: Schema, files: seq<Migration>, fates: seq<Fate>, i: nat,
                                     applied: seq<nat>, k: nat, f: nat)
    requires |fates| == |files| && i <= k && i <= |files| && Contiguous(files) && IsPrefix(schema, k)
    requires Unmodified(schema, files) && if k <= |files| then StopsAt(fates, k, f) else f == k
    ensures var r := From(schema, files, fates, i, applied);
            && r.outcome == (if f < |files| then FailedAt(f + 1) else Done(applied + Versions(k, f)))
            && Leaves(schema, files, r.schema, Recorded(fates, f))
    decreases |files| - i
  {
    hide Leaves;
    if i < k && i < |files| {
      FromStops(schema, files, fates, i + 1, applied, k, f);
    } else if i == |files| {
      assert Leaves(schema, files, schema, f) by { LeavesAll(schema, files, f); }
      assert applied + Versions(k, f) == applied;
    } else {
      var next := schema[k + 1 := files[k].checksum];
      assert IsPrefix(next, k + 1);
      LeavesAll(schema, files, k);
      LeavesAll(next, files, k + 1);
      if fates[k].Commits? {
        FromStops(next, files, fates, i + 1, applied + [k + 1], k + 1, f);
        assert applied + [k + 1] + Versions(k + 1, f) == applied + Versions(k, f);
        LeavesOneMore(schema, files, From(schema, files, fates, i, applied).schema, k, Recorded(fates, f));
      } else {
        LeavesOneMore(schema, files, next, k, k + 1);
      }
    }
  }

  lemma LeavesAll(schema: Schema, files: seq<Migration>, k: nat)
    requires IsPrefix(schema, k)
    ensures Leaves(schema, files, schema, k)
  {
  }

  /**
   * What a run comes to: with versions 1 to `k` applied and none of their files modified, it applies exactly those from
   * `k` + 1 up to the first whose transaction fails. That one is not recorded when it is rolled back, and is when only
   * the answer to its commit is lost.
   */
  lemma RunMeans(runs: seq<Attempt>, files: seq<Migration>, fates: seq<Fate>, k: nat, f: nat)
    requires Fits(runs) && |fates| == |files| && Contiguous(files) && IsPrefix(After(runs), k)
    requires Unmodified(After(runs), files) && if k <= |files| then StopsAt(fates, k, f) else f == k
    ensures var r := Migrated(After(runs), files, fates);
            && r.outcome == (if f < |files| then FailedAt(f + 1) else Done(Versions(k, f)))
            && Leaves(After(runs), files, r.schema, Recorded(fates, f))
  {
    hide From, Leaves;
    FromStops(After(runs), files, fates, 0, [], k, f);
    assert [] + Versions(k, f) == Versions(k, f);
  }
}
