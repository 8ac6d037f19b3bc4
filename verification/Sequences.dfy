/** Facts about sequences that several components share: distinctness, prefixes, sorting. */
module Sequences {

  datatype Option<+T> = None | Some(value: T)

  predicate Distinct<T(==)>(s: seq<T>) {
    forall i, j :: 0 <= i < j < |s| ==> s[i] != s[j]
  }

  function Last<T>(s: seq<T>): T
    requires s != []
  {
    s[|s| - 1]
  }

  lemma DistinctAppend<T>(s: seq<T>, x: T)
    requires Distinct(s) && x !in s
    ensures Distinct(s + [x])
  {
  }

  function IndexOf<T(==)>(s: seq<T>, x: T): (k: nat)
    requires x in s
    ensures k < |s| && s[k] == x
    ensures forall j :: 0 <= j < k ==> s[j] != x
  {
    if s[0] == x then 0 else 1 + IndexOf(s[1..], x)
  }

  /** Inserts `x` after every element that does not come strictly after it. */
  function Insert<T>(before: (T, T) -> bool, x: T, s: seq<T>): (r: seq<T>)
    ensures multiset(r) == multiset(s) + multiset{x}
  {
    if s == [] then [x]
    else if before(x, s[0]) then [x] + s
    else
      assert s == [s[0]] + s[1..];
      [s[0]] + Insert(before, x, s[1..])
  }

  function Sort<T>(before: (T, T) -> bool, s: seq<T>): (r: seq<T>)
    ensures multiset(r) == multiset(s)
  {
    if s == [] then []
    else
      var n := |s| - 1;
      assert s == s[..n] + [s[n]];
      Insert(before, s[n], Sort(before, s[..n]))
  }

  lemma SortKeeps<T>(before: (T, T) -> bool, s: seq<T>)
    ensures |Sort(before, s)| == |s|
    ensures forall x :: x in Sort(before, s) <==> x in s
    ensures Distinct(s) ==> Distinct(Sort(before, s))
  {
    SameMultiset(Sort(before, s), s);
    if Distinct(s) { DistinctByMultiset(s, Sort(before, s)); }
  }

  lemma SameMultiset<T>(a: seq<T>, b: seq<T>)
    requires multiset(a) == multiset(b)
    ensures |a| == |b|
    ensures forall x :: x in a <==> x in b
  {
    assert |multiset(a)| == |a| && |multiset(b)| == |b|;
    forall x
      ensures x in a <==> x in b
    {
      assert x in a <==> x in multiset(a);
      assert x in b <==> x in multiset(b);
    }
  }

  /** A strict order: whatever `before` does not separate, it does not separate transitively either. */
  ghost predicate StrictWeakOrder<T(!new)>(before: (T, T) -> bool) {
    && (forall x :: !before(x, x))
    && (forall x, y :: before(x, y) ==> !before(y, x))
    && (forall x, y, z :: before(x, y) && before(y, z) ==> before(x, z))
    && (forall x, y, z :: !before(x, y) && !before(y, z) ==> !before(x, z))
  }

  ghost predicate Ascending<T(!new)>(before: (T, T) -> bool, s: seq<T>) {
    forall i, j :: 0 <= i < j < |s| ==> !before(s[j], s[i])
  }

  lemma {:induction false} InsertAscending<T(!new)>(before: (T, T) -> bool, x: T, s: seq<T>)
    requires StrictWeakOrder(before) && Ascending(before, s)
    ensures Ascending(before, Insert(before, x, s))
  {
    if s != [] && !before(x, s[0]) {
      var rest := Insert(before, x, s[1..]);
      InsertAscending(before, x, s[1..]);
      forall j | 0 <= j < |rest|
        ensures !before(rest[j], s[0])
      {
        assert rest[j] in multiset(rest);
        assert rest[j] == x || rest[j] in s[1..];
      }
    } else if s != [] {
      forall j | 0 <= j < |s|
        ensures !before(s[j], x)
      {
        assert !before(s[j], s[0]);
      }
    }
  }

  lemma {:induction false} SortAscending<T(!new)>(before: (T, T) -> bool, s: seq<T>)
    requires StrictWeakOrder(before)
    ensures Ascending(before, Sort(before, s))
  {
    if s != [] {
      var n := |s| - 1;
      SortAscending(before, s[..n]);
      InsertAscending(before, s[n], Sort(before, s[..n]));
    }
  }

  lemma DistinctByMultiset<T>(a: seq<T>, b: seq<T>)
    requires multiset(a) == multiset(b) && Distinct(a)
    ensures Distinct(b)
  {
    if i, j :| 0 <= i < j < |b| && b[i] == b[j] {
      var x := b[i];
      assert b == b[..i] + [x] + b[i + 1..j] + [x] + b[j + 1..];
      assert multiset(b)[x] >= 2;
      AtMostOnce(a, x);
    }
  }

  lemma {:induction false} AtMostOnce<T>(a: seq<T>, x: T)
    requires Distinct(a)
    ensures multiset(a)[x] <= 1
  {
    if a != [] {
      assert a == [a[0]] + a[1..];
      AtMostOnce(a[1..], x);
      if x == a[0] && x in a[1..] { assert false; }
    }
  }

  lemma {:induction false} DistinctSize<T(!new)>(s: seq<T>, elements: set<T>)
    requires Distinct(s) && forall x :: x in s <==> x in elements
    ensures |elements| == |s|
  {
    if s == [] {
      assert elements == {};
    } else {
      assert s == [s[0]] + s[1..];
      DistinctSize(s[1..], elements - {s[0]});
    }
  }

  function Filter<T(!new)>(s: seq<T>, keep: T -> bool): (r: seq<T>)
    ensures forall x :: x in r <==> x in s && keep(x)
  {
    if s == [] then []
    else if keep(s[0]) then [s[0]] + Filter(s[1..], keep)
    else Filter(s[1..], keep)
  }

  lemma EmptyIfNone<T(!new)>(s: seq<T>)
    ensures (forall x :: x !in s) <==> s == []
  {
    if s != [] { assert s[0] in s; }
  }

  /** The first element that satisfies `p`. */
  function Find<T(!new)>(s: seq<T>, p: T -> bool): (r: Option<T>)
    ensures r.Some? ==> r.value in s && p(r.value)
    ensures r.None? ==> forall x :: x in s ==> !p(x)
  {
    if s == [] then None else if p(s[0]) then Some(s[0]) else Find(s[1..], p)
  }
}
