/**
 * The workspace dependency check of scripts/workspace-graph.ts: a depth-first walk that keeps its own stack, reports
 * every dependency cycle it runs into and lists the packages in the order in which their visits end.
 */
module WorkspaceGraph {
  import opened Sequences

  /** One package's manifest: its dependency fields merged, in the order they are listed. */
  datatype Manifest = Manifest(name: string, dir: string, deps: seq<(string, string)>)

  datatype Problem =
    | NotWorkspaceProtocol(from: string, dep: string, spec: string)
    | PackageDependsOnApp(from: string, dep: string)
    | Cycle(path: seq<string>)

  datatype Mark = Visiting | Done

  type Edges = map<string, seq<string>>

  // ---- graphs, walks and cycles -------------------------------------------------------------------------------

  ghost predicate Closed(edges: Edges) {
    forall n, d :: n in edges && d in edges[n] ==> d in edges
  }

  ghost predicate IsWalk(edges: Edges, p: seq<string>) {
    && (forall i :: 0 <= i < |p| ==> p[i] in edges)
    && (forall i, j :: 0 <= i && j == i + 1 && j < |p| ==> p[j] in edges[p[i]])
  }

  /** A closed walk of at least one edge: it starts and ends at the same package. */
  ghost predicate IsCycle(edges: Edges, p: seq<string>) {
    |p| >= 2 && IsWalk(edges, p) && p[0] == Last(p)
  }

  ghost predicate HasCycle(edges: Edges) {
    exists p :: IsCycle(edges, p)
  }

  /** Every package comes after everything it depends on. */
  ghost predicate Topological(edges: Edges, order: seq<string>) {
    forall i :: 0 <= i < |order| ==> DependenciesBefore(edges, order, i)
  }

  ghost predicate DependenciesBefore(edges: Edges, order: seq<string>, i: nat)
    requires i < |order|
  {
    order[i] in edges && forall d :: d in edges[order[i]] ==> d in order[..i]
  }

  ghost predicate ReportsNoCycle(problems: seq<Problem>) {
    forall k :: 0 <= k < |problems| ==> !problems[k].Cycle?
  }

  /** Along a walk, positions in a topological order only go down. */
  lemma {:induction false} WalkDescends(edges: Edges, order: seq<string>, p: seq<string>, k: nat)
    requires Topological(edges, order) && Distinct(order) && IsWalk(edges, p) && k < |p| && p[0] in order
    ensures p[k] in order && IndexOf(order, p[k]) + k <= IndexOf(order, p[0])
  {
    if k > 0 {
      WalkDescends(edges, order, p, k - 1);
      var i := IndexOf(order, p[k - 1]);
      assert DependenciesBefore(edges, order, i);
      assert p[k] in order[..i];
    }
  }

  lemma TopologicalIsAcyclic(edges: Edges, order: seq<string>)
    requires Topological(edges, order) && Distinct(order) && forall n :: n in edges ==> n in order
    ensures !HasCycle(edges)
  {
    if p :| IsCycle(edges, p) {
      WalkDescends(edges, order, p, |p| - 1);
    }
  }

  // ---- the walk -----------------------------------------------------------------------------------------------

  predicate IsDone(state: map<string, Mark>, n: string) {
    n in state && state[n] == Done
  }

  predicate IsOpen(state: map<string, Mark>, n: string) {
    n in state && state[n] == Visiting
  }

  /** The stack holds the packages being visited, along edges; the order holds the finished ones; each once. */
  ghost predicate Marked(edges: Edges, state: map<string, Mark>, order: seq<string>, stack: seq<string>) {
    && state.Keys <= edges.Keys
    && Distinct(order) && Distinct(stack) && IsWalk(edges, stack)
    && (forall n :: n in order <==> IsDone(state, n))
    && (forall n :: n in stack <==> IsOpen(state, n))
  }

  /** Every reported cycle is one, and without any the order so far is topological. */
  ghost predicate Reported(edges: Edges, order: seq<string>, problems: seq<Problem>) {
    && (forall k :: 0 <= k < |problems| && problems[k].Cycle? ==> IsCycle(edges, problems[k].path))
    && (ReportsNoCycle(problems) ==> Topological(edges, order))
  }

  /** What holds of the walk's variables before and after every visit. */
  ghost predicate ValidWalk(edges: Edges, state: map<string, Mark>, order: seq<string>, stack: seq<string>,
                            problems: seq<Problem>) {
    Closed(edges) && Marked(edges, state, order, stack) && Reported(edges, order, problems)
  }

  ghost predicate OnlyCyclesAdded(before: seq<Problem>, after: seq<Problem>) {
    before <= after && forall k :: |before| <= k < |after| ==> after[k].Cycle?
  }

  lemma MeetingTheStackIsACycle(edges: Edges, state: map<string, Mark>, order: seq<string>, stack: seq<string>,
                                problems: seq<Problem>, n: string)
    requires ValidWalk(edges, state, order, stack, problems) && n in stack && n in edges && n in edges[Last(stack)]
    ensures ValidWalk(edges, state, order, stack, problems + [Cycle(stack[IndexOf(stack, n)..] + [n])])
    ensures !ReportsNoCycle(problems + [Cycle(stack[IndexOf(stack, n)..] + [n])])
    ensures OnlyCyclesAdded(problems, problems + [Cycle(stack[IndexOf(stack, n)..] + [n])])
  {
    var cycle := stack[IndexOf(stack, n)..] + [n];
    assert IsCycle(edges, cycle);
    assert (problems + [Cycle(cycle)])[|problems|] == Cycle(cycle);
  }

  lemma Entering(edges: Edges, state: map<string, Mark>, order: seq<string>, stack: seq<string>, n: string)
    requires Marked(edges, state, order, stack)
    requires n in edges && n !in state && (stack != [] ==> n in edges[Last(stack)])
    ensures Marked(edges, state[n := Visiting], order, stack + [n])
    ensures Progressed(state, state[n := Visiting])
  {
    DistinctAppend(stack, n);
    assert forall m :: IsDone(state[n := Visiting], m) <==> IsDone(state, m);
    assert forall m :: IsOpen(state[n := Visiting], m) <==> IsOpen(state, m) || m == n;
  }

  lemma PopMarked(edges: Edges, state: map<string, Mark>, order: seq<string>, stack: seq<string>, n: string)
    requires Marked(edges, state, order, stack + [n])
    ensures Marked(edges, state[n := Done], order + [n], stack)
  {
    var whole := stack + [n];
    assert whole[|stack|] == n && forall i :: 0 <= i < |stack| ==> stack[i] == whole[i] != n;
    assert IsOpen(state, n) && n !in order;
    assert IsWalk(edges, stack) && Distinct(stack);
    DistinctAppend(order, n);
    forall m
      ensures m in stack <==> IsOpen(state[n := Done], m)
    {
      assert m in whole <==> m in stack || m == n;
    }
    assert forall m :: IsDone(state[n := Done], m) <==> IsDone(state, m) || m == n;
  }

  /** Ending the visit of `n`, on top of the stack, once everything it depends on is done. */
  lemma Leaving(edges: Edges, state: map<string, Mark>, order: seq<string>, stack: seq<string>, problems: seq<Problem>,
                n: string)
    requires ValidWalk(edges, state, order, stack + [n], problems) && n in edges
    requires ReportsNoCycle(problems) ==> AllDone(state, edges[n], |edges[n]|)
    ensures ValidWalk(edges, state[n := Done], order + [n], stack, problems)
    ensures Progressed(state, state[n := Done]) && IsDone(state[n := Done], n)
  {
    PopMarked(edges, state, order, stack, n);
    AppendTopological(edges, state, order, problems, n);
  }

  lemma AppendTopological(edges: Edges, state: map<string, Mark>, order: seq<string>, problems: seq<Problem>, n: string)
    requires Reported(edges, order, problems) && n in edges && forall m :: m in order <==> IsDone(state, m)
    requires ReportsNoCycle(problems) ==> AllDone(state, edges[n], |edges[n]|)
    ensures Reported(edges, order + [n], problems)
  {
    if ReportsNoCycle(problems) {
      var o := order + [n];
      assert o[..|order|] == order;
      forall i | 0 <= i < |o|
        ensures DependenciesBefore(edges, o, i)
      {
        if i < |order| {
          assert DependenciesBefore(edges, order, i);
          assert o[..i] == order[..i];
        } else {
          assert forall d :: d in edges[n] ==> IsDone(state, d);
        }
      }
    }
  }

  ghost predicate AllDone(state: map<string, Mark>, ds: seq<string>, k: nat) {
    forall j :: 0 <= j < k && j < |ds| ==> IsDone(state, ds[j])
  }

  /** What was marked stays marked, and what was done stays done. */
  ghost predicate Progressed(a: map<string, Mark>, b: map<string, Mark>) {
    a.Keys <= b.Keys && forall n :: IsDone(a, n) ==> IsDone(b, n)
  }

  /** The variables the recursive `visit` closure shares with its callers. */
  class Walk {
    const edges: Edges
    var state: map<string, Mark>
    var order: seq<string>
    var stack: seq<string>
    var problems: seq<Problem>

    ghost predicate Valid()
      reads this
    {
      ValidWalk(edges, state, order, stack, problems)
    }

    constructor (edges: Edges, problems: seq<Problem>)
      requires Closed(edges) && ReportsNoCycle(problems)
      ensures Valid() && this.edges == edges && this.problems == problems
      ensures order == [] && stack == []
    {
      this.edges := edges;
      this.problems := problems;
      state, order, stack := map[], [], [];
    }

    /** Visits `n` and everything below it: the stack is as before, and without a cycle `n` is done. */
    method Visit(n: string)
      requires Valid() && n in edges && (stack != [] ==> n in edges[Last(stack)])
      modifies this
      ensures Valid() && stack == old(stack)
      ensures Progressed(old(state), state) && OnlyCyclesAdded(old(problems), problems)
      ensures ReportsNoCycle(problems) || stack == [] ==> IsDone(state, n)
      decreases edges.Keys - state.Keys, 0
    {
      if IsDone(state, n) { return; }
      if IsOpen(state, n) {
        MeetingTheStackIsACycle(edges, state, order, stack, problems, n);
        problems := problems + [Cycle(stack[IndexOf(stack, n)..] + [n])];
        return;
      }
      Enter(n);
      VisitDependencies(n);
      Leave(n);
    }

    method Leave(n: string)
      requires Valid() && stack != [] && Last(stack) == n
      requires ReportsNoCycle(problems) ==> AllDone(state, edges[n], |edges[n]|)
      modifies this`stack, this`state, this`order
      ensures Valid() && stack == old(stack)[..|old(stack)| - 1]
      ensures state == old(state)[n := Done] && order == old(order) + [n]
      ensures Progressed(old(state), state)
    {
      assert stack == stack[..|stack| - 1] + [n];
      Leaving(edges, state, order, stack[..|stack| - 1], problems, n);
      stack := stack[..|stack| - 1];
      state := state[n := Done];
      order := order + [n];
    }

    method Enter(n: string)
      requires Valid() && n in edges && n !in state && (stack != [] ==> n in edges[Last(stack)])
      modifies this`stack, this`state
      ensures Valid() && stack == old(stack) + [n] && state == old(state)[n := Visiting]
      ensures Progressed(old(state), state)
    {
      Entering(edges, state, order, stack, n);
      state := state[n := Visiting];
      stack := stack + [n];
    }

    /** The loop of a visit over the dependencies of `n`, the package on top of the stack. */
    method VisitDependencies(n: string)
      requires Valid() && stack != [] && Last(stack) == n && n in edges
      modifies this
      ensures Valid() && stack == old(stack)
      ensures Progressed(old(state), state) && OnlyCyclesAdded(old(problems), problems)
      ensures ReportsNoCycle(problems) ==> AllDone(state, edges[n], |edges[n]|)
      decreases edges.Keys - state.Keys, 1
    {
      for i := 0 to |edges[n]|
        invariant Valid() && stack == old(stack)
        invariant Progressed(old(state), state) && OnlyCyclesAdded(old(problems), problems)
        invariant ReportsNoCycle(problems) ==> AllDone(state, edges[n], i)
      {
        label before:
        Visit(edges[n][i]);
        StillOnlyCycles(old(problems), old@before(problems), problems);
      }
    }
  }

  lemma StillOnlyCycles(a: seq<Problem>, b: seq<Problem>, c: seq<Problem>)
    requires OnlyCyclesAdded(a, b) && OnlyCyclesAdded(b, c)
    ensures OnlyCyclesAdded(a, c)
    ensures ReportsNoCycle(c) ==> ReportsNoCycle(b)
  {
    assert forall k :: 0 <= k < |b| ==> b[k] == c[k];
  }

  // ---- the manifests ------------------------------------------------------------------------------------------

  function Names(ms: seq<Manifest>): set<string> {
    set m | m in ms :: m.name
  }

  /** Of several manifests with one name, the last is the one looked up. */
  function Named(ms: seq<Manifest>, n: string): (m: Manifest)
    requires n in Names(ms)
    ensures m in ms && m.name == n
  {
    var k := |ms| - 1;
    if ms[k].name == n then ms[k]
    else
      assert n in Names(ms[..k]);
      Named(ms[..k], n)
  }

  lemma {:induction false} NamedIsLast(ms: seq<Manifest>, n: string) returns (k: nat)
    requires n in Names(ms)
    ensures k < |ms| && ms[k] == Named(ms, n) && ms[k].name == n
    ensures forall j :: k < j < |ms| ==> ms[j].name != n
  {
    k := |ms| - 1;
    if ms[k].name != n {
      assert n in Names(ms[..k]);
      k := NamedIsLast(ms[..k], n);
    }
  }

  ghost predicate Lists(m: Manifest, d: string) {
    exists i :: 0 <= i < |m.deps| && m.deps[i].0 == d
  }

  /** The dependency relation the check is about: `a`'s manifest lists the workspace package `b`. */
  ghost predicate DependsOn(ms: seq<Manifest>, a: string, b: string) {
    a in Names(ms) && b in Names(ms) && Lists(Named(ms, a), b)
  }

  ghost predicate GraphOf(ms: seq<Manifest>, edges: Edges) {
    && edges.Keys == Names(ms)
    && forall a, b :: a in edges ==> (b in edges[a] <==> DependsOn(ms, a, b))
  }

  predicate ProtocolOk(spec: string) {
    "workspace:" <= spec
  }

  predicate LayerOk(from: Manifest, to: Manifest) {
    !("packages" <= from.dir && "apps" <= to.dir)
  }

  /** Every dependency on a workspace package uses the `workspace:` protocol, and no package depends on an app. */
  ghost predicate ListedProperly(ms: seq<Manifest>, m: Manifest) {
    forall i :: 0 <= i < |m.deps| && m.deps[i].0 in Names(ms) ==>
      "workspace:" <= m.deps[i].1 && !("packages" <= m.dir && "apps" <= Named(ms, m.deps[i].0).dir)
  }

  /** What is wrong with how a manifest lists workspace packages. */
  ghost predicate WronglyLists(ms: seq<Manifest>, m: Manifest, p: Problem) {
    WrongBefore(ms, m, |m.deps|, p)
  }

  ghost predicate WrongBefore(ms: seq<Manifest>, m: Manifest, n: nat, p: Problem) {
    exists i :: && 0 <= i < n && i < |m.deps| && m.deps[i].0 in Names(ms)
                && WrongAt(ms, m, m.deps[i].0, m.deps[i].1, p)
  }

  ghost predicate WrongAt(ms: seq<Manifest>, m: Manifest, dep: string, spec: string, p: Problem)
    requires dep in Names(ms)
  {
    || (!("workspace:" <= spec) && p == NotWorkspaceProtocol(m.name, dep, spec))
    || ("packages" <= m.dir && "apps" <= Named(ms, dep).dir && p == PackageDependsOnApp(m.name, dep))
  }

  predicate StringBefore(a: string, b: string) {
    if b == [] then false
    else if a == [] then true
    else if a[0] != b[0] then a[0] < b[0]
    else StringBefore(a[1..], b[1..])
  }

  /** What is wrong with one dependency on a workspace package. */
  method ReadDependency(ms: seq<Manifest>, m: Manifest, dep: string, spec: string) returns (problems: seq<Problem>)
    requires dep in Names(ms)
    ensures ReportsNoCycle(problems)
    ensures problems == [] <==> ProtocolOk(spec) && LayerOk(m, Named(ms, dep))
    ensures forall p :: p in problems <==> WrongAt(ms, m, dep, spec, p)
  {
    problems := [];
    if !ProtocolOk(spec) { problems := problems + [NotWorkspaceProtocol(m.name, dep, spec)]; }
    if !LayerOk(m, Named(ms, dep)) { problems := problems + [PackageDependsOnApp(m.name, dep)]; }
  }

  lemma WrongOneMore(ms: seq<Manifest>, m: Manifest, n: nat)
    requires n < |m.deps|
    ensures forall p :: WrongBefore(ms, m, n + 1, p) <==>
              WrongBefore(ms, m, n, p) || (m.deps[n].0 in Names(ms) && WrongAt(ms, m, m.deps[n].0, m.deps[n].1, p))
  {
    hide WrongAt, Names;
  }

  lemma NoneWrong(ms: seq<Manifest>, m: Manifest)
    ensures ListedProperly(ms, m) <==> forall p :: !WronglyLists(ms, m, p)
  {
    hide Names, WrongAt;
    forall i | 0 <= i < |m.deps| && m.deps[i].0 in Names(ms)
      ensures "workspace:" <= m.deps[i].1 && !("packages" <= m.dir && "apps" <= Named(ms, m.deps[i].0).dir)
         <==> forall p :: !WrongAt(ms, m, m.deps[i].0, m.deps[i].1, p)
    {
      WrongIffImproper(ms, m, m.deps[i].0, m.deps[i].1);
    }
    if forall p :: !WronglyLists(ms, m, p) {
      forall i, p | 0 <= i < |m.deps| && m.deps[i].0 in Names(ms)
        ensures !WrongAt(ms, m, m.deps[i].0, m.deps[i].1, p)
      {
        assert !WronglyLists(ms, m, p);
      }
    }
  }

  lemma WrongIffImproper(ms: seq<Manifest>, m: Manifest, dep: string, spec: string)
    requires dep in Names(ms)
    ensures "workspace:" <= spec && !("packages" <= m.dir && "apps" <= Named(ms, dep).dir)
       <==> forall p :: !WrongAt(ms, m, dep, spec, p)
  {
    if !("workspace:" <= spec) { assert WrongAt(ms, m, dep, spec, NotWorkspaceProtocol(m.name, dep, spec)); }
    if "packages" <= m.dir && "apps" <= Named(ms, dep).dir {
      assert WrongAt(ms, m, dep, spec, PackageDependsOnApp(m.name, dep));
    }
  }

  /** The edges and problems of one manifest. */
  method ReadManifest(ms: seq<Manifest>, m: Manifest) returns (out: seq<string>, problems: seq<Problem>)
    ensures AreEdges(ms, m, out)
    ensures ReportsNoCycle(problems)
    ensures problems == [] <==> ListedProperly(ms, m)
    ensures forall p :: p in problems <==> WronglyLists(ms, m, p)
  {
    hide WrongAt, WrongBefore, ProtocolOk, LayerOk, Named, Names, ListedProperly, Sort, StringBefore;
    out, problems := [], [];
    NoneWrong(ms, m);
    assert forall p :: !WrongBefore(ms, m, 0, p) by { NothingWrongYet(ms, m); }
    for i := 0 to |m.deps|
      invariant forall b :: b in out <==> b in Names(ms) && exists j :: 0 <= j < i && m.deps[j].0 == b
      invariant ReportsNoCycle(problems)
      invariant forall p :: p in problems <==> WrongBefore(ms, m, i, p)
    {
      var (dep, spec) := m.deps[i];
      WrongOneMore(ms, m, i);
      if dep in Names(ms) {
        var more := ReadDependency(ms, m, dep, spec);
        problems := problems + more;
        out := out + [dep];
      }
    }
    assert forall p :: p in problems <==> WronglyLists(ms, m, p);
    if problems != [] { assert WronglyLists(ms, m, problems[0]); }
    SortKeeps(StringBefore, out);
    out := Sort(StringBefore, out);
  }

  lemma NothingWrongYet(ms: seq<Manifest>, m: Manifest)
    ensures forall p :: !WrongBefore(ms, m, 0, p)
  {
  }

  /** The first half of the check: the edges between workspace packages, and what is wrong with how they are listed. */
  method ReadGraph(ms: seq<Manifest>) returns (edges: Edges, keys: seq<string>, problems: seq<Problem>)
    ensures GraphOf(ms, edges) && Closed(edges)
    ensures Distinct(keys) && forall n :: n in keys <==> n in Names(ms)
    ensures ReportsNoCycle(problems)
    ensures problems == [] <==> forall m :: m in ms ==> ListedProperly(ms, m)
    ensures forall p :: p in problems <==> exists m :: m in ms && WronglyLists(ms, m, p)
  {
    hide GraphSoFar, ListedProperly, AreEdges, WronglyLists;
    edges, keys, problems := map[], [], [];
    GraphStarts(ms);
    for i := 0 to |ms|
      invariant Distinct(keys) && forall n :: n in keys <==> n in edges
      invariant GraphSoFar(ms, i, edges)
      invariant ReportsNoCycle(problems)
      invariant problems == [] <==> forall j :: 0 <= j < i ==> ListedProperly(ms, ms[j])
      invariant forall p :: p in problems <==> exists j :: 0 <= j < i && WronglyLists(ms, ms[j], p)
    {
      var out, more := ReadManifest(ms, ms[i]);
      problems := problems + more;
      if ms[i].name !in edges { keys := keys + [ms[i].name]; }
      GraphGrows(ms, i, edges, out);
      edges := edges[ms[i].name := out];
    }
    GraphDone(ms, edges);
  }

  /** The second half: a walk from every package. */
  method WalkGraph(edges: Edges, roots: seq<string>, listed: seq<Problem>)
      returns (problems: seq<Problem>, order: seq<string>)
    requires Closed(edges) && ReportsNoCycle(listed) && forall n :: n in roots <==> n in edges
    ensures Distinct(order) && forall n :: n in order <==> n in edges
    ensures forall p :: p in problems && p.Cycle? ==> IsCycle(edges, p.path)
    ensures OnlyCyclesAdded(listed, problems)
    ensures ReportsNoCycle(problems) <==> !HasCycle(edges)
    ensures !HasCycle(edges) ==> Topological(edges, order)
  {
    var w := new Walk(edges, listed);
    for i := 0 to |roots|
      invariant w.Valid() && w.stack == []
      invariant AllDone(w.state, roots, i)
      invariant OnlyCyclesAdded(listed, w.problems)
    {
      ghost var before := w.problems;
      w.Visit(roots[i]);
      StillOnlyCycles(listed, before, w.problems);
    }
    problems, order := w.problems, w.order;
    forall n | n in edges
      ensures n in order
    {
      var j :| 0 <= j < |roots| && roots[j] == n;
    }
    if ReportsNoCycle(problems) {
      TopologicalIsAcyclic(edges, order);
    } else {
      var p :| p in problems && p.Cycle?;
      assert IsCycle(edges, p.path);
    }
  }

  lemma KeysAreNames(ms: seq<Manifest>, edges: Edges)
    requires GraphOf(ms, edges)
    ensures edges.Keys == Names(ms)
  {
  }

  lemma CyclesApart(before: seq<Problem>, after: seq<Problem>)
    requires OnlyCyclesAdded(before, after) && ReportsNoCycle(before)
    ensures forall p: Problem :: !p.Cycle? ==> (p in after <==> p in before)
  {
    forall p: Problem | !p.Cycle? && p in after
      ensures p in before
    {
      var k :| 0 <= k < |after| && after[k] == p;
      assert k < |before| && before[k] == p;
    }
    forall p | p in before
      ensures p in after
    {
      var k :| 0 <= k < |before| && before[k] == p;
      assert after[k] == p;
    }
  }

  method CheckGraph(ms: seq<Manifest>) returns (problems: seq<Problem>, order: seq<string>, ghost edges: Edges)
    ensures GraphOf(ms, edges)
    // Every package is visited to the end exactly once.
    ensures Distinct(order) && forall n :: n in order <==> n in Names(ms)
    // Cycles are reported exactly when there are any, and each reported cycle is one.
    ensures forall p :: p in problems && p.Cycle? ==> IsCycle(edges, p.path)
    ensures ReportsNoCycle(problems) <==> !HasCycle(edges)
    // Without cycles every dependency precedes its dependant.
    ensures !HasCycle(edges) ==> Topological(edges, order)
    ensures problems == [] <==> !HasCycle(edges) && forall m :: m in ms ==> ListedProperly(ms, m)
    // Everything that is wrongly listed is reported, and nothing else but cycles.
    ensures forall p: Problem :: !p.Cycle? ==> (p in problems <==> exists m :: m in ms && WronglyLists(ms, m, p))
  {
    hide WronglyLists, ListedProperly, GraphOf, IsCycle, Topological;
    var graph, keys, listed := ReadGraph(ms);
    edges := graph;
    KeysAreNames(ms, edges);
    SortKeeps(StringBefore, keys);
    problems, order := WalkGraph(graph, Sort(StringBefore, keys), listed);
    CyclesApart(listed, problems);
    assert !HasCycle(edges) ==> problems == listed by {
      if |problems| > |listed| { assert problems[|listed|].Cycle?; }
    }
  }

  /** The edges read from the first `i` manifests. */
  ghost predicate GraphSoFar(ms: seq<Manifest>, i: nat, edges: Edges)
    requires i <= |ms|
  {
    && edges.Keys == Names(ms[..i])
    && forall a :: a in edges ==> AreEdges(ms, Named(ms[..i], a), edges[a])
  }

  /** The workspace packages that a manifest lists. */
  ghost predicate AreEdges(ms: seq<Manifest>, m: Manifest, out: seq<string>) {
    forall b :: b in out <==> b in Names(ms) && Lists(m, b)
  }

  lemma NamesGrow(ms: seq<Manifest>, i: nat)
    requires i < |ms|
    ensures Names(ms[..i + 1]) == Names(ms[..i]) + {ms[i].name}
  {
    var now := ms[..i + 1];
    assert now == ms[..i] + [ms[i]];
    assert ms[i] in now;
  }

  lemma NamedGrows(ms: seq<Manifest>, i: nat, n: string)
    requires i < |ms| && n in Names(ms[..i + 1])
    ensures n != ms[i].name ==> n in Names(ms[..i])
    ensures Named(ms[..i + 1], n) == if n == ms[i].name then ms[i] else Named(ms[..i], n)
  {
    NamesGrow(ms, i);
    assert ms[..i + 1][..i] == ms[..i] && ms[..i + 1][i] == ms[i];
  }

  lemma {:induction false} GraphGrows(ms: seq<Manifest>, i: nat, edges: Edges, out: seq<string>)
    requires i < |ms| && GraphSoFar(ms, i, edges) && AreEdges(ms, ms[i], out)
    ensures GraphSoFar(ms, i + 1, edges[ms[i].name := out])
  {
    hide AreEdges, Named;
    NamesGrow(ms, i);
    var grown := edges[ms[i].name := out];
    assert grown.Keys == Names(ms[..i + 1]);
    forall a | a in grown
      ensures AreEdges(ms, Named(ms[..i + 1], a), grown[a])
    {
      NamedGrows(ms, i, a);
    }
  }

  lemma GraphStarts(ms: seq<Manifest>)
    ensures GraphSoFar(ms, 0, map[])
  {
  }

  lemma GraphDone(ms: seq<Manifest>, edges: Edges)
    requires GraphSoFar(ms, |ms|, edges)
    ensures GraphOf(ms, edges) && Closed(edges) && edges.Keys == Names(ms)
  {
    assert ms[..|ms|] == ms;
    forall a, b | a in edges
      ensures b in edges[a] <==> DependsOn(ms, a, b)
    {
      assert AreEdges(ms, Named(ms, a), edges[a]);
    }
  }
}
