/**
 The ESM module graph (runtime/src/modules/graph.rs): a depth-first post-order over import
 edges that may form cycles and may lead to, or through, modules that have no record.
 A module is identified with its path.
 */
module Modules {
  import opened Prelude

  type Key = string

  datatype ModuleRecord = ModuleRecord(resolvedPath: Key, source: string)

  datatype Graph = Graph(nodes: map<Key, ModuleRecord>, edges: map<Key, seq<Key>>) {
    /** Every record is filed under its own path and has an entry in the edge table. */
    ghost predicate Valid() {
      forall k :: k in nodes ==> k in edges && nodes[k].resolvedPath == k
    }

    ghost predicate Edge(u: Key, v: Key) {
      u in edges && v in edges[u]
    }
  }

  // ---------- Paths ----------

  ghost predicate IsPath(g: Graph, p: seq<Key>) {
    |p| > 0 && forall i :: 0 <= i < |p| - 1 ==> g.Edge(p[i], p[i + 1])
  }

  ghost predicate PathFromTo(g: Graph, p: seq<Key>, u: Key, v: Key) {
    IsPath(g, p) && p[0] == u && p[|p| - 1] == v
  }

  /** There is a path of at least one edge from `u` to `v`. */
  ghost predicate Leads(g: Graph, u: Key, v: Key) {
    exists p :: |p| >= 2 && PathFromTo(g, p, u, v)
  }

  ghost predicate Reaches(g: Graph, u: Key, v: Key) {
    u == v || Leads(g, u, v)
  }

  ghost predicate OnCycle(g: Graph, u: Key) {
    Leads(g, u, u)
  }

  lemma EdgeLeads(g: Graph, u: Key, v: Key)
    requires g.Edge(u, v)
    ensures Leads(g, u, v)
  {
    assert PathFromTo(g, [u, v], u, v);
  }

  lemma LeadsTransitive(g: Graph, u: Key, v: Key, w: Key)
    requires Reaches(g, u, v) && Reaches(g, v, w)
    ensures Reaches(g, u, w)
    ensures Leads(g, u, v) || Leads(g, v, w) ==> Leads(g, u, w)
  {
    if Leads(g, u, v) && Leads(g, v, w) {
      var p :| |p| >= 2 && PathFromTo(g, p, u, v);
      var q :| |q| >= 2 && PathFromTo(g, q, v, w);
      var r := p + q[1..];
      forall i | 0 <= i < |r| - 1 ensures g.Edge(r[i], r[i + 1]) {
        if i >= |p| - 1 {
          assert r[i] == q[i - (|p| - 1)] && r[i + 1] == q[i + 1 - (|p| - 1)];
        }
      }
      assert PathFromTo(g, r, u, w);
    }
  }

  // ---------- The traversal, as a function ----------

  /**
   The state of a traversal. `finished` lists every key whose visit has ended, recorded or
   not, in order; the program's `visited` is its set of elements, and its `order` the part
   that has records.
   */
  datatype Walk = Walk(finished: seq<Key>, inStack: set<Key>, cycles: seq<Key>) {
    function Visited(): set<Key> {
      set k | k in finished
    }
  }

  /** Keys with an edge list that are neither visited nor on the stack. */
  function Open(g: Graph, w: Walk): set<Key> {
    g.edges.Keys - w.inStack - w.Visited()
  }

  function Visit(g: Graph, key: Key, w: Walk): (w': Walk)
    ensures w'.inStack == w.inStack && w.finished <= w'.finished
    decreases Open(g, w), 0
  {
    if key in w.inStack then w.(cycles := w.cycles + [key])
    else if key in w.finished then w
    else
      var entered := w.(inStack := w.inStack + {key});
      var w1 := if key in g.edges then
                  assert key in Open(g, w) && key !in Open(g, entered);
                  assert Open(g, entered) < Open(g, w);
                  VisitAll(g, g.edges[key], entered)
                else entered;
      w1.(inStack := w1.inStack - {key}, finished := w1.finished + [key])
  }

  function VisitAll(g: Graph, deps: seq<Key>, w: Walk): (w': Walk)
    ensures w'.inStack == w.inStack && w.finished <= w'.finished
    decreases Open(g, w), |deps| + 1
  {
    if |deps| == 0 then w
    else
      var w1 := VisitAll(g, deps[..|deps| - 1], w);
      assert Open(g, w1) <= Open(g, w);
      Visit(g, deps[|deps| - 1], w1)
  }

  // ---------- What every visit keeps ----------

  /** Edges out of finished keys end in finished keys or on the stack. */
  ghost predicate ClosedUpToStack(g: Graph, w: Walk) {
    forall u, v :: u in w.finished && g.Edge(u, v) ==> v in w.finished || v in w.inStack
  }

  /**
   When position `i` was finished, an edge out of anything finished by then ended in something
   finished by then, or in a key that leads back to the one at `i`.
   */
  ghost predicate BackEdgesOnlyAt(g: Graph, finished: seq<Key>, i: nat)
    requires i < |finished|
  {
    forall u, v :: u in finished[..i + 1] && g.Edge(u, v) ==>
      v in finished[..i + 1] || Leads(g, v, finished[i])
  }

  ghost predicate BackEdgesOnly(g: Graph, finished: seq<Key>) {
    forall i :: 0 <= i < |finished| ==> BackEdgesOnlyAt(g, finished, i)
  }

  /** Every edge out of a finished key ends in one finished before it, or in a reported one. */
  ghost predicate BackEdgesReported(g: Graph, w: Walk) {
    forall i, v :: 0 <= i < |w.finished| && g.Edge(w.finished[i], v) ==>
      v in w.finished[..i] || v in w.cycles
  }

  ghost predicate Inv(g: Graph, w: Walk) {
    && NoDuplicates(w.finished)
    && (forall k :: k in w.finished ==> k !in w.inStack)
    && ClosedUpToStack(g, w)
    && BackEdgesOnly(g, w.finished)
    && BackEdgesReported(g, w)
    && (forall k :: k in w.cycles ==> OnCycle(g, k) && (k in w.finished || k in w.inStack))
  }

  /** Everything on the stack leads to `key`: the stack is the path taken so far. */
  ghost predicate StackLeadsTo(g: Graph, w: Walk, key: Key) {
    forall s :: s in w.inStack ==> Leads(g, s, key)
  }

  /** A key has been dealt with: finished, or found on the stack and reported. */
  ghost predicate Handled(w: Walk, key: Key) {
    key in w.finished || (key in w.inStack && key in w.cycles)
  }

  lemma HandledStays(w: Walk, w': Walk, key: Key)
    requires Handled(w, key)
    requires w.inStack == w'.inStack && w.finished <= w'.finished && w.cycles <= w'.cycles
    ensures Handled(w', key)
  {
  }

  lemma BackEdgesOnlySnoc(g: Graph, finished: seq<Key>, key: Key)
    requires BackEdgesOnly(g, finished)
    requires forall u, v :: u in finished + [key] && g.Edge(u, v) ==>
               v in finished + [key] || Leads(g, v, key)
    ensures BackEdgesOnly(g, finished + [key])
  {
    var all := finished + [key];
    forall i | 0 <= i < |all| ensures BackEdgesOnlyAt(g, all, i) {
      if i < |finished| {
        assert BackEdgesOnlyAt(g, finished, i) && all[..i + 1] == finished[..i + 1];
      } else {
        assert all[..i + 1] == all;
      }
    }
  }

  lemma BackEdgesReportedSnoc(g: Graph, w: Walk, w': Walk, key: Key)
    requires BackEdgesReported(g, w)
    requires w'.finished == w.finished + [key] && w'.cycles == w.cycles
    requires forall v :: g.Edge(key, v) ==> v in w.finished || v in w.cycles
    ensures BackEdgesReported(g, w')
  {
    forall i, v | 0 <= i < |w'.finished| && g.Edge(w'.finished[i], v)
      ensures v in w'.finished[..i] || v in w'.cycles
    {
      assert w'.finished[..i] == w.finished[..i];
    }
  }

  /** Leaving `key`: it moves from the stack to the end of the finished list. */
  lemma LeaveKeepsInv(g: Graph, key: Key, w: Walk)
    requires Inv(g, w) && key in w.inStack
    requires forall s :: s in w.inStack && s != key ==> Leads(g, s, key)
    requires forall v :: g.Edge(key, v) ==> Handled(w, v)
    ensures Inv(g, w.(inStack := w.inStack - {key}, finished := w.finished + [key]))
  {
    BackEdgesOnlySnoc(g, w.finished, key);
    BackEdgesReportedSnoc(g, w, w.(inStack := w.inStack - {key}, finished := w.finished + [key]), key);
  }

  lemma {:induction false} VisitKeepsInv(g: Graph, key: Key, w: Walk)
    requires Inv(g, w) && StackLeadsTo(g, w, key)
    ensures var w' := Visit(g, key, w);
      && Inv(g, w') && Handled(w', key) && w.cycles <= w'.cycles
      && (forall k :: k in w'.finished ==> k in w.finished || Reaches(g, key, k))
    decreases Open(g, w), 0
  {
    if key !in w.inStack && key !in w.finished && key in g.edges {
      var entered := w.(inStack := w.inStack + {key});
      var deps := g.edges[key];
      assert key in Open(g, w) && key !in Open(g, entered);
      assert Open(g, entered) < Open(g, w);
      forall s, d | s in entered.inStack && d in deps ensures Leads(g, s, d) {
        assert g.Edge(key, d);
        EdgeLeads(g, key, d);
        LeadsTransitive(g, s, key, d);
      }
      VisitAllKeepsInv(g, deps, entered);
      var w1 := VisitAll(g, deps, entered);
      LeaveKeepsInv(g, key, w1);
      forall k | k in w1.finished && k !in w.finished ensures Reaches(g, key, k) {
        var d :| d in deps && Reaches(g, d, k);
        assert g.Edge(key, d);
        EdgeLeads(g, key, d);
        LeadsTransitive(g, key, d, k);
      }
    } else if key !in w.inStack && key !in w.finished {
      LeaveKeepsInv(g, key, w.(inStack := w.inStack + {key}));
    }
  }

  lemma {:induction false} VisitAllKeepsInv(g: Graph, deps: seq<Key>, w: Walk)
    requires Inv(g, w) && forall d :: d in deps ==> StackLeadsTo(g, w, d)
    ensures var w' := VisitAll(g, deps, w);
      && Inv(g, w') && (forall d :: d in deps ==> Handled(w', d)) && w.cycles <= w'.cycles
      && (forall k :: k in w'.finished ==> k in w.finished || exists d :: d in deps && Reaches(g, d, k))
    decreases Open(g, w), |deps| + 1
  {
    if |deps| > 0 {
      var n := |deps| - 1;
      var w1 := VisitAll(g, deps[..n], w);
      VisitAllKeepsInv(g, deps[..n], w);
      assert Open(g, w1) <= Open(g, w);
      assert deps[n] in deps && StackLeadsTo(g, w, deps[n]);
      VisitKeepsInv(g, deps[n], w1);
      AllHandled(deps, w1, VisitAll(g, deps, w));
    }
  }

  lemma AllHandled(deps: seq<Key>, w: Walk, w': Walk)
    requires |deps| > 0 && (forall d :: d in deps[..|deps| - 1] ==> Handled(w, d))
    requires w.inStack == w'.inStack && w.finished <= w'.finished && w.cycles <= w'.cycles
    requires Handled(w', deps[|deps| - 1])
    ensures forall d :: d in deps ==> Handled(w', d)
  {
    forall d | d in deps ensures Handled(w', d) {
      if d in deps[..|deps| - 1] {
        HandledStays(w, w', d);
      }
    }
  }

  // ---------- The evaluation order ----------

  const EMPTY_WALK := Walk([], {}, [])

  function WalkFrom(g: Graph, entry: Key): Walk {
    Visit(g, entry, EMPTY_WALK)
  }

  /** The keys of `s` that have a record, in the same order. */
  function Recorded(g: Graph, s: seq<Key>): seq<Key> {
    if |s| == 0 then []
    else
      var n := |s| - 1;
      if s[n] in g.nodes then Recorded(g, s[..n]) + [s[n]] else Recorded(g, s[..n])
  }

  function OrderFrom(g: Graph, entry: Key): seq<Key> {
    Recorded(g, WalkFrom(g, entry).finished)
  }

  lemma {:induction false} RecordedElements(g: Graph, s: seq<Key>)
    ensures forall k :: k in Recorded(g, s) <==> k in s && k in g.nodes
    ensures NoDuplicates(s) ==> NoDuplicates(Recorded(g, s))
  {
    if |s| > 0 {
      var n := |s| - 1;
      RecordedElements(g, s[..n]);
      assert s == s[..n] + [s[n]];
      if NoDuplicates(s) {
        assert NoDuplicates(s[..n]);
        assert s[n] !in s[..n];
      }
    }
  }

  lemma {:induction false} RecordedAppend(g: Graph, a: seq<Key>, b: seq<Key>)
    ensures Recorded(g, a + b) == Recorded(g, a) + Recorded(g, b)
  {
    if |b| == 0 {
      assert a + b == a;
    } else {
      RecordedAppend(g, a, b[..|b| - 1]);
      assert (a + b)[..|a + b| - 1] == a + b[..|b| - 1];
    }
  }

  /** Finished earlier is listed earlier. */
  lemma RecordedPrecedes(g: Graph, s: seq<Key>, i: nat, v: Key)
    requires i < |s| && v in s[..i] && v in g.nodes && s[i] in g.nodes
    ensures Precedes(Recorded(g, s), v, s[i])
  {
    RecordedElements(g, s[..i]);
    var a := Recorded(g, s[..i]);
    var x :| 0 <= x < |a| && a[x] == v;
    assert s == s[..i + 1] + s[i + 1..] && s[..i + 1][..i] == s[..i];
    RecordedAppend(g, s[..i + 1], s[i + 1..]);
    assert Recorded(g, s[..i + 1]) == a + [s[i]];
    var all := Recorded(g, s);
    assert all[x] == v && all[|a|] == s[i];
  }

  lemma WalkFromKeepsInv(g: Graph, entry: Key)
    ensures Inv(g, WalkFrom(g, entry)) && WalkFrom(g, entry).inStack == {}
    ensures entry in WalkFrom(g, entry).finished
    ensures forall k :: k in WalkFrom(g, entry).finished ==> Reaches(g, entry, k)
  {
    VisitKeepsInv(g, entry, EMPTY_WALK);
  }

  /** With an empty stack, paths never leave the finished keys. */
  lemma {:induction false} PathStaysFinished(g: Graph, w: Walk, p: seq<Key>, i: nat)
    requires ClosedUpToStack(g, w) && w.inStack == {}
    requires IsPath(g, p) && p[0] in w.finished && i < |p|
    ensures p[i] in w.finished
  {
    if i > 0 {
      PathStaysFinished(g, w, p, i - 1);
      assert g.Edge(p[i - 1], p[i - 1 + 1]);
    }
  }

  lemma FinishedIffReachable(g: Graph, entry: Key, k: Key)
    ensures k in WalkFrom(g, entry).finished <==> Reaches(g, entry, k)
  {
    WalkFromKeepsInv(g, entry);
    if Leads(g, entry, k) {
      var p :| |p| >= 2 && PathFromTo(g, p, entry, k);
      PathStaysFinished(g, WalkFrom(g, entry), p, |p| - 1);
    }
  }

  /**
   The order lists exactly the recorded modules reachable from the entry, also those reached
   only through modules without a record, each once, with the entry last.
   */
  lemma OrderIsExact(g: Graph, entry: Key)
    requires entry in g.nodes
    ensures forall k :: k in OrderFrom(g, entry) <==> k in g.nodes && Reaches(g, entry, k)
    ensures NoDuplicates(OrderFrom(g, entry))
    ensures |OrderFrom(g, entry)| > 0 && OrderFrom(g, entry)[|OrderFrom(g, entry)| - 1] == entry
  {
    var w := WalkFrom(g, entry);
    WalkFromKeepsInv(g, entry);
    RecordedElements(g, w.finished);
    forall k ensures k in w.finished <==> Reaches(g, entry, k) {
      FinishedIffReachable(g, entry, k);
    }
  }

  /**
   Take a path from `u` none of whose later modules leads back to `u`. All of them are
   finished before `u`: an import can be out of order only inside a cycle.
   */
  lemma {:induction false} PathFinishesFirst(g: Graph, finished: seq<Key>, i: nat, p: seq<Key>, j: nat)
    requires BackEdgesOnly(g, finished) && i < |finished|
    requires IsPath(g, p) && p[0] == finished[i] && 0 < j < |p|
    requires forall l :: 0 < l <= j ==> !Reaches(g, p[l], p[0])
    ensures p[j] in finished[..i]
  {
    if j > 1 {
      PathFinishesFirst(g, finished, i, p, j - 1);
    }
    assert g.Edge(p[j - 1], p[j - 1 + 1]);
    StepFinishesFirst(g, finished, i, p[j - 1], p[j]);
  }

  lemma StepFinishesFirst(g: Graph, finished: seq<Key>, i: nat, u: Key, v: Key)
    requires BackEdgesOnly(g, finished) && i < |finished|
    requires (u in finished[..i] || u == finished[i]) && g.Edge(u, v) && !Reaches(g, v, finished[i])
    ensures v in finished[..i]
  {
    assert BackEdgesOnlyAt(g, finished, i);
    assert finished[..i + 1] == finished[..i] + [finished[i]];
  }

  lemma ImportsComeFirst(g: Graph, entry: Key, p: seq<Key>)
    requires entry in g.nodes && IsPath(g, p) && |p| > 1
    requires Reaches(g, entry, p[0]) && p[0] in g.nodes && p[|p| - 1] in g.nodes
    requires forall j :: 0 < j < |p| ==> !Reaches(g, p[j], p[0])
    ensures Precedes(OrderFrom(g, entry), p[|p| - 1], p[0])
  {
    var w := WalkFrom(g, entry);
    WalkFromKeepsInv(g, entry);
    FinishedIffReachable(g, entry, p[0]);
    var i :| 0 <= i < |w.finished| && w.finished[i] == p[0];
    PathFinishesFirst(g, w.finished, i, p, |p| - 1);
    RecordedPrecedes(g, w.finished, i, p[|p| - 1]);
  }

  /** For one import edge between recorded modules: unless `v` leads back to `u`, `v` comes first. */
  lemma ImportedModuleComesFirst(g: Graph, entry: Key, u: Key, v: Key)
    requires entry in g.nodes && u in g.nodes && v in g.nodes
    requires Reaches(g, entry, u) && g.Edge(u, v) && !Reaches(g, v, u)
    ensures Precedes(OrderFrom(g, entry), v, u)
  {
    ImportsComeFirst(g, entry, [u, v]);
  }

  // ---------- Strongly connected components ----------

  /** The two keys lead to each other, or are the same: they are in one component. */
  ghost predicate Mutual(g: Graph, u: Key, v: Key) {
    Reaches(g, u, v) && Reaches(g, v, u)
  }

  /** Position `i` is where the component of `u` is completed. */
  ghost predicate CompletesAt(g: Graph, finished: seq<Key>, u: Key, i: nat) {
    i < |finished| && Mutual(g, u, finished[i]) && forall m :: m in finished && Mutual(g, u, m) ==> m in finished[..i + 1]
  }

  lemma {:induction false} CompletionExists(g: Graph, finished: seq<Key>, u: Key)
    requires u in finished
    ensures exists i: nat :: CompletesAt(g, finished, u, i)
  {
    var n := |finished| - 1;
    assert finished == finished[..n] + [finished[n]] && finished[..n + 1] == finished;
    if Mutual(g, u, finished[n]) {
      assert CompletesAt(g, finished, u, n);
    } else {
      assert Mutual(g, u, u);
      CompletionExists(g, finished[..n], u);
      var i: nat :| CompletesAt(g, finished[..n], u, i);
      assert finished[..n][..i + 1] == finished[..i + 1];
      assert CompletesAt(g, finished, u, i);
    }
  }

  ghost predicate HoldsComponent(g: Graph, done: seq<Key>, u: Key) {
    forall m :: Mutual(g, u, m) ==> m in done
  }

  /** When a component is completed, everything a member leads to has been finished. */
  lemma {:induction false} PathDoneAtCompletion(g: Graph, finished: seq<Key>, i: nat, p: seq<Key>, j: nat)
    requires i < |finished| && BackEdgesOnlyAt(g, finished, i) && IsPath(g, p) && j < |p|
    requires HoldsComponent(g, finished[..i + 1], p[0]) && Mutual(g, p[0], finished[i])
    ensures p[j] in finished[..i + 1]
  {
    if j == 0 {
      assert Mutual(g, p[0], p[0]);
    } else {
      PathDoneAtCompletion(g, finished, i, p, j - 1);
      assert g.Edge(p[j - 1], p[j - 1 + 1]);
      if Leads(g, p[j], finished[i]) {
        PathReaches(g, p, j);
        LeadsTransitive(g, p[j], finished[i], p[0]);
        assert Mutual(g, p[0], p[j]);
      }
    }
  }

  lemma PathReaches(g: Graph, p: seq<Key>, j: nat)
    requires IsPath(g, p) && j < |p|
    ensures Reaches(g, p[0], p[j])
  {
    if j > 0 {
      assert PathFromTo(g, p[..j + 1], p[0], p[j]);
    }
  }

  lemma ComponentIsHeld(g: Graph, entry: Key, u: Key, i: nat)
    requires Reaches(g, entry, u) && CompletesAt(g, WalkFrom(g, entry).finished, u, i)
    ensures HoldsComponent(g, WalkFrom(g, entry).finished[..i + 1], u)
  {
    forall m | Mutual(g, u, m) ensures m in WalkFrom(g, entry).finished {
      LeadsTransitive(g, entry, u, m);
      FinishedIffReachable(g, entry, m);
    }
  }

  lemma PathEndsBefore(g: Graph, finished: seq<Key>, i: nat, u: Key, v: Key)
    requires i < |finished| && BackEdgesOnlyAt(g, finished, i)
    requires HoldsComponent(g, finished[..i + 1], u) && Mutual(g, u, finished[i])
    requires Leads(g, u, v) && v != finished[i]
    ensures v in finished[..i]
  {
    var p :| |p| >= 2 && PathFromTo(g, p, u, v);
    PathDoneAtCompletion(g, finished, i, p, |p| - 1);
    assert finished[..i + 1] == finished[..i] + [finished[i]];
  }

  lemma WalkHasBackEdgesOnly(g: Graph, entry: Key, i: nat)
    requires i < |WalkFrom(g, entry).finished|
    ensures BackEdgesOnlyAt(g, WalkFrom(g, entry).finished, i)
  {
    WalkFromKeepsInv(g, entry);
  }

  /**
   Components are finished in order: the module that completes a component comes after
   everything that any member of the component leads to, directly or not.
   */
  lemma ComponentsFinishInOrder(g: Graph, entry: Key, u: Key, i: nat, v: Key)
    requires Reaches(g, entry, u) && CompletesAt(g, WalkFrom(g, entry).finished, u, i)
    requires Leads(g, u, v) && v != WalkFrom(g, entry).finished[i]
    ensures v in WalkFrom(g, entry).finished[..i]
  {
    WalkHasBackEdgesOnly(g, entry, i);
    ComponentIsHeld(g, entry, u, i);
    PathEndsBefore(g, WalkFrom(g, entry).finished, i, u, v);
  }

  /** `m` comes in the order after every other recorded module that `u` leads to. */
  ghost predicate ComesLast(g: Graph, entry: Key, u: Key, m: Key) {
    forall v :: v in g.nodes && Leads(g, u, v) && v != m ==> Precedes(OrderFrom(g, entry), v, m)
  }

  /**
   In the order, every component has a module that comes after the rest of it and after all
   that the component imports, directly or not: across components the order is topological.
   */
  lemma ComponentsAreOrdered(g: Graph, entry: Key, u: Key)
    requires entry in g.nodes && Reaches(g, entry, u)
    requires forall m :: Mutual(g, u, m) ==> m in g.nodes
    ensures exists m :: Mutual(g, u, m) && ComesLast(g, entry, u, m)
  {
    var finished := WalkFrom(g, entry).finished;
    FinishedIffReachable(g, entry, u);
    CompletionExists(g, finished, u);
    var i: nat :| CompletesAt(g, finished, u, i);
    forall v | v in g.nodes && Leads(g, u, v) && v != finished[i]
      ensures Precedes(OrderFrom(g, entry), v, finished[i])
    {
      ComponentsFinishInOrder(g, entry, u, i, v);
      RecordedPrecedes(g, finished, i, v);
    }
    assert ComesLast(g, entry, u, finished[i]);
  }

  // ---------- Cycles ----------

  /** A path that meets no reported key after its start runs towards earlier finished keys. */
  lemma {:induction false} UnreportedPathRunsBack(g: Graph, w: Walk, i: nat, p: seq<Key>)
    requires BackEdgesReported(g, w) && i < |w.finished|
    requires IsPath(g, p) && p[0] == w.finished[i]
    requires forall j :: 0 < j < |p| ==> p[j] !in w.cycles
    ensures |p| > 1 ==> p[|p| - 1] in w.finished[..i]
    decreases |p|
  {
    if |p| > 1 {
      assert g.Edge(p[0], p[0 + 1]);
      var k :| 0 <= k < i && w.finished[k] == p[1];
      assert IsPath(g, p[1..]) by {
        forall j | 0 <= j < |p[1..]| - 1 ensures g.Edge(p[1..][j], p[1..][j + 1]) {
          assert g.Edge(p[j + 1], p[j + 1 + 1]);
        }
      }
      UnreportedPathRunsBack(g, w, k, p[1..]);
    }
  }

  /** Every directed cycle reachable from the entry goes through a reported key. */
  lemma EveryCycleIsReported(g: Graph, entry: Key, p: seq<Key>)
    requires |p| > 1 && PathFromTo(g, p, p[0], p[0]) && Reaches(g, entry, p[0])
    ensures exists j :: 0 <= j < |p| && p[j] in WalkFrom(g, entry).cycles
  {
    var w := WalkFrom(g, entry);
    WalkFromKeepsInv(g, entry);
    FinishedIffReachable(g, entry, p[0]);
    var i :| 0 <= i < |w.finished| && w.finished[i] == p[0];
    assert w.finished[i] !in w.finished[..i];
    if forall j :: 0 <= j < |p| ==> p[j] !in w.cycles {
      UnreportedPathRunsBack(g, w, i, p);
    }
  }

  /**
   Keys are reported only if they are reachable and lie on a cycle, and some key is reported
   exactly when a cycle is reachable from the entry.
   */
  lemma CyclesAreExact(g: Graph, entry: Key)
    ensures forall k :: k in WalkFrom(g, entry).cycles ==> OnCycle(g, k) && Reaches(g, entry, k)
    ensures WalkFrom(g, entry).cycles != [] <==> exists k :: Reaches(g, entry, k) && OnCycle(g, k)
  {
    var w := WalkFrom(g, entry);
    WalkFromKeepsInv(g, entry);
    if w.cycles != [] {
      assert w.cycles[0] in w.cycles;
    }
    if k :| Reaches(g, entry, k) && OnCycle(g, k) {
      var p :| |p| >= 2 && PathFromTo(g, p, k, k);
      EveryCycleIsReported(g, entry, p);
    }
  }

  /** Without reachable cycles every module comes after all it imports, directly or not. */
  lemma AcyclicOrderIsTopological(g: Graph, entry: Key, u: Key, v: Key)
    requires entry in g.nodes && u in g.nodes && v in g.nodes
    requires !exists k :: Reaches(g, entry, k) && OnCycle(g, k)
    requires Reaches(g, entry, u) && Leads(g, u, v)
    ensures Precedes(OrderFrom(g, entry), v, u)
  {
    var w := WalkFrom(g, entry);
    WalkFromKeepsInv(g, entry);
    CyclesAreExact(g, entry);
    FinishedIffReachable(g, entry, u);
    var i :| 0 <= i < |w.finished| && w.finished[i] == u;
    var p :| |p| >= 2 && PathFromTo(g, p, u, v);
    UnreportedPathRunsBack(g, w, i, p);
    RecordedPrecedes(g, w.finished, i, v);
  }

  // ---------- The program ----------

  datatype GraphError = ModuleNotFound(specifier: Key)

  /** The collections a traversal updates; `finished` is there for the proof only. */
  class Traversal {
    var visited: set<Key>
    var inStack: set<Key>
    var order: seq<Key>
    var cycles: seq<Key>
    ghost var finished: seq<Key>

    constructor ()
      ensures State() == EMPTY_WALK && visited == {} && order == []
    {
      visited, inStack, order, cycles := {}, {}, [], [];
      finished := [];
    }

    ghost function State(): Walk
      reads this
    {
      Walk(finished, inStack, cycles)
    }

    ghost predicate Valid(g: Graph)
      reads this
    {
      visited == State().Visited() && order == Recorded(g, finished)
    }
  }

  /** A key that has just finished: what is visited and listed then. */
  lemma FinishedOneMore(g: Graph, w: Walk, key: Key)
    ensures w.(finished := w.finished + [key]).Visited() == w.Visited() + {key}
    ensures Recorded(g, w.finished + [key]) == Recorded(g, w.finished) + if key in g.nodes then [key] else []
  {
    assert (w.finished + [key])[..|w.finished|] == w.finished;
  }

  class ModuleGraph {
    var nodes: map<Key, ModuleRecord>
    var edges: map<Key, seq<Key>>

    constructor ()
      ensures View() == Graph(map[], map[]) && View().Valid()
    {
      nodes, edges := map[], map[];
    }

    function View(): Graph
      reads this
    {
      Graph(nodes, edges)
    }

    /** Files a record; a module that was there before loses its edges. */
    method Insert(record: ModuleRecord)
      requires View().Valid()
      modifies this
      ensures View().Valid()
      ensures nodes == old(nodes)[record.resolvedPath := record]
      ensures edges == old(edges)[record.resolvedPath := []]
    {
      var key := record.resolvedPath;
      edges := edges[key := []];
      nodes := nodes[key := record];
    }

    /** Adds an edge after those the module has; neither end needs a record. */
    method AddEdge(from: Key, to: Key)
      requires View().Valid()
      modifies this
      ensures View().Valid()
      ensures nodes == old(nodes)
      ensures edges == old(edges)[from := (if from in old(edges) then old(edges)[from] else []) + [to]]
      ensures forall u, v :: View().Edge(u, v) <==> old(View()).Edge(u, v) || (u == from && v == to)
    {
      var sofar := if from in edges then edges[from] else [];
      edges := edges[from := sofar + [to]];
    }

    method DfsPostOrder(key: Key, t: Traversal)
      requires View().Valid() && t.Valid(View())
      modifies t
      ensures t.Valid(View())
      ensures t.State() == Visit(View(), key, old(t.State()))
      decreases Open(View(), t.State())
    {
      if key in t.inStack {
        t.cycles := t.cycles + [key];
        return;
      }
      if key in t.visited {
        return;
      }
      ghost var g := View();
      t.inStack := t.inStack + {key};
      ghost var entered := t.State();
      assert key in g.edges ==> key in Open(g, old(t.State())) && key !in Open(g, entered);
      if key in edges {
        var deps := edges[key];
        assert deps[..0] == [];
        for i := 0 to |deps|
          invariant t.Valid(g)
          invariant t.State() == VisitAll(g, deps[..i], entered)
        {
          assert Open(g, t.State()) <= Open(g, entered) < Open(g, old(t.State()));
          assert deps[..i + 1][..i] == deps[..i];
          DfsPostOrder(deps[i], t);
        }
        assert deps[..|deps|] == deps;
      }
      FinishedOneMore(g, t.State(), key);
      t.inStack := t.inStack - {key};
      t.visited := t.visited + {key};
      t.finished := t.finished + [key];
      if key in nodes {
        t.order := t.order + [nodes[key].resolvedPath];
      }
    }

    /** The evaluation order from an entry, and the keys at which cycles were met. */
    method EvalOrder(entry: Key) returns (r: Result<seq<Key>, GraphError>, cycles: seq<Key>)
      requires View().Valid()
      ensures entry !in nodes ==> r == Failure(ModuleNotFound(entry)) && cycles == []
      ensures entry in nodes ==>
        r == Success(OrderFrom(View(), entry)) && cycles == WalkFrom(View(), entry).cycles
    {
      if entry !in nodes {
        return Failure(ModuleNotFound(entry)), [];
      }
      var t := new Traversal();
      DfsPostOrder(entry, t);
      r, cycles := Success(t.order), t.cycles;
    }
  }
}
