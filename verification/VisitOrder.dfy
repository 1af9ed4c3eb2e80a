/**
 Which of two modules is evaluated first (runtime/src/modules/graph.rs:81-107), read off the
 import lists alone. The order depends on how far each import reaches without going back to
 a module that is still being visited.
 */
module VisitOrder {
  import opened Prelude
  import opened Modules

  ghost predicate Avoids(p: seq<Key>, s: set<Key>) {
    forall i :: 0 <= i < |p| ==> p[i] !in s
  }

  /** There is a path from `u` to `x` that keeps out of `s`. */
  ghost predicate Via(g: Graph, s: set<Key>, u: Key, x: Key) {
    exists p :: PathFromTo(g, p, u, x) && Avoids(p, s)
  }

  /** The position of the first import from which `x` is reached outside `s`. */
  ghost function FirstVia(g: Graph, s: set<Key>, imports: seq<Key>, x: Key): (i: nat)
    ensures i <= |imports| && (i < |imports| ==> Via(g, s, imports[i], x))
    ensures forall k :: 0 <= k < i ==> !Via(g, s, imports[k], x)
  {
    if |imports| == 0 then 0
    else if Via(g, s, imports[0], x) then 0
    else 1 + FirstVia(g, s, imports[1..], x)
  }

  /**
   `x` is evaluated before `y` when visiting `imports` in turn, with `s` being visited: an
   earlier import reaches it, or the same import does, and then that import itself is last,
   and between the others its own imports decide, with it being visited too.
   */
  ghost predicate Before(g: Graph, s: set<Key>, imports: seq<Key>, x: Key, y: Key)
    decreases g.edges.Keys - s
  {
    var i, j := FirstVia(g, s, imports, x), FirstVia(g, s, imports, y);
    i < j || (i == j < |imports| && imports[i] != x && (imports[i] == y || BeforeInside(g, s, imports[i], x, y)))
  }

  ghost predicate BeforeInside(g: Graph, s: set<Key>, d: Key, x: Key, y: Key)
    decreases g.edges.Keys - s, 0
  {
    d in g.edges && d !in s &&
    (assert g.edges.Keys - (s + {d}) < g.edges.Keys - s by { assert d in g.edges.Keys - s && d !in g.edges.Keys - (s + {d}); }
     Before(g, s + {d}, g.edges[d], x, y))
  }

  // ---------- What a visit finds ----------

  lemma ViaItself(g: Graph, s: set<Key>, u: Key)
    requires u !in s
    ensures Via(g, s, u, u)
  {
    assert PathFromTo(g, [u], u, u) && Avoids([u], s);
  }

  lemma ViaImport(g: Graph, s: set<Key>, u: Key, d: Key, x: Key)
    requires u !in s && g.Edge(u, d) && Via(g, s + {u}, d, x)
    ensures Via(g, s, u, x)
  {
    var p :| PathFromTo(g, p, d, x) && Avoids(p, s + {u});
    var q := [u] + p;
    forall i | 0 <= i < |q| - 1 ensures g.Edge(q[i], q[i + 1]) {
      if i > 0 {
        assert g.Edge(p[i - 1], p[i - 1 + 1]);
      }
    }
    assert PathFromTo(g, q, u, x) && Avoids(q, s);
  }

  /** A path from `u` to another module leaves `u` for good through one of its imports. */
  lemma {:induction false} PathLeaves(g: Graph, s: set<Key>, p: seq<Key>, u: Key, x: Key)
    requires PathFromTo(g, p, u, x) && Avoids(p, s) && u != x
    ensures exists d :: g.Edge(u, d) && Via(g, s + {u}, d, x)
    decreases |p|
  {
    assert g.Edge(p[0], p[0 + 1]);
    if k :| 0 < k < |p| && p[k] == u {
      SuffixIsPath(g, p, k);
      PathLeaves(g, s, p[k..], u, x);
    } else {
      SuffixIsPath(g, p, 1);
      assert PathFromTo(g, p[1..], p[1], x) && Avoids(p[1..], s + {u});
    }
  }

  lemma SuffixIsPath(g: Graph, p: seq<Key>, k: nat)
    requires IsPath(g, p) && k < |p|
    ensures IsPath(g, p[k..])
  {
    forall i | 0 <= i < |p[k..]| - 1 ensures g.Edge(p[k..][i], p[k..][i + 1]) {
      assert g.Edge(p[k + i], p[k + i + 1]);
    }
  }

  lemma {:induction false} VisitFindsOnly(g: Graph, key: Key, w: Walk)
    ensures forall k :: k in Visit(g, key, w).finished ==> k in w.finished || Via(g, w.inStack, key, k)
    decreases Open(g, w), 0
  {
    if key !in w.inStack && key !in w.finished {
      ViaItself(g, w.inStack, key);
      if key in g.edges {
        var entered := w.(inStack := w.inStack + {key});
        assert key in Open(g, w) && key !in Open(g, entered);
        assert Open(g, entered) < Open(g, w);
        VisitAllFindsOnly(g, g.edges[key], entered);
        forall k | k in VisitAll(g, g.edges[key], entered).finished && k !in w.finished
          ensures Via(g, w.inStack, key, k)
        {
          var d :| d in g.edges[key] && Via(g, entered.inStack, d, k);
          ViaImport(g, w.inStack, key, d, k);
        }
      }
    }
  }

  lemma {:induction false} VisitAllFindsOnly(g: Graph, deps: seq<Key>, w: Walk)
    ensures forall k :: k in VisitAll(g, deps, w).finished ==>
      k in w.finished || exists d :: d in deps && Via(g, w.inStack, d, k)
    decreases Open(g, w), |deps| + 1
  {
    if |deps| > 0 {
      var n := |deps| - 1;
      var w1 := VisitAll(g, deps[..n], w);
      VisitAllFindsOnly(g, deps[..n], w);
      assert Open(g, w1) <= Open(g, w);
      VisitFindsOnly(g, deps[n], w1);
    }
  }

  lemma {:induction false} PathIsFinished(g: Graph, w: Walk, p: seq<Key>, j: nat)
    requires ClosedUpToStack(g, w) && IsPath(g, p) && Avoids(p, w.inStack)
    requires p[0] in w.finished && j < |p|
    ensures p[j] in w.finished
  {
    if j > 0 {
      PathIsFinished(g, w, p, j - 1);
      assert g.Edge(p[j - 1], p[j - 1 + 1]);
    }
  }

  lemma ViaIsFinished(g: Graph, w: Walk, u: Key, x: Key)
    requires ClosedUpToStack(g, w) && u in w.finished && Via(g, w.inStack, u, x)
    ensures x in w.finished
  {
    var p :| PathFromTo(g, p, u, x) && Avoids(p, w.inStack);
    PathIsFinished(g, w, p, |p| - 1);
  }

  lemma ViaStartsOutside(g: Graph, s: set<Key>, u: Key, x: Key)
    requires Via(g, s, u, x)
    ensures u !in s
  {
    var p :| PathFromTo(g, p, u, x) && Avoids(p, s);
    assert p[0] !in s;
  }

  /** Everything in `deps` may be visited next: the stack leads to it. */
  ghost predicate Ready(g: Graph, deps: seq<Key>, w: Walk) {
    Inv(g, w) && forall d :: d in deps ==> StackLeadsTo(g, w, d)
  }

  /** Visiting some imports in turn finishes exactly what they reach outside the stack. */
  lemma VisitAllFinds(g: Graph, deps: seq<Key>, w: Walk, x: Key)
    requires Ready(g, deps, w) && x !in w.finished
    ensures x in VisitAll(g, deps, w).finished <==> FirstVia(g, w.inStack, deps, x) < |deps|
  {
    var w', i := VisitAll(g, deps, w), FirstVia(g, w.inStack, deps, x);
    VisitAllKeepsInv(g, deps, w);
    VisitAllFindsOnly(g, deps, w);
    if i < |deps| {
      ViaStartsOutside(g, w.inStack, deps[i], x);
      assert Handled(w', deps[i]);
      ViaIsFinished(g, w', deps[i], x);
    }
  }

  lemma {:induction false} FinishedByPrefix(g: Graph, deps: seq<Key>, w: Walk, k: nat)
    requires k <= |deps|
    ensures VisitAll(g, deps[..k], w).finished <= VisitAll(g, deps, w).finished
    decreases |deps|
  {
    if k == |deps| {
      assert deps[..k] == deps;
    } else {
      var n := |deps| - 1;
      FinishedByPrefix(g, deps[..n], w, k);
      assert deps[..n][..k] == deps[..k];
    }
  }

  lemma FirstViaOfPrefix(g: Graph, s: set<Key>, deps: seq<Key>, k: nat, x: Key)
    requires k <= |deps|
    ensures FirstVia(g, s, deps[..k], x) == if FirstVia(g, s, deps, x) < k then FirstVia(g, s, deps, x) else k
  {
    var i, j := FirstVia(g, s, deps, x), FirstVia(g, s, deps[..k], x);
    assert i < k ==> deps[..k][i] == deps[i];
    assert j < k ==> deps[..k][j] == deps[j];
  }

  // ---------- The order of a visit ----------

  lemma PrefixPrecedes(a: seq<Key>, b: seq<Key>, x: Key, y: Key)
    requires a <= b && x in a && y !in a && y in b
    ensures Precedes(b, x, y)
  {
    var i :| 0 <= i < |a| && a[i] == x;
    var j :| 0 <= j < |b| && b[j] == y;
    assert b[i] == x;
    assert forall k :: 0 <= k < |a| ==> b[k] in a;
  }

  lemma PrecedesInPrefix(a: seq<Key>, b: seq<Key>, x: Key, y: Key)
    requires a <= b && Precedes(a, x, y)
    ensures Precedes(b, x, y)
  {
    var i, j :| 0 <= i < j < |a| && a[i] == x && a[j] == y;
    assert b[i] == x && b[j] == y;
  }

  lemma EarlierImportFirst(g: Graph, deps: seq<Key>, w: Walk, x: Key, y: Key)
    requires Ready(g, deps, w) && x !in w.finished && y !in w.finished
    requires FirstVia(g, w.inStack, deps, x) < FirstVia(g, w.inStack, deps, y) < |deps|
    ensures Precedes(VisitAll(g, deps, w).finished, x, y)
  {
    var k := FirstVia(g, w.inStack, deps, x) + 1;
    VisitAllFinds(g, deps, w, y);
    VisitAllFinds(g, deps[..k], w, x);
    VisitAllFinds(g, deps[..k], w, y);
    FirstViaOfPrefix(g, w.inStack, deps, k, x);
    FirstViaOfPrefix(g, w.inStack, deps, k, y);
    FinishedByPrefix(g, deps, w, k);
    PrefixPrecedes(VisitAll(g, deps[..k], w).finished, VisitAll(g, deps, w).finished, x, y);
  }

  lemma EntersReady(g: Graph, d: Key, w: Walk)
    requires Inv(g, w) && StackLeadsTo(g, w, d) && d !in w.inStack && d !in w.finished && d in g.edges
    ensures Ready(g, g.edges[d], w.(inStack := w.inStack + {d}))
    ensures Open(g, w.(inStack := w.inStack + {d})) < Open(g, w)
  {
    var entered := w.(inStack := w.inStack + {d});
    assert d in Open(g, w) && d !in Open(g, entered);
    forall s, e | s in entered.inStack && e in g.edges[d] ensures Leads(g, s, e) {
      assert g.Edge(d, e);
      EdgeLeads(g, d, e);
      LeadsTransitive(g, s, d, e);
    }
  }

  lemma ReachedThroughImports(g: Graph, s: set<Key>, d: Key, x: Key)
    requires Via(g, s, d, x) && d != x
    ensures d in g.edges && FirstVia(g, s + {d}, g.edges[d], x) < |g.edges[d]|
  {
    var p :| PathFromTo(g, p, d, x) && Avoids(p, s);
    PathLeaves(g, s, p, d, x);
  }

  /** Inside one visit, the visited module comes last and its imports decide between the others. */
  lemma {:induction false} VisitOrders(g: Graph, d: Key, w: Walk, x: Key, y: Key)
    requires Inv(g, w) && StackLeadsTo(g, w, d) && x !in w.finished && y !in w.finished && x != y
    requires Via(g, w.inStack, d, x) && Via(g, w.inStack, d, y)
    requires d != x && (d == y || BeforeInside(g, w.inStack, d, x, y))
    ensures Precedes(Visit(g, d, w).finished, x, y)
    decreases Open(g, w), 0
  {
    ViaStartsOutside(g, w.inStack, d, x);
    if d in w.finished {
      ViaIsFinished(g, w, d, x);
    }
    ReachedThroughImports(g, w.inStack, d, x);
    EntersReady(g, d, w);
    var entered := w.(inStack := w.inStack + {d});
    var inner := VisitAll(g, g.edges[d], entered).finished;
    if d == y {
      VisitAllFinds(g, g.edges[d], entered, x);
      var i :| 0 <= i < |inner| && inner[i] == x;
      assert (inner + [d])[i] == x && (inner + [d])[|inner|] == y;
    } else {
      ReachedThroughImports(g, w.inStack, d, y);
      VisitAllOrders(g, g.edges[d], entered, x, y);
      PrecedesInPrefix(inner, inner + [d], x, y);
    }
  }

  /** When it is import `i`'s turn, what the earlier ones do not reach is not finished. */
  lemma AtImport(g: Graph, deps: seq<Key>, w: Walk, i: nat, x: Key)
    requires Ready(g, deps, w) && x !in w.finished && i < |deps| && FirstVia(g, w.inStack, deps, x) == i
    ensures x !in VisitAll(g, deps[..i], w).finished
  {
    VisitAllFinds(g, deps[..i], w, x);
    FirstViaOfPrefix(g, w.inStack, deps, i, x);
  }

  lemma SameStack(g: Graph, w: Walk, w': Walk, d: Key)
    requires StackLeadsTo(g, w, d) && w.inStack == w'.inStack && w.finished <= w'.finished
    ensures StackLeadsTo(g, w', d) && Open(g, w') <= Open(g, w)
  {
  }

  lemma UpToImport(g: Graph, deps: seq<Key>, w: Walk, i: nat)
    requires Ready(g, deps, w) && i < |deps|
    ensures Inv(g, VisitAll(g, deps[..i], w)) && StackLeadsTo(g, VisitAll(g, deps[..i], w), deps[i])
    ensures Open(g, VisitAll(g, deps[..i], w)) <= Open(g, w)
  {
    assert deps[i] in deps;
    VisitAllKeepsInv(g, deps[..i], w);
    SameStack(g, w, VisitAll(g, deps[..i], w), deps[i]);
  }

  lemma ImportWithin(g: Graph, deps: seq<Key>, w: Walk, i: nat)
    requires i < |deps|
    ensures Visit(g, deps[i], VisitAll(g, deps[..i], w)).finished <= VisitAll(g, deps, w).finished
  {
    assert deps[..i + 1][..i] == deps[..i];
    FinishedByPrefix(g, deps, w, i + 1);
  }

  lemma {:induction false} VisitAllOrders(g: Graph, deps: seq<Key>, w: Walk, x: Key, y: Key)
    requires Ready(g, deps, w) && x !in w.finished && y !in w.finished && x != y
    requires FirstVia(g, w.inStack, deps, x) < |deps| && FirstVia(g, w.inStack, deps, y) < |deps|
    requires Before(g, w.inStack, deps, x, y)
    ensures Precedes(VisitAll(g, deps, w).finished, x, y)
    decreases Open(g, w), 1
  {
    var i, j := FirstVia(g, w.inStack, deps, x), FirstVia(g, w.inStack, deps, y);
    if i < j {
      EarlierImportFirst(g, deps, w, x, y);
    } else {
      var w1 := VisitAll(g, deps[..i], w);
      AtImport(g, deps, w, i, x);
      AtImport(g, deps, w, i, y);
      UpToImport(g, deps, w, i);
      ImportWithin(g, deps, w, i);
      VisitOrders(g, deps[i], w1, x, y);
      PrecedesInPrefix(Visit(g, deps[i], w1).finished, VisitAll(g, deps, w).finished, x, y);
    }
  }

  /** Two different modules that are both reached are always ordered one way or the other. */
  lemma {:induction false} BeforeIsTotal(g: Graph, s: set<Key>, imports: seq<Key>, x: Key, y: Key)
    requires x != y && FirstVia(g, s, imports, x) < |imports| && FirstVia(g, s, imports, y) < |imports|
    ensures Before(g, s, imports, x, y) || Before(g, s, imports, y, x)
    decreases g.edges.Keys - s
  {
    var i, j := FirstVia(g, s, imports, x), FirstVia(g, s, imports, y);
    if i == j && imports[i] != x && imports[i] != y {
      var d := imports[i];
      ViaStartsOutside(g, s, d, x);
      ReachedThroughImports(g, s, d, x);
      ReachedThroughImports(g, s, d, y);
      assert d in g.edges.Keys - s && d !in g.edges.Keys - (s + {d});
      BeforeIsTotal(g, s + {d}, g.edges[d], x, y);
    }
  }

  // ---------- The evaluation order ----------

  lemma OrderFollowsFinished(g: Graph, entry: Key, x: Key, y: Key)
    requires Precedes(WalkFrom(g, entry).finished, x, y) && x in g.nodes && y in g.nodes
    ensures Precedes(OrderFrom(g, entry), x, y)
  {
    var finished := WalkFrom(g, entry).finished;
    var i, j :| 0 <= i < j < |finished| && finished[i] == x && finished[j] == y;
    assert finished[..j][i] == x;
    RecordedPrecedes(g, finished, j, x);
  }

  lemma WholeVisit(g: Graph, entry: Key, x: Key, y: Key)
    requires x != y && Reaches(g, entry, x) && Reaches(g, entry, y)
    requires Before(g, {}, [entry], x, y)
    ensures Precedes(WalkFrom(g, entry).finished, x, y)
  {
    ReachedFromEntry(g, entry, x);
    ReachedFromEntry(g, entry, y);
    assert [entry][..0] == [];
    assert VisitAll(g, [entry], EMPTY_WALK) == WalkFrom(g, entry);
    VisitAllOrders(g, [entry], EMPTY_WALK, x, y);
  }

  lemma ReachedFromEntry(g: Graph, entry: Key, x: Key)
    requires Reaches(g, entry, x)
    ensures FirstVia(g, {}, [entry], x) == 0
  {
    if entry == x {
      ViaItself(g, {}, entry);
    } else {
      var p :| |p| >= 2 && PathFromTo(g, p, entry, x);
      assert Avoids(p, {});
    }
  }

  lemma NoBothWays(s: seq<Key>, x: Key, y: Key)
    requires NoDuplicates(s) && Precedes(s, x, y)
    ensures !Precedes(s, y, x)
  {
  }

  /**
   The evaluation order, of any graph and from any entry, is exactly the one the import lists
   give: of two modules in it, the one that the first import to reach either reaches comes
   first, and so on down, with an importer after everything it alone leads to.
   */
  lemma OrderIsDecidedByImports(g: Graph, entry: Key, x: Key, y: Key)
    requires entry in g.nodes && x != y && x in OrderFrom(g, entry) && y in OrderFrom(g, entry)
    ensures Precedes(OrderFrom(g, entry), x, y) <==> Before(g, {}, [entry], x, y)
  {
    OrderIsExact(g, entry);
    ReachedFromEntry(g, entry, x);
    ReachedFromEntry(g, entry, y);
    BeforeIsTotal(g, {}, [entry], x, y);
    if Before(g, {}, [entry], x, y) {
      WholeVisit(g, entry, x, y);
      OrderFollowsFinished(g, entry, x, y);
    } else {
      WholeVisit(g, entry, y, x);
      OrderFollowsFinished(g, entry, y, x);
      NoBothWays(OrderFrom(g, entry), y, x);
    }
  }

  /**
   In particular the entry's own imports are evaluated from first to last: a module that an
   import reaches without going through the entry comes before one that only later ones reach.
   */
  lemma EarlierImportsComeFirst(g: Graph, entry: Key, x: Key, y: Key)
    requires entry in g.nodes && entry in g.edges && x in g.nodes && y in g.nodes && x != entry && y != entry
    requires FirstVia(g, {entry}, g.edges[entry], x) < FirstVia(g, {entry}, g.edges[entry], y) < |g.edges[entry]|
    ensures Precedes(OrderFrom(g, entry), x, y)
  {
    ReachesThroughImport(g, entry, x);
    ReachesThroughImport(g, entry, y);
    ReachedFromEntry(g, entry, x);
    ReachedFromEntry(g, entry, y);
    OrderIsExact(g, entry);
    assert {} + {entry} == {entry};
    assert Before(g, {entry}, g.edges[entry], x, y);
    assert BeforeInside(g, {}, entry, x, y);
    OrderIsDecidedByImports(g, entry, x, y);
  }

  lemma ReachesThroughImport(g: Graph, entry: Key, x: Key)
    requires entry in g.edges && FirstVia(g, {entry}, g.edges[entry], x) < |g.edges[entry]|
    ensures Reaches(g, entry, x)
  {
    var d := g.edges[entry][FirstVia(g, {entry}, g.edges[entry], x)];
    assert g.Edge(entry, d) && {} + {entry} == {entry};
    ViaImport(g, {}, entry, d, x);
    var p :| PathFromTo(g, p, entry, x) && Avoids(p, {});
    PathReaches(g, p, |p| - 1);
  }

  // ---------- The reported keys ----------

  /** Some module that imports `k` finishes without `k` being finished before it. */
  ghost predicate IsImportedTooEarly(g: Graph, finished: seq<Key>, k: Key) {
    exists i: nat :: i < |finished| && g.Edge(finished[i], k) && k !in finished[..i]
  }

  lemma StaysTooEarly(g: Graph, a: seq<Key>, b: seq<Key>, k: Key)
    requires a <= b && IsImportedTooEarly(g, a, k)
    ensures IsImportedTooEarly(g, b, k)
  {
    var i: nat :| i < |a| && g.Edge(a[i], k) && k !in a[..i];
    assert b[i] == a[i] && b[..i] == a[..i];
  }

  lemma LeavesTooEarly(g: Graph, finished: seq<Key>, key: Key, k: Key)
    requires g.Edge(key, k) && k !in finished
    ensures IsImportedTooEarly(g, finished + [key], k)
  {
    var all := finished + [key];
    assert all[|finished|] == key && all[..|finished|] == finished;
  }

  lemma {:induction false} VisitReports(g: Graph, key: Key, w: Walk)
    requires Inv(g, w) && StackLeadsTo(g, w, key)
    ensures var w' := Visit(g, key, w); forall k :: k in w'.cycles ==>
      k in w.cycles || (k == key && key in w.inStack) || IsImportedTooEarly(g, w'.finished, k)
    decreases Open(g, w), 0
  {
    if key !in w.inStack && key !in w.finished && key in g.edges {
      var entered := w.(inStack := w.inStack + {key});
      EntersReady(g, key, w);
      VisitAllReports(g, g.edges[key], entered);
      VisitAllKeepsInv(g, g.edges[key], entered);
      var w1 := VisitAll(g, g.edges[key], entered);
      forall k | k in w1.cycles && k !in w.cycles ensures IsImportedTooEarly(g, w1.finished + [key], k) {
        if IsImportedTooEarly(g, w1.finished, k) {
          StaysTooEarly(g, w1.finished, w1.finished + [key], k);
        } else {
          LeavesTooEarly(g, w1.finished, key, k);
        }
      }
    }
  }

  lemma {:induction false} VisitAllReports(g: Graph, deps: seq<Key>, w: Walk)
    requires Ready(g, deps, w)
    ensures var w' := VisitAll(g, deps, w); forall k :: k in w'.cycles ==>
      k in w.cycles || (k in deps && k in w.inStack) || IsImportedTooEarly(g, w'.finished, k)
    decreases Open(g, w), |deps| + 1
  {
    if |deps| > 0 {
      var n := |deps| - 1;
      var w1 := VisitAll(g, deps[..n], w);
      VisitAllReports(g, deps[..n], w);
      UpToImport(g, deps, w, n);
      VisitReports(g, deps[n], w1);
      forall k | IsImportedTooEarly(g, w1.finished, k) ensures IsImportedTooEarly(g, VisitAll(g, deps, w).finished, k) {
        StaysTooEarly(g, w1.finished, VisitAll(g, deps, w).finished, k);
      }
    }
  }

  /**
   Exactly those keys are reported that some module in the traversal imports and that are not
   finished before it: the imports that the order cannot respect.
   */
  lemma ReportedIffImportedTooEarly(g: Graph, entry: Key, k: Key)
    ensures k in WalkFrom(g, entry).cycles <==> IsImportedTooEarly(g, WalkFrom(g, entry).finished, k)
  {
    VisitReports(g, entry, EMPTY_WALK);
    WalkFromKeepsInv(g, entry);
  }
}
