/**
 * Reachability facts the grouping queries rely on: paths compose, the
 * undirected view is symmetric, and a set closed under the view's arcs cuts
 * reachability cleanly.
 */
module Reachability {
  import opened Graphs

  /** No arc of the view leaves `c`. */
  ghost predicate Closed(g: Graph, view: View, c: set<Vertex>)
  {
    forall x, y :: x in c && y in Successors(g, view, x) ==> y in c
  }

  /** The vertices reached from `s` without passing through `covered`. */
  ghost function Region(g: Graph, view: View, s: Vertex, covered: set<Vertex>): set<Vertex>
  {
    set w | w in g.vertices && ReachesAvoiding(g, view, s, w, covered)
  }

  /** The vertices reached from `s`. */
  ghost function ReachSet(g: Graph, view: View, s: Vertex): set<Vertex>
  {
    set w | w in g.vertices && Reaches(g, view, s, w)
  }

  /** Reachability is transitive. */
  lemma ReachesTrans(g: Graph, view: View, a: Vertex, b: Vertex, c: Vertex)
    requires Reaches(g, view, a, b) && Reaches(g, view, b, c)
    ensures Reaches(g, view, a, c)
  {
    var p :| IsPath(g, view, p) && p[0] == a && p[|p| - 1] == b && (forall k :: 0 <= k < |p| ==> p[k] !in {});
    var q :| IsPath(g, view, q) && q[0] == b && q[|q| - 1] == c && (forall k :: 0 <= k < |q| ==> q[k] !in {});
    var r := p + q[1..];
    forall k | 0 <= k < |r| - 1
      ensures r[k + 1] in Successors(g, view, r[k])
    {
      if k < |p| - 1 {
        assert r[k] == p[k] && r[k + 1] == p[k + 1];
      } else {
        assert r[k] == q[k - |p| + 1] && r[k + 1] == q[k - |p| + 2];
      }
    }
    assert r[|r| - 1] == c;
    PathReaches(g, view, r, {});
  }

  /** Every arc of the undirected view can be walked back. */
  lemma UndirectedArcBack(g: Graph, u: Vertex, a: Arc)
    requires a in OutArcs(g, Undirected, u)
    ensures u in Successors(g, Undirected, a.target)
  {
    ArcFacts(g, Undirected, u, a);
    EdgeIsArc(g, a.edge);
    var ed := g.edges[a.edge];
    if ed == EdgeRec(u, a.target, a.info) {
      assert Arc(a.edge, a.target, u, a.info) in OutArcs(g, Undirected, a.target);
    } else {
      assert Arc(a.edge, a.target, u, a.info) in OutArcs(g, Undirected, a.target);
    }
  }

  /** The reverse of an undirected path is an undirected path. */
  lemma ReversedPath(g: Graph, p: seq<Vertex>) returns (r: seq<Vertex>)
    requires IsPath(g, Undirected, p)
    ensures IsPath(g, Undirected, r) && r[0] == p[|p| - 1] && r[|r| - 1] == p[0]
  {
    var n := |p|;
    r := seq(n, k requires 0 <= k < n => p[n - 1 - k]);
    forall k | 0 <= k < n - 1
      ensures r[k + 1] in Successors(g, Undirected, r[k])
    {
      assert r[k] == p[n - 1 - k] && r[k + 1] == p[n - 2 - k];
      var arc :| arc in OutArcs(g, Undirected, p[n - 2 - k]) && arc.target == p[n - 1 - k];
      UndirectedArcBack(g, p[n - 2 - k], arc);
    }
  }

  /** Reachability in the undirected view is symmetric. */
  lemma ReachesSymmetric(g: Graph, a: Vertex, b: Vertex)
    requires Reaches(g, Undirected, a, b)
    ensures Reaches(g, Undirected, b, a)
  {
    var p :| IsPath(g, Undirected, p) && p[0] == a && p[|p| - 1] == b && (forall k :: 0 <= k < |p| ==> p[k] !in {});
    var r := ReversedPath(g, p);
    PathReaches(g, Undirected, r, {});
  }

  /** A path that starts inside a closed set stays inside it. */
  lemma ClosedKeeps(g: Graph, view: View, c: set<Vertex>, a: Vertex, b: Vertex)
    requires Closed(g, view, c) && a in c && Reaches(g, view, a, b)
    ensures b in c
  {
    ReachClosed(g, view, a, {}, c);
  }

  /** Any vertex of a path reaches the path's end. */
  lemma SuffixReaches(g: Graph, view: View, p: seq<Vertex>, k: nat)
    requires IsPath(g, view, p) && k < |p|
    ensures Reaches(g, view, p[k], p[|p| - 1])
  {
    var q := p[k..];
    forall j | 0 <= j < |q| - 1
      ensures q[j + 1] in Successors(g, view, q[j])
    {
      assert q[j] == p[k + j] && q[j + 1] == p[k + j + 1];
    }
    PathReaches(g, view, q, {});
  }

  /** A path whose end is outside a closed set never enters it. */
  lemma PathAvoidsClosed(g: Graph, view: View, p: seq<Vertex>, covered: set<Vertex>)
    requires Closed(g, view, covered) && IsPath(g, view, p) && p[|p| - 1] !in covered
    ensures forall k :: 0 <= k < |p| ==> p[k] !in covered
  {
    forall k | 0 <= k < |p|
      ensures p[k] !in covered
    {
      if p[k] in covered {
        SuffixReaches(g, view, p, k);
        ClosedKeeps(g, view, covered, p[k], p[|p| - 1]);
      }
    }
  }

  /**
   * Outside a closed set, avoiding it changes nothing: a vertex is reached
   * from `s` avoiding `covered` exactly when it is reached from `s` and is
   * not in `covered`.
   */
  lemma RegionOfClosed(g: Graph, view: View, s: Vertex, covered: set<Vertex>, w: Vertex)
    requires Closed(g, view, covered)
    ensures ReachesAvoiding(g, view, s, w, covered) <==> Reaches(g, view, s, w) && w !in covered
  {
    if ReachesAvoiding(g, view, s, w, covered) {
      var p :| IsPath(g, view, p) && p[0] == s && p[|p| - 1] == w && (forall k :: 0 <= k < |p| ==> p[k] !in covered);
      assert p[|p| - 1] !in covered;
      PathReaches(g, view, p, {});
    }
    if Reaches(g, view, s, w) && w !in covered {
      var p :| IsPath(g, view, p) && p[0] == s && p[|p| - 1] == w && (forall k :: 0 <= k < |p| ==> p[k] !in {});
      PathAvoidsClosed(g, view, p, covered);
      PathReaches(g, view, p, covered);
    }
  }

  /** What is reached from a vertex of the graph lies in the graph. */
  lemma ReachedInGraph(g: Graph, view: View, s: Vertex, w: Vertex, avoid: set<Vertex>)
    requires g.Valid() && s in g.vertices && ReachesAvoiding(g, view, s, w, avoid)
    ensures w in g.vertices
  {
    var p :| IsPath(g, view, p) && p[0] == s && p[|p| - 1] == w && (forall k :: 0 <= k < |p| ==> p[k] !in avoid);
    var vs := set v | v in g.vertices;
    forall x, y | x in vs && y in Successors(g, view, x) && y !in {}
      ensures y in vs
    {
      var a :| a in OutArcs(g, view, x) && a.target == y;
      ArcFacts(g, view, x, a);
    }
    PathInside(g, view, p, {}, vs, |p| - 1);
  }
}
