/**
 * The graph the algorithms walk, and its three views.
 *
 * A vertex is an opaque descriptor; an edge is identified by its position in
 * the edge sequence (the graph is a multigraph, so two edges may join the same
 * ordered pair). A view gives, for a vertex, the arcs leaving it: the Direct
 * view the stored out-edges, the Reverse view the stored in-edges seen
 * backwards, the Undirected view both, out-edges first. The same stored edge
 * keeps its identity (and so its payload and colour) in every view.
 */
module Graphs {

  type Vertex = nat

  datatype EdgeRec = EdgeRec(source: Vertex, target: Vertex, info: int)

  datatype Graph = Graph(vertices: seq<Vertex>, edges: seq<EdgeRec>)
  {
    /** Vertex descriptors are distinct and every edge joins two vertices of the graph. */
    ghost predicate Valid()
    {
      && (forall i, j :: 0 <= i < j < |vertices| ==> vertices[i] != vertices[j])
      && (forall e :: 0 <= e < |edges| ==> edges[e].source in vertices && edges[e].target in vertices)
    }
  }

  datatype View = Direct | Reverse | Undirected

  /** What a query answers: a value, or the message of the argument error it raises. */
  datatype Outcome<T> = Done(value: T) | ArgumentError(message: string)

  /** An edge as a view presents it: leaving `source` towards `target`. */
  datatype Arc = Arc(edge: nat, source: Vertex, target: Vertex, info: int)

  /** The stored out-edges of `u` among `es`, whose first element has identity `base`. */
  function Outgoing(es: seq<EdgeRec>, u: Vertex, base: nat): (r: seq<Arc>)
    ensures forall a :: a in r ==>
              (a.source == u && base <= a.edge < base + |es|
               && es[a.edge - base].source == u && es[a.edge - base].target == a.target
               && es[a.edge - base].info == a.info)
    decreases |es|
  {
    if es == [] then []
    else
      (if es[0].source == u then [Arc(base, u, es[0].target, es[0].info)] else [])
      + Outgoing(es[1..], u, base + 1)
  }

  /** The stored in-edges of `u` among `es`, turned around so that they leave `u`. */
  function Incoming(es: seq<EdgeRec>, u: Vertex, base: nat): (r: seq<Arc>)
    ensures forall a :: a in r ==>
              (a.source == u && base <= a.edge < base + |es|
               && es[a.edge - base].target == u && es[a.edge - base].source == a.target
               && es[a.edge - base].info == a.info)
    decreases |es|
  {
    if es == [] then []
    else
      (if es[0].target == u then [Arc(base, u, es[0].source, es[0].info)] else [])
      + Incoming(es[1..], u, base + 1)
  }

  /** The neighbour relation of a view: the arcs leaving `u`, in edge order. */
  function OutArcs(g: Graph, view: View, u: Vertex): seq<Arc>
  {
    match view
    case Direct => Outgoing(g.edges, u, 0)
    case Reverse => Incoming(g.edges, u, 0)
    case Undirected => Outgoing(g.edges, u, 0) + Incoming(g.edges, u, 0)
  }

  /** Every arc of a view leaves `u`, is a stored edge between `u` and its target, and carries that edge's payload. */
  lemma ArcFacts(g: Graph, view: View, u: Vertex, a: Arc)
    requires a in OutArcs(g, view, u)
    ensures a.source == u && a.edge < |g.edges| && a.info == g.edges[a.edge].info
    ensures view == Direct ==> g.edges[a.edge] == EdgeRec(u, a.target, a.info)
    ensures view == Reverse ==> g.edges[a.edge] == EdgeRec(a.target, u, a.info)
    ensures view == Undirected ==>
      g.edges[a.edge] == EdgeRec(u, a.target, a.info) || g.edges[a.edge] == EdgeRec(a.target, u, a.info)
    ensures g.Valid() ==> a.target in g.vertices
  {
  }

  lemma {:induction false} OutgoingHas(es: seq<EdgeRec>, u: Vertex, base: nat, k: nat)
    requires k < |es| && es[k].source == u
    ensures Arc(base + k, u, es[k].target, es[k].info) in Outgoing(es, u, base)
    decreases k
  {
    if k > 0 {
      OutgoingHas(es[1..], u, base + 1, k - 1);
    }
  }

  lemma {:induction false} IncomingHas(es: seq<EdgeRec>, u: Vertex, base: nat, k: nat)
    requires k < |es| && es[k].target == u
    ensures Arc(base + k, u, es[k].source, es[k].info) in Incoming(es, u, base)
    decreases k
  {
    if k > 0 {
      IncomingHas(es[1..], u, base + 1, k - 1);
    }
  }

  /** Every stored edge is an arc of its source in the Direct and Undirected views, and of its target in the Reverse view. */
  lemma EdgeIsArc(g: Graph, e: nat)
    requires e < |g.edges|
    ensures Arc(e, g.edges[e].source, g.edges[e].target, g.edges[e].info) in OutArcs(g, Direct, g.edges[e].source)
    ensures Arc(e, g.edges[e].source, g.edges[e].target, g.edges[e].info) in OutArcs(g, Undirected, g.edges[e].source)
    ensures Arc(e, g.edges[e].target, g.edges[e].source, g.edges[e].info) in OutArcs(g, Reverse, g.edges[e].target)
    ensures Arc(e, g.edges[e].target, g.edges[e].source, g.edges[e].info) in OutArcs(g, Undirected, g.edges[e].target)
  {
    OutgoingHas(g.edges, g.edges[e].source, 0, e);
    IncomingHas(g.edges, g.edges[e].target, 0, e);
  }

  /** The vertices a view lets `u` step to. */
  function Successors(g: Graph, view: View, u: Vertex): set<Vertex>
  {
    set a | a in OutArcs(g, view, u) :: a.target
  }

  /** A walk along arcs of the view (possibly a single vertex). */
  ghost predicate IsPath(g: Graph, view: View, p: seq<Vertex>)
  {
    |p| > 0 && forall k :: 0 <= k < |p| - 1 ==> p[k + 1] in Successors(g, view, p[k])
  }

  /** `b` can be reached from `a` along arcs of the view, in zero or more steps, without passing through `avoid`. */
  ghost predicate ReachesAvoiding(g: Graph, view: View, a: Vertex, b: Vertex, avoid: set<Vertex>)
  {
    exists p :: IsPath(g, view, p) && p[0] == a && p[|p| - 1] == b && (forall k :: 0 <= k < |p| ==> p[k] !in avoid)
  }

  /** `b` can be reached from `a` in zero or more steps. */
  ghost predicate Reaches(g: Graph, view: View, a: Vertex, b: Vertex)
  {
    ReachesAvoiding(g, view, a, b, {})
  }

  /** `b` can be reached from `a` in one or more steps. */
  ghost predicate ReachesInSteps(g: Graph, view: View, a: Vertex, b: Vertex)
  {
    exists p :: IsPath(g, view, p) && |p| >= 2 && p[0] == a && p[|p| - 1] == b
  }

  /** The graph has a directed cycle (a self-loop counts). */
  ghost predicate HasCycle(g: Graph, view: View)
  {
    exists p :: IsPath(g, view, p) && |p| >= 2 && p[0] == p[|p| - 1]
  }

  /** No vertex occurs twice, as when the sequence lists the members of a set. */
  ghost predicate Distinct(s: seq<Vertex>)
  {
    forall a, b :: 0 <= a < b < |s| ==> s[a] != s[b]
  }

  /** A vertex no arc of the view enters. */
  predicate IsRoot(g: Graph, view: View, v: Vertex)
  {
    forall u :: u in g.vertices ==> v !in Successors(g, view, u)
  }

  /** Every path whose vertices avoid `avoid` and starts at `a` ends at a vertex reached avoiding it. */
  lemma PathReaches(g: Graph, view: View, p: seq<Vertex>, avoid: set<Vertex>)
    requires IsPath(g, view, p) && forall k :: 0 <= k < |p| ==> p[k] !in avoid
    ensures ReachesAvoiding(g, view, p[0], p[|p| - 1], avoid)
  {
  }

  /** Reachability avoiding a set extends by one arc to a vertex outside the set. */
  lemma ReachesStep(g: Graph, view: View, a: Vertex, b: Vertex, c: Vertex, avoid: set<Vertex>)
    requires ReachesAvoiding(g, view, a, b, avoid)
    requires c in Successors(g, view, b) && c !in avoid
    ensures ReachesAvoiding(g, view, a, c, avoid)
  {
    var p :| IsPath(g, view, p) && p[0] == a && p[|p| - 1] == b && (forall k :: 0 <= k < |p| ==> p[k] !in avoid);
    var q := p + [c];
    forall k | 0 <= k < |q| - 1
      ensures q[k + 1] in Successors(g, view, q[k])
    {
      if k < |p| - 1 {
        assert q[k] == p[k] && q[k + 1] == p[k + 1];
      } else {
        assert q[k] == b && q[k + 1] == c;
      }
    }
    assert IsPath(g, view, q);
    forall k | 0 <= k < |q|
      ensures q[k] !in avoid
    {
      if k < |p| { assert q[k] == p[k]; }
    }
    assert q[0] == a && q[|q| - 1] == c;
  }

  /**
   * A set that holds `a` and every successor, outside `avoid`, of each of its
   * members holds every vertex reached from `a` avoiding `avoid`.
   */
  lemma ReachClosed(g: Graph, view: View, a: Vertex, avoid: set<Vertex>, s: set<Vertex>)
    requires a in s
    requires forall x, y :: x in s && y in Successors(g, view, x) && y !in avoid ==> y in s
    ensures forall b :: ReachesAvoiding(g, view, a, b, avoid) ==> b in s
  {
    forall b | ReachesAvoiding(g, view, a, b, avoid)
      ensures b in s
    {
      var p :| IsPath(g, view, p) && p[0] == a && p[|p| - 1] == b && (forall k :: 0 <= k < |p| ==> p[k] !in avoid);
      PathInside(g, view, p, avoid, s, |p| - 1);
    }
  }

  lemma {:induction false} PathInside(g: Graph, view: View, p: seq<Vertex>, avoid: set<Vertex>, s: set<Vertex>, k: nat)
    requires IsPath(g, view, p) && p[0] in s && k < |p|
    requires forall j :: 0 <= j < |p| ==> p[j] !in avoid
    requires forall x, y :: x in s && y in Successors(g, view, x) && y !in avoid ==> y in s
    ensures p[k] in s
  {
    if k > 0 {
      PathInside(g, view, p, avoid, s, k - 1);
      assert p[k] in Successors(g, view, p[k - 1]);
    }
  }

  /** The end of a path that avoids a set is outside it. */
  lemma ReachedOutside(g: Graph, view: View, a: Vertex, b: Vertex, avoid: set<Vertex>)
    requires ReachesAvoiding(g, view, a, b, avoid)
    ensures b !in avoid
  {
    var p :| IsPath(g, view, p) && p[0] == a && p[|p| - 1] == b && (forall k :: 0 <= k < |p| ==> p[k] !in avoid);
    assert p[|p| - 1] !in avoid;
  }
}
