/**
 * The depth-first queries of the graph: `each_dfs` over the stored (Direct)
 * graph and its Reverse view, `each_dfs` over the Undirected view, and
 * `reachable?`.
 *
 * Each query builds a fresh, empty vertex colour map, so its walk may pass
 * through every vertex. The prune flag the block raises with `prune` is a
 * field of the visitor; `each_dfs` lowers it before walking, and the
 * prune-flag terminator consumes it on the next discovery.
 */
module Search {
  import opened Graphs
  import opened Colors
  import opened Events
  import opened Visitors
  import opened Walks
  import opened DfsFacts
  import opened UndirectedDfs
  import opened BreadthFirst

  /** A query's walk: a fresh colour map, no edge colours, and the visitor as the query hands it over. */
  ghost function QueryRun(g: Graph, view: View, root: Vertex, role: Role, term: Terminator, s0: Snapshot): Run
  {
    Run(g, view, root, map[], [], false, role, term, s0)
  }

  /**
   * `graph_each_dfs` on the Direct or Reverse view: lowers the prune flag;
   * does nothing more when `root` is not a vertex; otherwise walks depth
   * first from `root` with a fresh colour map and the prune-flag terminator,
   * and the block receives, in order, every reported event of that walk whose
   * kind the mask lets through.
   */
  method EachDfs(g: Graph, view: View, vis: Visitor, root: Vertex) returns (log: seq<Step>)
    requires g.Valid() && view != Undirected && vis.role.Walk?
    modifies vis
    ensures root !in g.vertices ==> log == []
    ensures root in g.vertices ==>
              DfsWalk(QueryRun(g, view, root, vis.role, PruneFlag, old(vis.Snap()).(prune := false)), log)
    ensures vis.Snap() == Replay(vis.role, PruneFlag, old(vis.Snap()).(prune := false), log)
    ensures vis.calls == old(vis.calls) + Yields(vis.role.mode, log)
  {
    vis.ResetPruneFlag();
    ghost var s0 := vis.Snap();
    if root !in g.vertices {
      log := [];
      return;
    }
    var colors := new ColorMap();
    log := DepthFirstVisit(g, view, root, vis, PruneFlag, colors, null);
    ReplayCalls(vis.role, PruneFlag, s0, log);
  }

  /**
   * `graph_undirected_each_dfs`: does nothing when `root` is not a vertex
   * (the prune flag then keeps its value); otherwise paints every edge white,
   * lowers the prune flag and walks the Undirected view from `root`. Every
   * examined edge ends black and every other edge white, and no edge is
   * reported as a back edge after it was examined once.
   */
  method UndirectedEachDfs(g: Graph, vis: Visitor, ecolor: array<Color>, root: Vertex) returns (log: seq<Step>)
    requires g.Valid() && vis.role.Walk? && ecolor.Length == |g.edges|
    modifies vis, ecolor
    ensures root !in g.vertices ==> log == [] && vis.Snap() == old(vis.Snap()) && ecolor[..] == old(ecolor[..])
    ensures root in g.vertices ==>
              && DfsWalk(QueryRun(g, Undirected, root, vis.role, PruneFlag, old(vis.Snap()).(prune := false))
                           .(e0 := AllWhite(|g.edges|), edgeColored := true), log)
              && vis.Snap() == Replay(vis.role, PruneFlag, old(vis.Snap()).(prune := false), log)
              && vis.calls == old(vis.calls) + Yields(vis.role.mode, log)
              && (forall e :: 0 <= e < ecolor.Length ==> ecolor[e] == if e in ExaminedEdges(log) then Black else White)
    ensures forall i, j ::
              0 <= i < j < |log| && log[i].Examine? && log[j].Examine? && log[i].arc.edge == log[j].arc.edge
              ==> log[j].kind != Back
  {
    if root !in g.vertices {
      log := [];
      return;
    }
    var colors := new ColorMap();
    WhitenEdges(ecolor);
    vis.ResetPruneFlag();
    ghost var s0 := vis.Snap();
    log := UndirectedDepthFirstVisit(g, root, vis, colors, ecolor, PruneFlag);
    ReplayCalls(vis.role, PruneFlag, s0, log);
  }

  /**
   * A walk whose block never asks to prune discovers exactly the vertices
   * reachable from the root, and examines every arc of each of them.
   */
  lemma {:induction false} QuietWalkCovers(run: Run, log: seq<Step>)
    requires DfsWalk(run, log) && run.v0 == map[] && run.term == PruneFlag && !run.s0.prune
    requires run.role.Walk? ==> forall ys :: !run.role.block(ys)
    ensures forall w :: Discovered(log, w) <==> Reaches(run.g, run.view, run.root, w)
    ensures forall w :: Reaches(run.g, run.view, run.root, w) ==> ExaminedFrom(log, w) == OutArcs(run.g, run.view, w)
  {
    QuietNeverPrunes(run, log);
    Closure(run, log);
    assert Avoid(run) == {};
  }

  /**
   * The reachability walk raises its flag exactly when the goal is reachable
   * from the root in one or more steps: the root itself is never the target
   * of a tree edge.
   */
  lemma ReachMeans(run: Run, log: seq<Step>, t: Vertex)
    requires DfsWalk(run, log) && run.v0 == map[] && run.term == Found && run.role == Reach(t) && !run.s0.found
    ensures TreeEdgeTo(log, t) <==> t != run.root && Reaches(run.g, run.view, run.root, t)
  {
    assert Avoid(run) == {};
    if TreeEdgeTo(log, t) {
      TreeEdgeFacts(run, log, t);
    } else if t != run.root && Reaches(run.g, run.view, run.root, t) {
      FoundNeverPrunes(run, log);
      Closure(run, log);
      DiscoveredByTree(run, log, t);
    }
  }

  /**
   * `graph_reachable_p`: false when either end is not a vertex; otherwise a
   * depth-first walk from `s` whose terminator prunes everything once a tree
   * edge has reached `t`. The answer is whether `t` is reachable from `s`
   * along at least one edge and differs from `s`.
   */
  method Reachable(g: Graph, s: Vertex, t: Vertex) returns (found: bool)
    requires g.Valid()
    ensures found <==> s in g.vertices && t in g.vertices && s != t && Reaches(g, Direct, s, t)
  {
    if s !in g.vertices {
      return false;
    }
    if t !in g.vertices {
      return false;
    }
    var colors := new ColorMap();
    var vis := new Visitor(Reach(t), false);
    ghost var run := RunOf(g, Direct, s, vis, Found, colors, null);
    var log := DepthFirstVisit(g, Direct, s, vis, Found, colors, null);
    found := vis.found;
    ReplayFound(vis.role, Found, run.s0, log);
    ReachMeans(run, log, t);
  }

  /**
   * `graph_each_bfs` on any view: a mask asking for only one of the two
   * non-tree kinds is refused before anything else; a root that is not a
   * vertex leaves everything as it was; otherwise the prune flag is lowered
   * and the breadth-first walk from `root` hands the block every tree and
   * non-tree event the mask lets through. Nothing consults the prune flag.
   */
  method EachBfs(g: Graph, view: View, vis: Visitor, root: Vertex) returns (r: Outcome<seq<Step>>)
    requires g.Valid() && vis.role.Walk?
    modifies vis
    ensures r.ArgumentError? <==> !ValidBfsMask(vis.role.mode)
    ensures r.ArgumentError? ==> r.message == "cannot use FORWARD_OR_CROSS and BACK" && vis.Snap() == old(vis.Snap())
    ensures r.Done? && root !in g.vertices ==> r.value == [] && vis.Snap() == old(vis.Snap())
    ensures r.Done? && root in g.vertices ==>
              && BfsWalk(g, view, root, r.value)
              && vis.Snap() == Replay(vis.role, Never, old(vis.Snap()).(prune := false), r.value)
              && vis.calls == old(vis.calls) + Yields(vis.role.mode, r.value)
  {
    var mode := vis.role.mode;
    if mode & NON_TREE != 0 && mode & NON_TREE != NON_TREE {
      return ArgumentError("cannot use FORWARD_OR_CROSS and BACK");
    }
    if root !in g.vertices {
      return Done([]);
    }
    vis.ResetPruneFlag();
    ghost var s0 := vis.Snap();
    var log := BreadthFirstSearch(g, view, root, vis);
    ReplayCalls(vis.role, Never, s0, log);
    r := Done(log);
  }
}
