/**
 * What every well-formed depth-first history guarantees, whichever visitor,
 * view and terminator produced it: the shape of tree edges, one discovery per
 * vertex, the edge colours' protection against a second back edge, and the
 * vertices a walk without pruning covers.
 */
module DfsFacts {
  import opened Graphs
  import opened Colors
  import opened Events
  import opened Visitors
  import opened Walks

  /** The step at position `i` is well-formed given the history before it. */
  lemma StepAt(run: Run, log: seq<Step>, i: nat)
    requires LogOk(run, log) && i < |log|
    ensures StepOk(run, log[..i], log[i])
  {
  }

  /** A tree edge is immediately followed by the discovery of its target. */
  lemma TreeThenDiscover(run: Run, log: seq<Step>, i: nat)
    requires LogOk(run, log) && !AfterTree(log)
    requires i < |log| && log[i].Examine? && log[i].kind == Tree
    ensures i + 1 < |log| && log[i + 1].Discover? && log[i + 1].v == log[i].arc.target
  {
    if i + 1 < |log| {
      StepAt(run, log, i + 1);
      assert log[..i + 1][i] == log[i];
    }
  }

  /** Every vertex other than the root is discovered through a tree edge. */
  lemma DiscoveredByTree(run: Run, log: seq<Step>, w: Vertex)
    requires LogOk(run, log) && Discovered(log, w) && w != run.root
    ensures TreeEdgeTo(log, w)
  {
    var j :| 0 <= j < |log| && (log[j] == Discover(w, false) || log[j] == Discover(w, true));
    StepAt(run, log, j);
    assert log[..j][j - 1] == log[j - 1];
  }

  /** Every discovery of the history is of a different vertex. */
  ghost predicate OnceEach(log: seq<Step>)
  {
    forall i, j :: 0 <= i < j < |log| && log[i].Discover? && log[j].Discover? ==> log[i].v != log[j].v
  }

  /** Two histories that discover disjoint vertices, each at most once, discover each vertex at most once together. */
  lemma OnceEachConcat(a: seq<Step>, b: seq<Step>)
    requires OnceEach(a) && OnceEach(b)
    requires forall v :: Discovered(a, v) ==> !Discovered(b, v)
    ensures OnceEach(a + b)
  {
    var c := a + b;
    forall i, j | 0 <= i < j < |c| && c[i].Discover? && c[j].Discover?
      ensures c[i].v != c[j].v
    {
      if i < |a| && j >= |a| {
        assert c[i] == a[i] && c[j] == b[j - |a|];
        assert a[i] == Discover(a[i].v, a[i].pruned) && a[i] in a;
        assert b[j - |a|] == Discover(b[j - |a|].v, b[j - |a|].pruned) && b[j - |a|] in b;
        assert Discovered(a, a[i].v) && Discovered(b, b[j - |a|].v);
      } else if i >= |a| {
        assert c[i] == b[i - |a|] && c[j] == b[j - |a|];
      }
    }
  }

  /** No vertex is discovered twice. */
  lemma DiscoverOnce(run: Run, log: seq<Step>)
    requires LogOk(run, log)
    ensures OnceEach(log)
  {
    forall i, j | 0 <= i < j < |log| && log[i].Discover? && log[j].Discover?
      ensures log[i].v != log[j].v
    {
      StepAt(run, log, j);
      StepAt(run, log, j - 1);
      assert log[..j][j - 1] == log[j - 1];
      assert log[i] in log[..j - 1];
    }
  }

  /** No vertex is finished twice. */
  lemma FinishOnce(run: Run, log: seq<Step>)
    requires LogOk(run, log)
    ensures forall i, j :: 0 <= i < j < |log| && log[i].Finish? && log[j].Finish? ==> log[i].v != log[j].v
  {
    forall i, j | 0 <= i < j < |log| && log[i].Finish? && log[j].Finish?
      ensures log[i].v != log[j].v
    {
      StepAt(run, log, j);
      assert log[i] in log[..j];
    }
  }

  lemma {:induction false} ExaminedEdgeIn(log: seq<Step>, i: nat)
    requires i < |log| && log[i].Examine?
    ensures log[i].arc.edge in ExaminedEdges(log)
    decreases |log|
  {
    if i < |log| - 1 {
      ExaminedEdgeIn(Init(log), i);
    }
  }

  /**
   * With edge colours, an edge examined once is never classified a back edge
   * again: in particular the edge that discovered a vertex is not reported as
   * a back edge when the vertex examines it from the other end.
   */
  lemma BackOnlyFirst(run: Run, log: seq<Step>)
    requires RunOk(run) && run.edgeColored && LogOk(run, log)
    ensures forall i, j ::
              0 <= i < j < |log| && log[i].Examine? && log[j].Examine? && log[i].arc.edge == log[j].arc.edge
              ==> log[j].kind != Back
  {
    forall i, j | 0 <= i < j < |log| && log[i].Examine? && log[j].Examine? && log[i].arc.edge == log[j].arc.edge
      ensures log[j].kind != Back
    {
      StepAt(run, log, j);
      ExaminedEdgeIn(log[..j], i);
      ArcFacts(run.g, run.view, log[j].arc.source, log[j].arc);
    }
  }

  /** The default terminator never prunes. */
  lemma NeverPrunes(run: Run, log: seq<Step>)
    requires LogOk(run, log) && run.term == Never
    ensures forall v :: !Pruned(log, v)
  {
    forall v | Pruned(log, v)
      ensures false
    {
      var i :| 0 <= i < |log| && log[i] == Discover(v, true);
      StepAt(run, log, i);
    }
  }

  /** The prune-flag terminator does not prune when the block never asks it to. */
  lemma QuietNeverPrunes(run: Run, log: seq<Step>)
    requires LogOk(run, log) && run.term == PruneFlag && !run.s0.prune
    requires run.role.Walk? ==> forall ys :: !run.role.block(ys)
    ensures forall v :: !Pruned(log, v)
  {
    forall v | Pruned(log, v)
      ensures false
    {
      var i :| 0 <= i < |log| && log[i] == Discover(v, true);
      StepAt(run, log, i);
      ReplayQuiet(run.role, run.term, run.s0, log[..i]);
    }
  }

  /** The target of a tree edge is discovered, and is never the root. */
  lemma TreeEdgeFacts(run: Run, log: seq<Step>, t: Vertex)
    requires DfsWalk(run, log) && TreeEdgeTo(log, t)
    ensures Discovered(log, t) && t != run.root
  {
    var i :| 0 <= i < |log| && log[i].Examine? && log[i].kind == Tree && log[i].arc.target == t;
    TreeThenDiscover(run, log, i);
    assert log[i + 1] in log;
    StepAt(run, log, i);
    assert log[..i][0] == log[0];
  }

  /** Every vertex a walk discovers is a vertex of the graph. */
  lemma DiscoveredInGraph(run: Run, log: seq<Step>)
    requires RunOk(run) && LogOk(run, log)
    ensures forall v :: Discovered(log, v) ==> v in run.g.vertices
  {
    forall v | Discovered(log, v) && v != run.root
      ensures v in run.g.vertices
    {
      DiscoveredByTree(run, log, v);
      var i :| 0 <= i < |log| && log[i].Examine? && log[i].kind == Tree && log[i].arc.target == v;
      StepAt(run, log, i);
      ArcFacts(run.g, run.view, log[i].arc.source, log[i].arc);
    }
  }

  /**
   * A walk that prunes nothing examines every stored edge of every vertex it
   * discovers: with the undirected view, every edge incident to it.
   */
  lemma {:induction false} EdgesOfDiscovered(run: Run, log: seq<Step>, e: nat)
    requires DfsWalk(run, log) && (forall v :: !Pruned(log, v)) && run.view == Undirected
    requires e < |run.g.edges| && Discovered(log, run.g.edges[e].source)
    ensures e in ExaminedEdges(log)
  {
    var ed := run.g.edges[e];
    EdgeIsArc(run.g, e);
    assert ExaminedFrom(log, ed.source) == OutArcs(run.g, Undirected, ed.source);
    var i := ExaminedFromAt(log, ed.source, Arc(e, ed.source, ed.target, ed.info));
    ExaminedEdgeIn(log, i);
  }

  /** Colours only move forward along a walk: white, then gray, then black. */
  lemma ColorsForward(run: Run, log: seq<Step>, i: nat, v: Vertex)
    requires DfsWalk(run, log) && i <= |log|
    ensures Rank(ColorAfter(run.v0, log[..i], v)) <= Rank(ColorAfter(run.v0, log, v))
  {
    if Finished(log[..i], v) {
      PrefixIn(log, i, Finish(v));
    } else if Discovered(log[..i], v) {
      if Discover(v, false) in log[..i] {
        PrefixIn(log, i, Discover(v, false));
      } else {
        PrefixIn(log, i, Discover(v, true));
      }
    } else if Discovered(log, v) {
      ReachedOutside(run.g, run.view, run.root, v, Avoid(run));
    }
  }

  /** A terminator that reads a flag the history never raises does not prune. */
  lemma FoundNeverPrunes(run: Run, log: seq<Step>)
    requires LogOk(run, log) && run.term == Found && run.role.Reach? && !run.s0.found
    requires !TreeEdgeTo(log, run.role.goal)
    ensures forall v :: !Pruned(log, v)
  {
    forall v | Pruned(log, v)
      ensures false
    {
      var i :| 0 <= i < |log| && log[i] == Discover(v, true);
      StepAt(run, log, i);
      ReplayFound(run.role, run.term, run.s0, log[..i]);
    }
  }

  lemma {:induction false} ExaminedFromAt(log: seq<Step>, w: Vertex, a: Arc) returns (i: nat)
    requires a in ExaminedFrom(log, w)
    ensures i < |log| && log[i].Examine? && log[i].arc == a
    decreases |log|
  {
    if a in ExaminedFrom(Init(log), w) {
      i := ExaminedFromAt(Init(log), w, a);
    } else {
      i := |log| - 1;
    }
  }

  /** The target of an examined arc is discovered by the walk, or was not white when it began. */
  lemma {:induction false} ExaminedTargetSeen(run: Run, log: seq<Step>, w: Vertex, a: Arc)
    requires LogOk(run, log) && !AfterTree(log) && a in ExaminedFrom(log, w)
    ensures Discovered(log, a.target) || a.target in Avoid(run)
  {
    var i := ExaminedFromAt(log, w, a);
    StepAt(run, log, i);
    if log[i].kind == Tree {
      TreeThenDiscover(run, log, i);
      assert log[i + 1] in log;
    } else {
      var t := a.target;
      if Finished(log[..i], t) {
        var k :| 0 <= k < i && log[..i][k] == Finish(t);
        assert log[k] == Finish(t);
        StepAt(run, log, k);
        assert log[..k] == log[..i][..k];
      }
      if Discovered(log[..i], t) {
        if Discover(t, false) in log[..i] {
          PrefixIn(log, i, Discover(t, false));
        } else {
          PrefixIn(log, i, Discover(t, true));
        }
      }
    }
  }

  /**
   * A walk that prunes nothing discovers exactly the vertices reachable from
   * its root without passing through a vertex that was not white when it
   * began.
   */
  lemma Closure(run: Run, log: seq<Step>)
    requires DfsWalk(run, log) && forall v :: !Pruned(log, v)
    ensures forall w :: Discovered(log, w) <==> ReachesAvoiding(run.g, run.view, run.root, w, Avoid(run))
  {
    var s := DiscoveredSet(log);
    DiscoveredSetMeans(log);
    assert log[0] in log;
    forall x, y | x in s && y in Successors(run.g, run.view, x) && y !in Avoid(run)
      ensures y in s
    {
      var a :| a in OutArcs(run.g, run.view, x) && a.target == y;
      assert ExaminedFrom(log, x) == OutArcs(run.g, run.view, x);
      ExaminedTargetSeen(run, log, x, a);
    }
    ReachClosed(run.g, run.view, run.root, Avoid(run), s);
  }

  // ---- a depth-first walk is determined by its run ----

  /** A complete walk admits no further step. */
  lemma CompleteNoStep(run: Run, log: seq<Step>, s: Step)
    requires DfsWalk(run, log)
    ensures !StepOk(run, log, s)
  {
  }

  /** No two vertices share a discovery time. */
  lemma DiscoverTimeInjective(log: seq<Step>, x: Vertex, y: Vertex)
    requires Discovered(log, x) && Discovered(log, y)
    ensures DiscoverTime(log, x) == DiscoverTime(log, y) ==> x == y
  {
  }

  /** The vertex an examination leaves from, or the vertex a finish closes. */
  ghost function Mover(s: Step): Vertex
  {
    if s.Examine? then s.arc.source else if s.Finish? then s.v else 0
  }

  /** An examination or a finish concerns the gray vertex discovered last. */
  lemma MoverOnTop(run: Run, p: seq<Step>, s: Step, x: Vertex)
    requires StepOk(run, p, s) && (s.Examine? || s.Finish?)
    requires Discovered(p, x) && !Finished(p, x)
    ensures Discovered(p, Mover(s)) && !Finished(p, Mover(s))
    ensures DiscoverTime(p, x) <= DiscoverTime(p, Mover(s))
  {
  }

  /**
   * After a given history at most one step is well-formed: the discovery a
   * tree edge calls for, or else the next arc of the gray vertex discovered
   * last, or else that vertex's finish.
   */
  lemma NextStepSame(run: Run, p: seq<Step>, s1: Step, s2: Step)
    requires StepOk(run, p, s1) && StepOk(run, p, s2)
    ensures s1 == s2
  {
    if (s1.Examine? || s1.Finish?) && (s2.Examine? || s2.Finish?) {
      MoverOnTop(run, p, s1, Mover(s2));
      MoverOnTop(run, p, s2, Mover(s1));
      DiscoverTimeInjective(p, Mover(s1), Mover(s2));
    }
  }

  /** Two well-formed histories of the same run agree on their common length. */
  lemma {:induction false} PrefixSame(run: Run, l1: seq<Step>, l2: seq<Step>, i: nat)
    requires LogOk(run, l1) && LogOk(run, l2) && i <= |l1| && i <= |l2|
    ensures l1[..i] == l2[..i]
  {
    if i > 0 {
      PrefixSame(run, l1, l2, i - 1);
      StepAt(run, l1, i - 1);
      StepAt(run, l2, i - 1);
      NextStepSame(run, l1[..i - 1], l1[i - 1], l2[i - 1]);
      assert l1[..i] == l1[..i - 1] + [l1[i - 1]];
      assert l2[..i] == l2[..i - 1] + [l2[i - 1]];
    }
  }

  /**
   * Two depth-first walks of the same run are the same history: the stack
   * order of the kernel leaves no choice, so the block sees its calls in one
   * order only.
   */
  lemma DfsUnique(run: Run, l1: seq<Step>, l2: seq<Step>)
    requires DfsWalk(run, l1) && DfsWalk(run, l2)
    ensures l1 == l2
  {
    var n := if |l1| < |l2| then |l1| else |l2|;
    PrefixSame(run, l1, l2, n);
    assert l1[..|l1|] == l1 && l2[..|l2|] == l2;
    if |l1| < |l2| {
      StepAt(run, l2, |l1|);
      CompleteNoStep(run, l2[..|l1|], l2[|l1|]);
    } else if |l2| < |l1| {
      StepAt(run, l1, |l2|);
      CompleteNoStep(run, l1[..|l2|], l1[|l2|]);
    }
  }

  /**
   * On the graph with arcs 0→1, 0→2 and 1→3, the history that examines 0→2
   * while 1, discovered later, is still gray is no depth-first walk from 0,
   * whatever the colours, visitor and terminator.
   */
  lemma InterleavedRejected(run: Run)
    requires run.g == Graph([0, 1, 2, 3], [EdgeRec(0, 1, 0), EdgeRec(0, 2, 0), EdgeRec(1, 3, 0)])
    requires run.view == Direct && run.root == 0
    ensures !DfsWalk(run, [Discover(0, false), Examine(Arc(0, 0, 1, 0), Tree), Discover(1, false),
                           Examine(Arc(1, 0, 2, 0), Tree), Discover(2, false), Finish(2),
                           Examine(Arc(2, 1, 3, 0), Tree), Discover(3, false), Finish(3), Finish(1), Finish(0)])
  {
    var log := [Discover(0, false), Examine(Arc(0, 0, 1, 0), Tree), Discover(1, false),
                Examine(Arc(1, 0, 2, 0), Tree), Discover(2, false), Finish(2),
                Examine(Arc(2, 1, 3, 0), Tree), Discover(3, false), Finish(3), Finish(1), Finish(0)];
    var p := [Discover(0, false), Examine(Arc(0, 0, 1, 0), Tree), Discover(1, false)];
    assert log[..3] == p && log[3] == Examine(Arc(1, 0, 2, 0), Tree);
    OneStillGray(run, p);
  }

  /** After `0` discovers `1`, `0` is not on top: `1` is gray and discovered later. */
  lemma OneStillGray(run: Run, p: seq<Step>)
    requires p == [Discover(0, false), Examine(Arc(0, 0, 1, 0), Tree), Discover(1, false)]
    ensures !StepOk(run, p, Examine(Arc(1, 0, 2, 0), Tree))
  {
    assert p[2] == Discover(1, false) && Finish(1) !in p;
    assert DiscoverTime(p, 1) == 2 && DiscoverTime(p, 0) == 0;
  }
}
