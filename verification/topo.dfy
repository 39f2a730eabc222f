/**
 * `topological_sort`: a depth-first walk of the whole stored graph, root
 * after root in vertex order, that lists each vertex as it finishes and gives
 * up at a back edge; the finishing order, reversed, is pushed into the result
 * array.
 */
module TopoSort {
  import opened Graphs
  import opened Colors
  import opened Events
  import opened Visitors
  import opened Walks
  import opened DfsFacts
  import opened UndirectedDfs

  /** `order` lists every vertex of `g` exactly once. */
  ghost predicate Lists(g: Graph, order: seq<Vertex>)
  {
    Distinct(order) && forall v :: v in order <==> v in g.vertices
  }

  /** Every successor of a listed vertex is listed before it (a finishing order without back edges). */
  ghost predicate SuccessorsFirst(g: Graph, order: seq<Vertex>)
  {
    forall k, s :: 0 <= k < |order| && s in Successors(g, Direct, order[k]) ==> s in order[..k]
  }

  /** A topological order of the stored graph: every vertex once, and every edge leads forward. */
  ghost predicate TopoOrder(g: Graph, order: seq<Vertex>)
  {
    && Lists(g, order)
    && forall i, j :: 0 <= i < |order| && 0 <= j < |order| && order[j] in Successors(g, Direct, order[i]) ==> i < j
  }

  /** The history examined a back edge: Boost's visitor throws `not_a_dag` there. */
  predicate HasBack(log: seq<Step>)
  {
    exists i :: 0 <= i < |log| && log[i].Examine? && log[i].kind == Back
  }

  function Reversed(s: seq<Vertex>): (r: seq<Vertex>)
    ensures |r| == |s| && forall i :: 0 <= i < |s| ==> r[i] == s[|s| - 1 - i]
  {
    if s == [] then [] else Reversed(s[1..]) + [s[0]]
  }

  /** The position of `v` in `s`. */
  function IndexOf(s: seq<Vertex>, v: Vertex): (i: nat)
    requires v in s
    ensures i < |s| && s[i] == v
  {
    if s[0] == v then 0 else 1 + IndexOf(s[1..], v)
  }

  // ---- the finishing order of one walk ----

  /** A vertex is in the finishing order exactly when the history finishes it. */
  lemma {:induction false} FinishOrderHas(log: seq<Step>, v: Vertex)
    ensures v in FinishOrder(log) <==> Finished(log, v)
    decreases |log|
  {
    if log != [] {
      FinishOrderHas(Init(log), v);
      InitLast(log);
      AppendFacts(Init(log), Last(log));
    }
  }

  /** The `k`-th finished vertex is finished at a step before which exactly the first `k` were. */
  lemma {:induction false} FinishPos(log: seq<Step>, k: nat) returns (p: nat)
    requires k < |FinishOrder(log)|
    ensures p < |log| && log[p] == Finish(FinishOrder(log)[k])
    ensures FinishOrder(log[..p]) == FinishOrder(log)[..k]
    decreases |log|
  {
    assert log != [];
    InitLast(log);
    var fo := FinishOrder(Init(log));
    AppendFacts(Init(log), Last(log));
    if k < |fo| {
      p := FinishPos(Init(log), k);
      assert log[..p] == Init(log)[..p];
      assert FinishOrder(log)[..k] == fo[..k];
    } else {
      p := |log| - 1;
      assert log[..p] == Init(log);
    }
  }

  /** A walk finishes no vertex twice. */
  lemma FinishOrderDistinct(run: Run, log: seq<Step>)
    requires LogOk(run, log)
    ensures Distinct(FinishOrder(log))
  {
    var fo := FinishOrder(log);
    forall k, l | 0 <= k < l < |fo|
      ensures fo[k] != fo[l]
    {
      var p := FinishPos(log, l);
      StepAt(run, log, p);
      assert fo[k] in FinishOrder(log[..p]);
      FinishOrderHas(log[..p], fo[k]);
    }
  }

  /** A vertex already discovered by a prefix was first discovered inside it. */
  lemma DiscoveredBefore(log: seq<Step>, i: nat, w: Vertex)
    requires i <= |log| && Discovered(log[..i], w)
    ensures Discovered(log, w) && DiscoverTime(log, w) < i
  {
    var b :| Discover(w, b) in log[..i];
    PrefixIn(log, i, Discover(w, b));
  }

  /** A vertex a prefix has not discovered is first discovered after it. */
  lemma DiscoveredAfter(log: seq<Step>, i: nat, w: Vertex)
    requires i <= |log| && Discovered(log, w) && !Discovered(log[..i], w)
    ensures DiscoverTime(log, w) >= i
  {
  }

  /**
   * In a walk of the stored graph without back edges, a successor of a
   * vertex is finished before it, or was already black before the walk.
   */
  lemma SuccessorFinished(run: Run, log: seq<Step>, p: nat, s: Vertex)
    requires DfsWalk(run, log) && run.view == Direct && run.term == Never && !run.edgeColored
    requires !HasBack(log)
    requires p < |log| && log[p].Finish? && s in Successors(run.g, Direct, log[p].v)
    ensures Finished(log[..p], s) || s in Avoid(run)
  {
    var w := log[p].v;
    var pre := log[..p];
    StepAt(run, log, p);
    NeverPrunes(run, log);
    assert !Pruned(log, w);
    forall x | x in pre
      ensures x in log
    {
      PrefixIn(log, p, x);
    }
    assert log[p] == Finish(w);
    assert ExaminedFrom(pre, w) == Range(run, pre, w) == OutArcs(run.g, Direct, w);
    var a :| a in OutArcs(run.g, Direct, w) && a.target == s;
    ArcFacts(run.g, Direct, w, a);
    var q := ExaminedFromAt(pre, w, a);
    assert pre[q] == log[q];
    assert pre[..q] == log[..q];
    StepAt(run, log, q);
    var c := ColorAfter(run.v0, log[..q], s);
    if c == White {
      TreeThenDiscover(run, log, q);
      assert pre[q + 1] == log[q + 1];
      assert Discovered(pre, s);
      DiscoveredBefore(pre, q, w);
      DiscoveredAfter(pre, q, s);
    } else if c == Black {
      if Finished(log[..q], s) {
        PrefixIn(pre, q, Finish(s));
      }
    }
  }

  /** The finishing positions of one root's walk, appended to the earlier ones, keep successors first. */
  lemma SegmentStep(run: Run, log: seq<Step>, order: seq<Vertex>, k: nat, s: Vertex)
    requires DfsWalk(run, log) && run.view == Direct && run.term == Never && !run.edgeColored
    requires !HasBack(log)
    requires forall v :: v in Avoid(run) ==> v in order
    requires |order| <= k < |order| + |FinishOrder(log)|
    requires s in Successors(run.g, Direct, (order + FinishOrder(log))[k])
    ensures s in (order + FinishOrder(log))[..k]
  {
    var fo := FinishOrder(log);
    var p := FinishPos(log, k - |order|);
    SuccessorFinished(run, log, p, s);
    assert (order + fo)[..k] == order + fo[..k - |order|];
    if Finished(log[..p], s) {
      FinishOrderHas(log[..p], s);
    }
  }

  /**
   * Appending one root's finishing order to the earlier ones: the result
   * still lists every vertex once and successors first, and lists exactly
   * what was listed or discovered.
   */
  lemma SegmentOrder(run: Run, log: seq<Step>, order: seq<Vertex>)
    requires DfsWalk(run, log) && run.view == Direct && run.term == Never && !run.edgeColored
    requires !HasBack(log)
    requires SuccessorsFirst(run.g, order) && Distinct(order)
    requires forall v :: v in Avoid(run) <==> v in order
    ensures SuccessorsFirst(run.g, order + FinishOrder(log))
    ensures Distinct(order + FinishOrder(log))
    ensures forall v :: v in order + FinishOrder(log) <==> v in order || Discovered(log, v)
  {
    var fo := FinishOrder(log);
    var o2 := order + fo;
    FinishOrderDistinct(run, log);
    forall v
      ensures v in fo <==> Discovered(log, v)
      ensures v in fo ==> v !in order
    {
      FinishOrderHas(log, v);
      if Discovered(log, v) {
        ReachedOutside(run.g, run.view, run.root, v, Avoid(run));
      }
    }
    forall i, j | 0 <= i < j < |o2|
      ensures o2[i] != o2[j]
    {
      if j >= |order| && i < |order| {
        assert o2[j] in fo;
      }
    }
    forall k, s | 0 <= k < |o2| && s in Successors(run.g, Direct, o2[k])
      ensures s in o2[..k]
    {
      if k < |order| {
        assert o2[..k] == order[..k];
      } else {
        SegmentStep(run, log, order, k, s);
      }
    }
  }

  // ---- cycles ----

  /** A successor of a vertex is a vertex. */
  lemma SuccessorInGraph(g: Graph, u: Vertex, s: Vertex)
    requires g.Valid() && s in Successors(g, Direct, u)
    ensures s in g.vertices
  {
    var a :| a in OutArcs(g, Direct, u) && a.target == s;
    ArcFacts(g, Direct, u, a);
  }

  /** A back edge closes a cycle: its target reaches its source, and the edge leads back. */
  lemma BackCycle(g: Graph, a: Arc)
    requires a in OutArcs(g, Direct, a.source) && Reaches(g, Direct, a.target, a.source)
    ensures HasCycle(g, Direct)
  {
    var p :| IsPath(g, Direct, p) && p[0] == a.target && p[|p| - 1] == a.source;
    ArcSuccessor(g, Direct, a.source, a);
    PathExtend(g, Direct, p, a.target);
    var q := p + [a.target];
    assert IsPath(g, Direct, q) && |q| >= 2 && q[0] == q[|q| - 1];
  }

  /** A walk of the stored graph that examined a back edge found a cycle. */
  lemma BackMeansCycle(run: Run, log: seq<Step>)
    requires LogOk(run, log) && run.view == Direct && HasBack(log)
    ensures HasCycle(run.g, Direct)
  {
    var i :| 0 <= i < |log| && log[i].Examine? && log[i].kind == Back;
    StepAt(run, log, i);
    BackCycle(run.g, log[i].arc);
  }

  /** Along a path, positions in a topological order rise. */
  lemma {:induction false} RisingAlong(g: Graph, order: seq<Vertex>, p: seq<Vertex>, k: nat)
    requires TopoOrder(g, order) && IsPath(g, Direct, p) && 1 <= k < |p|
    requires forall j :: 0 <= j < |p| ==> p[j] in order
    ensures IndexOf(order, p[0]) < IndexOf(order, p[k])
  {
    var i := IndexOf(order, p[k - 1]);
    var j := IndexOf(order, p[k]);
    assert order[j] in Successors(g, Direct, order[i]);
    if k > 1 {
      RisingAlong(g, order, p, k - 1);
    }
  }

  /** A graph with a topological order has no cycle. */
  lemma OrderedAcyclic(g: Graph, order: seq<Vertex>)
    requires g.Valid() && TopoOrder(g, order)
    ensures !HasCycle(g, Direct)
  {
    if HasCycle(g, Direct) {
      var p :| IsPath(g, Direct, p) && |p| >= 2 && p[0] == p[|p| - 1];
      forall j | 0 <= j < |p|
        ensures p[j] in order
      {
        if j == 0 {
          SuccessorInGraph(g, p[|p| - 2], p[|p| - 1]);
        } else {
          SuccessorInGraph(g, p[j - 1], p[j]);
        }
      }
      RisingAlong(g, order, p, |p| - 1);
    }
  }

  /** Reversing a successors-first listing gives a topological order. */
  lemma ReversedTopo(g: Graph, order: seq<Vertex>)
    requires Lists(g, order) && SuccessorsFirst(g, order)
    ensures TopoOrder(g, Reversed(order))
  {
    var r := Reversed(order);
    var n := |order|;
    forall v
      ensures v in r <==> v in order
    {
      if v in order {
        var k := IndexOf(order, v);
        assert r[n - 1 - k] == v;
      }
    }
    forall i, j | 0 <= i < |r| && 0 <= j < |r| && r[j] in Successors(g, Direct, r[i])
      ensures i < j
    {
      assert r[j] in order[..n - 1 - i];
      var m := IndexOf(order[..n - 1 - i], r[j]);
      assert order[m] == order[n - 1 - j];
    }
  }

  // ---- the operation ----

  /**
   * Boost's `topological_sort` on the stored graph with a fresh colour map:
   * a depth-first visit of every white vertex, in vertex order, that appends
   * each finished vertex to `order`, and stops at the first walk that
   * examined a back edge.
   */
  method FinishAll(g: Graph) returns (order: seq<Vertex>, acyclic: bool)
    requires g.Valid()
    ensures acyclic ==> Lists(g, order) && SuccessorsFirst(g, order)
    ensures !acyclic ==> HasCycle(g, Direct)
  {
    var colors := new ColorMap();
    order := [];
    var i := 0;
    while i < |g.vertices|
      invariant i <= |g.vertices|
      invariant Distinct(order) && SuccessorsFirst(g, order)
      invariant forall v :: v in order ==> v in g.vertices
      invariant forall v :: v in g.vertices[..i] ==> v in order
      invariant forall v :: colors.At(v) == if v in order then Black else White
    {
      var v := g.vertices[i];
      var c := colors.Lookup(v);
      if c == White {
        var vis := new Visitor(Plain, false);
        ghost var run := RunOf(g, Direct, v, vis, Never, colors, null);
        var seg := DepthFirstVisit(g, Direct, v, vis, Never, colors, null);
        if HasBack(seg) {
          BackMeansCycle(run, seg);
          return order, false;
        }
        assert forall u :: u in Avoid(run) <==> u in order;
        SegmentOrder(run, seg, order);
        DiscoveredInGraph(run, seg);
        order := order + FinishOrder(seg);
      }
      assert g.vertices[..i + 1] == g.vertices[..i] + [v];
      i := i + 1;
    }
    assert g.vertices[..i] == g.vertices;
    acyclic := true;
  }

  /** The Ruby array the sort fills. */
  class ResultArray {
    var items: seq<Vertex>

    constructor ()
      ensures items == []
    {
      items := [];
    }

    /** `rb_ary_clear`. */
    method Clear()
      modifies this
      ensures items == []
    {
      items := [];
    }

    /** `rb_ary_push`. */
    method Push(v: Vertex)
      modifies this
      ensures items == old(items) + [v]
    {
      items := items + [v];
    }
  }

  /**
   * `graph_topological_sort`: the caller's array is cleared (a new one is
   * made when none is given); on a graph without cycles it receives the
   * vertices in topological order and is returned; otherwise the argument
   * error "the graph is not a DAG" is raised and the array stays empty.
   */
  method TopologicalSort(g: Graph, given: ResultArray?) returns (r: Outcome<ResultArray>)
    requires g.Valid()
    modifies given
    ensures r.ArgumentError? <==> HasCycle(g, Direct)
    ensures r.ArgumentError? ==> r.message == "the graph is not a DAG" && (given != null ==> given.items == [])
    ensures r.Done? ==> TopoOrder(g, r.value.items)
    ensures r.Done? ==> if given == null then fresh(r.value) else r.value == given
  {
    var out: ResultArray;
    if given == null {
      out := new ResultArray();
    } else {
      out := given;
      out.Clear();
    }
    var order, acyclic := FinishAll(g);
    if !acyclic {
      return ArgumentError("the graph is not a DAG");
    }
    var i := |order|;
    while i > 0
      invariant 0 <= i <= |order|
      invariant out.items == Reversed(order[i..])
      modifies out
    {
      assert order[i - 1..][1..] == order[i..];
      i := i - 1;
      out.Push(order[i]);
    }
    assert order[0..] == order;
    ReversedTopo(g, order);
    OrderedAcyclic(g, out.items);
    r := Done(out);
  }
}
