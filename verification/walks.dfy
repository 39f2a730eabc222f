/**
 * What a depth-first walk's history looks like, step by step, and the
 * invariant the explicit-stack kernel keeps between steps.
 *
 * `Run` gathers what a single call of the kernel starts from: the graph and
 * view, the root, the colour map and edge colours as they were on entry,
 * whether edge colours are used (the undirected walk) or not (the plain
 * depth-first visit), and the visitor's role, terminator and initial state.
 */
module Walks {
  import opened Graphs
  import opened Colors
  import opened Events
  import opened Visitors

  datatype Run = Run(
    g: Graph, view: View, root: Vertex,
    v0: map<Vertex, Color>, e0: seq<Color>, edgeColored: bool,
    role: Role, term: Terminator, s0: Snapshot)

  /** A kernel stack entry: a vertex and the position of the next arc to examine in its arc list. */
  datatype Frame = Frame(v: Vertex, next: nat)

  /**
   * What every caller of the kernel provides: a well-formed graph, a white
   * root of the graph, no gray vertex (every earlier walk has finished), and
   * one colour per edge when edge colours are used.
   */
  ghost predicate RunOk(run: Run)
  {
    && run.g.Valid() && run.root in run.g.vertices
    && Get(run.v0, run.root, White) == White
    && (forall v :: v in run.g.vertices ==> Get(run.v0, v, White) != Gray)
    && (run.edgeColored ==> |run.e0| == |run.g.edges|)
  }

  /** Vertices that were not white on entry: the walk cannot pass through them. */
  ghost function Avoid(run: Run): set<Vertex>
  {
    set v | v in run.v0 && run.v0[v] != White
  }

  /** The arcs the kernel works through from `v`: none once the terminator pruned `v`. */
  ghost function Range(run: Run, log: seq<Step>, v: Vertex): seq<Arc>
  {
    if Pruned(log, v) then [] else OutArcs(run.g, run.view, v)
  }

  /** The history's last step is the tree edge whose target it is about to discover. */
  ghost predicate AfterTree(log: seq<Step>)
  {
    |log| > 0 && Last(log).Examine? && Last(log).kind == Tree
  }

  /**
   * What each step of a depth-first walk must be, given the history before it:
   *   - a discovery is of the root first, afterwards of the target of the tree
   *     edge just examined, and records the terminator's answer;
   *   - an examination leaves the gray vertex discovered last (the top of the
   *     stack) along the first arc of its range not yet examined, is
   *     classified from the colours it reads, and a back edge closes a cycle;
   *   - a finish is of a discovered, unfinished vertex whose whole range was
   *     examined and after every vertex discovered later than it.
   */
  ghost predicate StepOk(run: Run, prefix: seq<Step>, s: Step)
  {
    match s
    case Discover(v, pruned) =>
      && (if prefix == [] then v == run.root else AfterTree(prefix) && Last(prefix).arc.target == v)
      && pruned == Answer(run.term, Replay(run.role, run.term, run.s0, prefix))
    case Examine(a, k) =>
      && prefix != [] && !AfterTree(prefix)
      && a in OutArcs(run.g, run.view, a.source)
      && Discovered(prefix, a.source) && !Finished(prefix, a.source)
      && NextArc(run, prefix, a)
      && OnTop(prefix, a.source)
      && k == Classify(ColorAfter(run.v0, prefix, a.target),
                       EdgeColorAfter(run.e0, prefix, a.edge, run.edgeColored), run.edgeColored)
      && (k == Back ==> Reaches(run.g, run.view, a.target, a.source))
    case Finish(w) =>
      && prefix != [] && !AfterTree(prefix)
      && Discovered(prefix, w) && !Finished(prefix, w)
      && ExaminedFrom(prefix, w) == Range(run, prefix, w)
      && (forall x {:trigger DiscoverTime(prefix, x)} ::
            Discovered(prefix, x) && DiscoverTime(prefix, x) > DiscoverTime(prefix, w) ==> Finished(prefix, x))
    case _ => false
  }

  /** `a` is the first arc of its source's range not yet examined. */
  ghost predicate NextArc(run: Run, prefix: seq<Step>, a: Arc)
  {
    var done := ExaminedFrom(prefix, a.source);
    |done| < |Range(run, prefix, a.source)| && Range(run, prefix, a.source)[|done|] == a
  }

  /** `u` is the gray vertex discovered last: the top of the kernel's stack. */
  ghost predicate OnTop(prefix: seq<Step>, u: Vertex)
    requires Discovered(prefix, u)
  {
    forall x {:trigger DiscoverTime(prefix, x)} ::
      Discovered(prefix, x) && !Finished(prefix, x) ==> DiscoverTime(prefix, x) <= DiscoverTime(prefix, u)
  }

  ghost predicate LogOk(run: Run, log: seq<Step>)
  {
    forall i {:trigger StepOk(run, log[..i], log[i])} :: 0 <= i < |log| ==> StepOk(run, log[..i], log[i])
  }

  /** The history of a complete call of the kernel. */
  ghost predicate DfsWalk(run: Run, log: seq<Step>)
  {
    && |log| > 0 && log[0].Discover? && log[0].v == run.root
    && LogOk(run, log) && !AfterTree(log)
    && (forall w :: Discovered(log, w) <==> Finished(log, w))
    && (forall w {:trigger ExaminedFrom(log, w)} :: ExaminedFrom(log, w) == if Discovered(log, w) then Range(run, log, w) else [])
    && (forall w {:trigger ReachesAvoiding(run.g, run.view, run.root, w, Avoid(run))} ::
          Discovered(log, w) ==> ReachesAvoiding(run.g, run.view, run.root, w, Avoid(run)))
  }

  // ---- the kernel's invariant ----

  function Verts(frames: seq<Frame>): (r: seq<Vertex>)
    ensures |r| == |frames| && forall k :: 0 <= k < |frames| ==> r[k] == frames[k].v
  {
    seq(|frames|, k requires 0 <= k < |frames| => frames[k].v)
  }

  /** A stack entry's position agrees with the arcs examined from its vertex. */
  ghost predicate FrameOk(run: Run, log: seq<Step>, f: Frame)
  {
    var arcs := OutArcs(run.g, run.view, f.v);
    && f.next <= |arcs|
    && (Pruned(log, f.v) ==> f.next == |arcs|)
    && ExaminedFrom(log, f.v) == (if Pruned(log, f.v) then [] else arcs[..f.next])
  }

  /**
   * The stack holds exactly the gray vertices, in discovery order, along a
   * path of the view.
   */
  ghost predicate FramesOk(run: Run, log: seq<Step>, frames: seq<Frame>)
  {
    && StackGray(log, frames)
    && GrayStacked(log, frames)
    && StackOrdered(log, frames)
    && (|frames| > 0 ==> IsPath(run.g, run.view, Verts(frames)))
    && (forall k {:trigger FrameOk(run, log, frames[k])} :: 0 <= k < |frames| ==> FrameOk(run, log, frames[k]))
  }

  ghost predicate StackGray(log: seq<Step>, frames: seq<Frame>)
  {
    forall k {:trigger Discovered(log, frames[k].v)} :: 0 <= k < |frames| ==> Discovered(log, frames[k].v) && !Finished(log, frames[k].v)
  }

  ghost predicate GrayStacked(log: seq<Step>, frames: seq<Frame>)
  {
    forall v {:trigger v in Verts(frames)} :: Discovered(log, v) && !Finished(log, v) ==> v in Verts(frames)
  }

  ghost predicate StackOrdered(log: seq<Step>, frames: seq<Frame>)
    requires StackGray(log, frames)
  {
    forall k, l {:trigger DiscoverTime(log, frames[k].v), DiscoverTime(log, frames[l].v)} ::
      0 <= k < l < |frames| ==> DiscoverTime(log, frames[k].v) < DiscoverTime(log, frames[l].v)
  }

  ghost predicate VerticesOk(run: Run, log: seq<Step>)
  {
    && (forall w {:trigger Finished(log, w)} :: Finished(log, w) ==> Discovered(log, w))
    && (forall w {:trigger ExaminedFrom(log, w)} :: Finished(log, w) ==> ExaminedFrom(log, w) == Range(run, log, w))
    && (forall w {:trigger ExaminedFrom(log, w)} :: !Discovered(log, w) ==> ExaminedFrom(log, w) == [])
    && (forall w {:trigger ReachesAvoiding(run.g, run.view, run.root, w, Avoid(run))} ::
          Discovered(log, w) ==> ReachesAvoiding(run.g, run.view, run.root, w, Avoid(run)))
  }

  ghost predicate Inv(run: Run, log: seq<Step>, frames: seq<Frame>)
  {
    && |log| > 0 && log[0].Discover? && log[0].v == run.root
    && LogOk(run, log) && !AfterTree(log)
    && FramesOk(run, log, frames)
    && VerticesOk(run, log)
  }

  // ---- helper facts ----

  lemma VertsAppend(frames: seq<Frame>, f: Frame)
    ensures Verts(frames + [f]) == Verts(frames) + [f.v]
  {
  }

  lemma PathPrefix(g: Graph, view: View, p: seq<Vertex>, n: nat)
    requires IsPath(g, view, p) && 0 < n <= |p|
    ensures IsPath(g, view, p[..n])
  {
  }

  lemma PathSuffix(g: Graph, view: View, p: seq<Vertex>, j: nat)
    requires IsPath(g, view, p) && j < |p|
    ensures IsPath(g, view, p[j..])
  {
    var q := p[j..];
    forall k | 0 <= k < |q| - 1
      ensures q[k + 1] in Successors(g, view, q[k])
    {
      assert q[k] == p[j + k] && q[k + 1] == p[j + k + 1];
    }
  }

  lemma PathExtend(g: Graph, view: View, p: seq<Vertex>, c: Vertex)
    requires IsPath(g, view, p) && c in Successors(g, view, p[|p| - 1])
    ensures IsPath(g, view, p + [c])
  {
    var q := p + [c];
    forall k | 0 <= k < |q| - 1
      ensures q[k + 1] in Successors(g, view, q[k])
    {
      if k < |p| - 1 {
        assert q[k] == p[k] && q[k + 1] == p[k + 1];
      }
    }
  }

  lemma ArcSuccessor(g: Graph, view: View, u: Vertex, a: Arc)
    requires a in OutArcs(g, view, u)
    ensures a.target in Successors(g, view, u)
  {
  }

  lemma LogAppend(run: Run, log: seq<Step>, s: Step)
    requires LogOk(run, log) && StepOk(run, log, s)
    ensures LogOk(run, log + [s])
  {
    var log' := log + [s];
    forall i | 0 <= i < |log'|
      ensures StepOk(run, log'[..i], log'[i])
    {
      if i < |log| {
        assert log'[..i] == log[..i] && log'[i] == log[i];
      } else {
        assert log'[..i] == log;
      }
    }
  }

  /** A first discovery happens at the position it is appended. */
  lemma {:induction false} DiscoverTimeFresh(log: seq<Step>, s: Step)
    requires s.Discover? && !Discovered(log, s.v)
    ensures Discovered(log + [s], s.v) && DiscoverTime(log + [s], s.v) == |log|
  {
    AppendFacts(log, s);
  }

  /** A vertex gray after the history is on the stack; its position there. */
  lemma GrayOnStack(run: Run, log: seq<Step>, frames: seq<Frame>, v: Vertex) returns (j: nat)
    requires FramesOk(run, log, frames) && Discovered(log, v) && !Finished(log, v)
    ensures j < |frames| && frames[j].v == v
  {
    var vs := Verts(frames);
    assert v in vs;
    var k :| 0 <= k < |vs| && vs[k] == v;
    j := k;
  }

  /** Distinct stack entries hold distinct vertices. */
  lemma FramesDistinct(run: Run, log: seq<Step>, frames: seq<Frame>, k: nat, l: nat)
    requires FramesOk(run, log, frames) && k < |frames| && l < |frames| && k != l
    ensures frames[k].v != frames[l].v
  {
    if k < l {
      assert DiscoverTime(log, frames[k].v) < DiscoverTime(log, frames[l].v);
    } else {
      assert DiscoverTime(log, frames[l].v) < DiscoverTime(log, frames[k].v);
    }
  }

  lemma FramesDistinctOrdered(log: seq<Step>, frames: seq<Frame>, k: nat, l: nat)
    requires StackGray(log, frames) && StackOrdered(log, frames) && k < |frames| && l < |frames| && k != l
    ensures frames[k].v != frames[l].v
  {
    if k < l {
      assert DiscoverTime(log, frames[k].v) < DiscoverTime(log, frames[l].v);
    } else {
      assert DiscoverTime(log, frames[l].v) < DiscoverTime(log, frames[k].v);
    }
  }

  /** Colours move by the step appended: gray on first discovery, black on finish. */
  lemma ColorAfterAppend(v0: map<Vertex, Color>, log: seq<Step>, s: Step)
    ensures forall v :: ColorAfter(v0, log + [s], v)
                     == if s == Finish(v) then Black
                        else if s.Discover? && s.v == v && !Finished(log, v) then Gray
                        else ColorAfter(v0, log, v)
  {
    AppendMembershipFacts(log, s);
  }

  /** The examined edge turns black; every other edge keeps its colour. */
  lemma EdgeColorAfterAppend(e0: seq<Color>, log: seq<Step>, s: Step, edgeColored: bool)
    ensures forall e: nat :: EdgeColorAfter(e0, log + [s], e, edgeColored)
                     == if edgeColored && e < |e0| && s.Examine? && s.arc.edge == e then Black
                        else EdgeColorAfter(e0, log, e, edgeColored)
  {
    AppendRecursiveFacts(log, s);
  }

  /** A gray vertex of the walk is discovered and unfinished, given no gray vertex on entry. */
  lemma GrayMeans(run: Run, log: seq<Step>, v: Vertex)
    requires RunOk(run) && v in run.g.vertices
    ensures ColorAfter(run.v0, log, v) == Gray <==> Discovered(log, v) && !Finished(log, v)
    ensures ColorAfter(run.v0, log, v) == White ==> !Discovered(log, v) && v !in Avoid(run)
  {
  }

  // ---- the invariant is established and kept ----

  lemma InvStart(run: Run, pruned: bool)
    requires RunOk(run)
    requires pruned == Answer(run.term, run.s0)
    ensures Inv(run, [Discover(run.root, pruned)],
                [Frame(run.root, if pruned then |OutArcs(run.g, run.view, run.root)| else 0)])
  {
    var log := [Discover(run.root, pruned)];
    var f := Frame(run.root, if pruned then |OutArcs(run.g, run.view, run.root)| else 0);
    AppendFacts([], Discover(run.root, pruned));
    assert [] + [Discover(run.root, pruned)] == log;
    LogAppend(run, [], Discover(run.root, pruned));
    assert Verts([f]) == [run.root];
    assert IsPath(run.g, run.view, [run.root]);
    assert FrameOk(run, log, f);
    assert ReachesAvoiding(run.g, run.view, run.root, run.root, Avoid(run)) by {
      assert IsPath(run.g, run.view, [run.root]);
    }
  }

  /** Examining an arc whose target is not white: the frame moves one arc on. */
  lemma InvNonTree(run: Run, log: seq<Step>, stack: seq<Frame>, cur: Vertex, next: nat, k: Kind)
    requires RunOk(run) && Inv(run, log, stack + [Frame(cur, next)])
    requires next < |OutArcs(run.g, run.view, cur)|
    requires ColorAfter(run.v0, log, OutArcs(run.g, run.view, cur)[next].target) != White
    requires k == Classify(ColorAfter(run.v0, log, OutArcs(run.g, run.view, cur)[next].target),
                           EdgeColorAfter(run.e0, log, OutArcs(run.g, run.view, cur)[next].edge, run.edgeColored),
                           run.edgeColored)
    ensures Inv(run, log + [Examine(OutArcs(run.g, run.view, cur)[next], k)], stack + [Frame(cur, next + 1)])
  {
    var s := Examine(OutArcs(run.g, run.view, cur)[next], k);
    ExamineStepOk(run, log, stack + [Frame(cur, next)], cur, next, k);
    LogAppend(run, log, s);
    FramesAfterExamine(run, log, stack, cur, next, k);
    VerticesAfterExamine(run, log, stack + [Frame(cur, next)], cur, next, k);
  }

  /** Examining the next arc of the top frame is a well-formed step. */
  lemma ExamineStepOk(run: Run, log: seq<Step>, frames: seq<Frame>, cur: Vertex, next: nat, k: Kind)
    requires RunOk(run) && Inv(run, log, frames) && |frames| > 0 && frames[|frames| - 1] == Frame(cur, next)
    requires next < |OutArcs(run.g, run.view, cur)|
    requires k == Classify(ColorAfter(run.v0, log, OutArcs(run.g, run.view, cur)[next].target),
                           EdgeColorAfter(run.e0, log, OutArcs(run.g, run.view, cur)[next].edge, run.edgeColored),
                           run.edgeColored)
    ensures StepOk(run, log, Examine(OutArcs(run.g, run.view, cur)[next], k))
  {
    var a := OutArcs(run.g, run.view, cur)[next];
    ArcFacts(run.g, run.view, cur, a);
    var top := |frames| - 1;
    assert Discovered(log, cur) && !Finished(log, cur);
    assert FrameOk(run, log, frames[top]);
    forall x | Discovered(log, x) && !Finished(log, x)
      ensures DiscoverTime(log, x) <= DiscoverTime(log, cur)
    {
      var j := GrayOnStack(run, log, frames, x);
      if j < top {
        assert DiscoverTime(log, frames[j].v) < DiscoverTime(log, frames[top].v);
      }
    }
    if k == Back {
      GrayMeans(run, log, a.target);
      var j := GrayOnStack(run, log, frames, a.target);
      var p := Verts(frames)[j..];
      PathSuffix(run.g, run.view, Verts(frames), j);
      PathReaches(run.g, run.view, p, {});
    }
  }

  /** The stack after a non-tree examination: only the top frame's position moves. */
  lemma FramesAfterExamine(run: Run, log: seq<Step>, stack: seq<Frame>, cur: Vertex, next: nat, k: Kind)
    requires FramesOk(run, log, stack + [Frame(cur, next)])
    requires next < |OutArcs(run.g, run.view, cur)|
    ensures FramesOk(run, log + [Examine(OutArcs(run.g, run.view, cur)[next], k)], stack + [Frame(cur, next + 1)])
  {
    var a := OutArcs(run.g, run.view, cur)[next];
    var frames := stack + [Frame(cur, next)];
    var frames' := stack + [Frame(cur, next + 1)];
    VertsAppend(stack, Frame(cur, next));
    VertsAppend(stack, Frame(cur, next + 1));
    ExamineKeepsStack(log, frames, frames', Examine(a, k));
    ExamineFrames(run, log, stack, cur, next, k, frames, frames', log + [Examine(a, k)]);
  }

  /** A step that neither discovers nor finishes keeps the gray vertices and their discovery times. */
  lemma ExamineKeepsStack(log: seq<Step>, frames: seq<Frame>, frames': seq<Frame>, s: Step)
    requires s.Examine?
    requires StackGray(log, frames) && GrayStacked(log, frames) && StackOrdered(log, frames)
    requires Verts(frames') == Verts(frames)
    ensures StackGray(log + [s], frames') && GrayStacked(log + [s], frames') && StackOrdered(log + [s], frames')
  {
    AppendMembershipFacts(log, s);
    AppendDiscoverTime(log, s);
    forall i | 0 <= i < |frames'|
      ensures frames'[i].v == frames[i].v
    {
      assert Verts(frames')[i] == Verts(frames)[i];
    }
  }

  lemma ExamineFrames(run: Run, log: seq<Step>, stack: seq<Frame>, cur: Vertex, next: nat, k: Kind,
                       frames: seq<Frame>, frames': seq<Frame>, log': seq<Step>)
    requires frames == stack + [Frame(cur, next)] && frames' == stack + [Frame(cur, next + 1)]
    requires StackGray(log, frames) && StackOrdered(log, frames)
    requires forall i :: 0 <= i < |frames| ==> FrameOk(run, log, frames[i])
    requires next < |OutArcs(run.g, run.view, cur)|
    requires log' == log + [Examine(OutArcs(run.g, run.view, cur)[next], k)]
    ensures forall i :: 0 <= i < |frames'| ==> FrameOk(run, log', frames'[i])
  {
    var a := OutArcs(run.g, run.view, cur)[next];
    ArcFacts(run.g, run.view, cur, a);
    forall i | 0 <= i < |frames'|
      ensures FrameOk(run, log', frames'[i])
    {
      if i < |stack| {
        FramesDistinctOrdered(log, frames, i, |stack|);
        assert frames'[i] == frames[i];
        FrameUntouched(run, log, frames[i], Examine(a, k));
      } else {
        assert frames[|stack|] == Frame(cur, next);
        FrameAdvance(run, log, cur, next, k);
      }
    }
  }

  /** A step that does not examine an arc of the frame's vertex, discover it or finish it leaves its frame correct. */
  lemma FrameUntouched(run: Run, log: seq<Step>, f: Frame, s: Step)
    requires FrameOk(run, log, f)
    requires !(s.Examine? && s.arc.source == f.v) && !(s.Discover? && s.v == f.v)
    ensures FrameOk(run, log + [s], f)
  {
    AppendMembershipFacts(log, s);
    AppendRecursiveFacts(log, s);
  }

  /** Examining the next arc of an unpruned frame moves its position on by one. */
  lemma FrameAdvance(run: Run, log: seq<Step>, cur: Vertex, next: nat, k: Kind)
    requires FrameOk(run, log, Frame(cur, next)) && next < |OutArcs(run.g, run.view, cur)|
    ensures FrameOk(run, log + [Examine(OutArcs(run.g, run.view, cur)[next], k)], Frame(cur, next + 1))
  {
    var arcs := OutArcs(run.g, run.view, cur);
    var a := arcs[next];
    ArcFacts(run.g, run.view, cur, a);
    AppendMembershipFacts(log, Examine(a, k));
    AppendRecursiveFacts(log, Examine(a, k));
    assert arcs[..next + 1] == arcs[..next] + [a];
  }

  /** Vertex facts after a non-tree examination: only the unfinished top vertex gained an examined arc. */
  lemma VerticesAfterExamine(run: Run, log: seq<Step>, frames: seq<Frame>, cur: Vertex, next: nat, k: Kind)
    requires Inv(run, log, frames) && |frames| > 0 && frames[|frames| - 1] == Frame(cur, next)
    requires next < |OutArcs(run.g, run.view, cur)|
    ensures VerticesOk(run, log + [Examine(OutArcs(run.g, run.view, cur)[next], k)])
  {
    var a := OutArcs(run.g, run.view, cur)[next];
    var s := Examine(a, k);
    var log' := log + [s];
    ArcFacts(run.g, run.view, cur, a);
    AppendFacts(log, s);
    assert Discovered(log, cur) && !Finished(log, cur);
    forall w | Finished(log', w)
      ensures Discovered(log', w) && ExaminedFrom(log', w) == Range(run, log', w)
    {
      assert w != cur;
    }
  }

  /**
   * Examining an arc whose target is white: a tree edge, then the discovery of
   * its target, whose frame goes on top (emptied if the terminator prunes it).
   */
  lemma {:induction false} InvTree(run: Run, log: seq<Step>, stack: seq<Frame>, cur: Vertex, next: nat, pruned: bool)
    requires RunOk(run) && Inv(run, log, stack + [Frame(cur, next)])
    requires next < |OutArcs(run.g, run.view, cur)|
    requires ColorAfter(run.v0, log, OutArcs(run.g, run.view, cur)[next].target) == White
    requires pruned == Answer(run.term, Replay(run.role, run.term, run.s0,
                                               log + [Examine(OutArcs(run.g, run.view, cur)[next], Tree)]))
    ensures var a := OutArcs(run.g, run.view, cur)[next];
            Inv(run, log + [Examine(a, Tree)] + [Discover(a.target, pruned)],
                stack + [Frame(cur, next + 1)]
                + [Frame(a.target, if pruned then |OutArcs(run.g, run.view, a.target)| else 0)])
  {
    var a := OutArcs(run.g, run.view, cur)[next];
    var frames := stack + [Frame(cur, next)];
    var log1 := log + [Examine(a, Tree)];
    ArcFacts(run.g, run.view, cur, a);
    GrayMeans(run, log, a.target);
    ExamineStepOk(run, log, frames, cur, next, Tree);
    LogAppend(run, log, Examine(a, Tree));
    FramesAfterExamine(run, log, stack, cur, next, Tree);
    VerticesAfterExamine(run, log, frames, cur, next, Tree);
    AppendFacts(log, Examine(a, Tree));
    InitOfAppend(log, Examine(a, Tree));
    assert log1[0] == log[0];
    assert (stack + [Frame(cur, next + 1)])[|stack|].v == cur;
    ArcSuccessor(run.g, run.view, cur, a);
    PushDiscovery(run, log1, stack + [Frame(cur, next + 1)], a.target, pruned);
  }

  /** Discovering the target of the tree edge just examined. */
  lemma {:induction false} PushDiscovery(run: Run, log: seq<Step>, frames: seq<Frame>, v: Vertex, pruned: bool)
    requires |log| > 0 && log[0].Discover? && log[0].v == run.root
    requires LogOk(run, log) && AfterTree(log) && Last(log).arc.target == v
    requires FramesOk(run, log, frames) && VerticesOk(run, log)
    requires |frames| > 0 && v in Successors(run.g, run.view, frames[|frames| - 1].v)
    requires !Discovered(log, v) && v !in Avoid(run)
    requires pruned == Answer(run.term, Replay(run.role, run.term, run.s0, log))
    ensures Inv(run, log + [Discover(v, pruned)],
                frames + [Frame(v, if pruned then |OutArcs(run.g, run.view, v)| else 0)])
  {
    var s := Discover(v, pruned);
    assert StepOk(run, log, s);
    LogAppend(run, log, s);
    assert !Finished(log, v) && ExaminedFrom(log, v) == [];
    FramesPush(run, log, frames, v, pruned);
    VerticesPush(run, log, frames[|frames| - 1].v, v, pruned);
  }

  lemma {:induction false} FramesPush(run: Run, log: seq<Step>, frames: seq<Frame>, v: Vertex, pruned: bool)
    requires FramesOk(run, log, frames)
    requires |frames| > 0 && v in Successors(run.g, run.view, frames[|frames| - 1].v)
    requires !Discovered(log, v) && !Finished(log, v) && ExaminedFrom(log, v) == []
    ensures FramesOk(run, log + [Discover(v, pruned)],
                     frames + [Frame(v, if pruned then |OutArcs(run.g, run.view, v)| else 0)])
  {
    var f := Frame(v, if pruned then |OutArcs(run.g, run.view, v)| else 0);
    PushGray(log, frames, v, pruned, f);
    PushOrdered(log, frames, v, pruned, f);
    VertsAppend(frames, f);
    assert Verts(frames)[|frames| - 1] == frames[|frames| - 1].v;
    PathExtend(run.g, run.view, Verts(frames), v);
    assert IsPath(run.g, run.view, Verts(frames + [f]));
    PushFrames(run, log, frames, v, pruned, f);
  }

  lemma PushGray(log: seq<Step>, frames: seq<Frame>, v: Vertex, pruned: bool, f: Frame)
    requires StackGray(log, frames) && GrayStacked(log, frames) && f.v == v && !Finished(log, v)
    ensures StackGray(log + [Discover(v, pruned)], frames + [f])
    ensures GrayStacked(log + [Discover(v, pruned)], frames + [f])
  {
    var log' := log + [Discover(v, pruned)];
    var frames' := frames + [f];
    AppendMembershipFacts(log, Discover(v, pruned));
    VertsAppend(frames, f);
    forall i | 0 <= i < |frames'|
      ensures Discovered(log', frames'[i].v) && !Finished(log', frames'[i].v)
    {
      if i < |frames| {
        assert frames'[i] == frames[i];
      }
    }
  }

  lemma PushOrdered(log: seq<Step>, frames: seq<Frame>, v: Vertex, pruned: bool, f: Frame)
    requires StackGray(log, frames) && StackOrdered(log, frames) && f.v == v && !Discovered(log, v)
    requires StackGray(log + [Discover(v, pruned)], frames + [f])
    ensures StackOrdered(log + [Discover(v, pruned)], frames + [f])
  {
    var log' := log + [Discover(v, pruned)];
    var frames' := frames + [f];
    AppendDiscoverTime(log, Discover(v, pruned));
    DiscoverTimeFresh(log, Discover(v, pruned));
    forall i, j | 0 <= i < j < |frames'|
      ensures DiscoverTime(log', frames'[i].v) < DiscoverTime(log', frames'[j].v)
    {
      assert frames'[i] == frames[i];
      if j < |frames| {
        assert frames'[j] == frames[j];
      }
    }
  }

  lemma {:induction false} PushFrames(run: Run, log: seq<Step>, frames: seq<Frame>, v: Vertex, pruned: bool, f: Frame)
    requires StackGray(log, frames) && !Discovered(log, v) && ExaminedFrom(log, v) == []
    requires forall k :: 0 <= k < |frames| ==> FrameOk(run, log, frames[k])
    requires f == Frame(v, if pruned then |OutArcs(run.g, run.view, v)| else 0)
    ensures forall k :: 0 <= k < |frames + [f]| ==> FrameOk(run, log + [Discover(v, pruned)], (frames + [f])[k])
  {
    var log' := log + [Discover(v, pruned)];
    var frames' := frames + [f];
    AppendMembershipFacts(log, Discover(v, pruned));
    AppendRecursiveFacts(log, Discover(v, pruned));
    forall i | 0 <= i < |frames'|
      ensures FrameOk(run, log', frames'[i])
    {
      if i < |frames| {
        assert frames'[i] == frames[i];
        assert FrameOk(run, log, frames[i]);
      }
    }
  }

  lemma VerticesPush(run: Run, log: seq<Step>, parent: Vertex, v: Vertex, pruned: bool)
    requires VerticesOk(run, log)
    requires Discovered(log, parent) && v in Successors(run.g, run.view, parent)
    requires !Discovered(log, v) && v !in Avoid(run)
    ensures VerticesOk(run, log + [Discover(v, pruned)])
  {
    var s := Discover(v, pruned);
    var log' := log + [s];
    AppendFacts(log, s);
    ReachesStep(run.g, run.view, run.root, parent, v, Avoid(run));
    forall w | Finished(log', w)
      ensures Discovered(log', w) && ExaminedFrom(log', w) == Range(run, log', w)
    {
      assert w != v;
    }
  }

  /** Finishing the top vertex once its whole range is examined: its frame leaves the stack. */
  lemma InvFinish(run: Run, log: seq<Step>, stack: seq<Frame>, cur: Vertex)
    requires Inv(run, log, stack + [Frame(cur, |OutArcs(run.g, run.view, cur)|)])
    ensures Inv(run, log + [Finish(cur)], stack)
  {
    var frames := stack + [Frame(cur, |OutArcs(run.g, run.view, cur)|)];
    var s := Finish(cur);
    FinishStepOk(run, log, frames, cur);
    LogAppend(run, log, s);
    AppendFacts(log, s);
    FramesPop(run, log, stack, cur);
    VerticesFinish(run, log, frames, cur);
  }

  lemma FinishStepOk(run: Run, log: seq<Step>, frames: seq<Frame>, cur: Vertex)
    requires |log| > 0 && !AfterTree(log) && FramesOk(run, log, frames) && |frames| > 0
    requires frames[|frames| - 1] == Frame(cur, |OutArcs(run.g, run.view, cur)|)
    ensures StepOk(run, log, Finish(cur))
  {
    var arcs := OutArcs(run.g, run.view, cur);
    assert FrameOk(run, log, frames[|frames| - 1]);
    assert arcs[..|arcs|] == arcs;
    forall x | Discovered(log, x) && DiscoverTime(log, x) > DiscoverTime(log, cur)
      ensures Finished(log, x)
    {
      if !Finished(log, x) {
        var j := GrayOnStack(run, log, frames, x);
      }
    }
  }

  lemma FramesPop(run: Run, log: seq<Step>, stack: seq<Frame>, cur: Vertex)
    requires Inv(run, log, stack + [Frame(cur, |OutArcs(run.g, run.view, cur)|)])
    ensures FramesOk(run, log + [Finish(cur)], stack)
  {
    var frames := stack + [Frame(cur, |OutArcs(run.g, run.view, cur)|)];
    PopGray(log, stack, frames[|stack|]);
    PopOrdered(log, stack, frames[|stack|]);
    VertsAppend(stack, frames[|stack|]);
    if |stack| > 0 {
      PathPrefix(run.g, run.view, Verts(frames), |stack|);
      assert Verts(frames)[..|stack|] == Verts(stack);
    }
    PopFrames(run, log, stack, frames[|stack|]);
  }

  lemma PopGray(log: seq<Step>, stack: seq<Frame>, top: Frame)
    requires StackGray(log, stack + [top]) && GrayStacked(log, stack + [top]) && StackOrdered(log, stack + [top])
    ensures StackGray(log + [Finish(top.v)], stack)
    ensures GrayStacked(log + [Finish(top.v)], stack)
  {
    var frames := stack + [top];
    var log' := log + [Finish(top.v)];
    AppendMembershipFacts(log, Finish(top.v));
    VertsAppend(stack, top);
    forall i | 0 <= i < |stack|
      ensures Discovered(log', stack[i].v) && !Finished(log', stack[i].v)
    {
      assert stack[i] == frames[i];
      assert DiscoverTime(log, frames[i].v) < DiscoverTime(log, frames[|stack|].v);
    }
    forall v | Discovered(log', v) && !Finished(log', v)
      ensures v in Verts(stack)
    {
      assert v in Verts(frames);
    }
  }

  lemma PopOrdered(log: seq<Step>, stack: seq<Frame>, top: Frame)
    requires StackGray(log, stack + [top]) && StackOrdered(log, stack + [top])
    requires StackGray(log + [Finish(top.v)], stack)
    ensures StackOrdered(log + [Finish(top.v)], stack)
  {
    var frames := stack + [top];
    var log' := log + [Finish(top.v)];
    AppendDiscoverTime(log, Finish(top.v));
    forall i, j | 0 <= i < j < |stack|
      ensures DiscoverTime(log', stack[i].v) < DiscoverTime(log', stack[j].v)
    {
      assert stack[i] == frames[i] && stack[j] == frames[j];
    }
  }

  lemma PopFrames(run: Run, log: seq<Step>, stack: seq<Frame>, top: Frame)
    requires forall k :: 0 <= k < |stack + [top]| ==> FrameOk(run, log, (stack + [top])[k])
    ensures forall k :: 0 <= k < |stack| ==> FrameOk(run, log + [Finish(top.v)], stack[k])
  {
    var frames := stack + [top];
    AppendMembershipFacts(log, Finish(top.v));
    AppendRecursiveFacts(log, Finish(top.v));
    forall i | 0 <= i < |stack|
      ensures FrameOk(run, log + [Finish(top.v)], stack[i])
    {
      assert stack[i] == frames[i];
      assert FrameOk(run, log, frames[i]);
    }
  }

  lemma VerticesFinish(run: Run, log: seq<Step>, frames: seq<Frame>, cur: Vertex)
    requires Inv(run, log, frames) && |frames| > 0
    requires frames[|frames| - 1] == Frame(cur, |OutArcs(run.g, run.view, cur)|)
    ensures VerticesOk(run, log + [Finish(cur)])
  {
    var log' := log + [Finish(cur)];
    var arcs := OutArcs(run.g, run.view, cur);
    AppendFacts(log, Finish(cur));
    assert FrameOk(run, log, frames[|frames| - 1]);
    assert arcs[..|arcs|] == arcs;
    assert Discovered(log, cur);
  }

  /** With the stack empty, the invariant is the description of a complete walk. */
  lemma InvDone(run: Run, log: seq<Step>)
    requires Inv(run, log, [])
    ensures DfsWalk(run, log)
  {
    forall w | Discovered(log, w)
      ensures Finished(log, w)
    {
      assert w !in Verts([]);
    }
  }
}
