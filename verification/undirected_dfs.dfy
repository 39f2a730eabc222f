/**
 * The explicit-stack depth-first kernel, its undirected wrapper, and the
 * whole-graph driver.
 *
 * The kernel is one procedure for two walks: with an edge colour array it is
 * the undirected walk (an edge examined once is not reported again from its
 * other endpoint); without one it is the plain depth-first visit the
 * directed and reverse queries use. The terminator is asked about every
 * vertex right after its discovery; a true answer leaves that vertex's arcs
 * unexamined.
 */
module UndirectedDfs {
  import opened Graphs
  import opened Colors
  import opened Events
  import opened Visitors
  import opened Walks
  import opened DfsFacts

  /** The white vertices of the graph: what the kernel still may discover. */
  ghost function WhiteSet(g: Graph, m: map<Vertex, Color>): set<Vertex>
  {
    set v | v in g.vertices && Get(m, v, White) == White
  }

  ghost function EdgeColors(ecolor: array?<Color>): seq<Color>
    reads ecolor
  {
    if ecolor == null then [] else ecolor[..]
  }

  /** The parameters of a kernel call, read from the state it starts in. */
  ghost function RunOf(g: Graph, view: View, u: Vertex, vis: Visitor, term: Terminator,
                       vcolor: ColorMap, ecolor: array?<Color>): Run
    reads vis, vcolor, ecolor
  {
    Run(g, view, u, vcolor.entries, EdgeColors(ecolor), ecolor != null, vis.role, term, vis.Snap())
  }

  lemma WhiteSetSame(g: Graph, m: map<Vertex, Color>, m': map<Vertex, Color>)
    requires forall v :: Get(m', v, White) == Get(m, v, White)
    ensures WhiteSet(g, m') == WhiteSet(g, m)
  {
  }

  lemma WhiteSetPut(g: Graph, m: map<Vertex, Color>, v: Vertex, c: Color)
    ensures c != White ==> WhiteSet(g, m[v := c]) == WhiteSet(g, m) - {v}
    ensures Get(m, v, White) != White && c != White ==> WhiteSet(g, m[v := c]) == WhiteSet(g, m)
  {
  }

  /** The colour map holds the colours the history gives. */
  ghost predicate ColorsMirror(run: Run, m: map<Vertex, Color>, log: seq<Step>)
  {
    forall v :: Get(m, v, White) == ColorAfter(run.v0, log, v)
  }

  /** The edge colours are the ones the history gives. */
  ghost predicate EdgesMirror(run: Run, es: seq<Color>, log: seq<Step>)
  {
    |es| == |run.e0| && forall e :: 0 <= e < |es| ==> es[e] == EdgeColorAfter(run.e0, log, e, true)
  }

  /** The colour map, the edge colours and the visitor are what the history says. */
  ghost predicate Mirrors(run: Run, vis: Visitor, vcolor: ColorMap, ecolor: array?<Color>, log: seq<Step>)
    reads vis, vcolor, ecolor
  {
    && vis.role == run.role
    && (ecolor != null <==> run.edgeColored)
    && ColorsMirror(run, vcolor.entries, log)
    && (ecolor != null ==> EdgesMirror(run, ecolor[..], log))
    && vis.Snap() == Replay(run.role, run.term, run.s0, log)
  }

  lemma ColorsSame(run: Run, m: map<Vertex, Color>, m': map<Vertex, Color>, log: seq<Step>, s: Step)
    requires ColorsMirror(run, m, log) && forall v :: Get(m', v, White) == Get(m, v, White)
    requires s.Examine?
    ensures ColorsMirror(run, m', log + [s])
  {
    ColorAfterAppend(run.v0, log, s);
  }

  lemma ColorsPut(run: Run, m: map<Vertex, Color>, log: seq<Step>, s: Step)
    requires ColorsMirror(run, m, log)
    requires (s.Discover? && !Finished(log, s.v)) || s.Finish?
    ensures ColorsMirror(run, m[s.v := if s.Discover? then Gray else Black], log + [s])
  {
    ColorAfterAppend(run.v0, log, s);
  }

  lemma EdgesExamine(run: Run, es: seq<Color>, log: seq<Step>, s: Step)
    requires EdgesMirror(run, es, log) && s.Examine? && s.arc.edge < |es|
    ensures EdgesMirror(run, es[s.arc.edge := Black], log + [s])
  {
    EdgeColorAfterAppend(run.e0, log, s, true);
  }

  lemma EdgesKeep(run: Run, es: seq<Color>, log: seq<Step>, s: Step)
    requires EdgesMirror(run, es, log) && !s.Examine?
    ensures EdgesMirror(run, es, log + [s])
  {
    EdgeColorAfterAppend(run.e0, log, s, true);
  }

  /**
   * The kernel: walks depth first from `u`, colouring vertices gray on
   * discovery and black on finish, and, with edge colours, each examined edge
   * black. The history it returns is a complete depth-first walk of `u`'s
   * white region: every step is what the colours it read call for, every
   * discovered vertex is finished with its whole unpruned range examined, and
   * the visitor saw exactly that history.
   */
  method DepthFirstVisit(g: Graph, view: View, u: Vertex, vis: Visitor, term: Terminator,
                         vcolor: ColorMap, ecolor: array?<Color>) returns (log: seq<Step>)
    requires g.Valid() && u in g.vertices
    requires vcolor.At(u) == White && forall v :: v in g.vertices ==> vcolor.At(v) != Gray
    requires ecolor != null ==> ecolor.Length == |g.edges|
    modifies vis, vcolor, ecolor
    ensures DfsWalk(old(RunOf(g, view, u, vis, term, vcolor, ecolor)), log)
    ensures vis.Snap() == Replay(vis.role, term, old(vis.Snap()), log)
    ensures forall v :: vcolor.At(v) == if Discovered(log, v) then Black else old(vcolor.At(v))
    ensures ecolor != null ==>
              forall e :: 0 <= e < ecolor.Length ==>
                ecolor[e] == if e in ExaminedEdges(log) then Black else old(ecolor[e])
  {
    ghost var run := RunOf(g, view, u, vis, term, vcolor, ecolor);
    var stack;
    log, stack := DiscoverRoot(run, g, view, u, vis, term, vcolor, ecolor);
    while stack != []
      invariant Inv(run, log, stack)
      invariant Mirrors(run, vis, vcolor, ecolor, log)
      decreases WhiteSet(g, vcolor.entries), |stack|
    {
      log, stack := PopAndFinish(run, g, view, vis, term, vcolor, ecolor, log, stack);
    }
    KernelDone(run, vcolor.entries, if ecolor == null then [] else ecolor[..], log);
  }

  /** The root turns gray and is discovered; its frame, emptied if the terminator prunes it, is the whole stack. */
  method DiscoverRoot(ghost run: Run, g: Graph, view: View, u: Vertex, vis: Visitor, term: Terminator,
                      vcolor: ColorMap, ecolor: array?<Color>)
    returns (log: seq<Step>, stack: seq<Frame>)
    requires run == RunOf(g, view, u, vis, term, vcolor, ecolor)
    requires g.Valid() && u in g.vertices
    requires vcolor.At(u) == White && forall v :: v in g.vertices ==> vcolor.At(v) != Gray
    requires ecolor != null ==> ecolor.Length == |g.edges|
    modifies vis, vcolor
    ensures RunOk(run) && Inv(run, log, stack) && Mirrors(run, vis, vcolor, ecolor, log)
  {
    assert RunOk(run);
    assert ColorsMirror(run, vcolor.entries, []);
    assert ecolor != null ==> EdgesMirror(run, ecolor[..], []);
    vcolor.Put(u, Gray);
    var pruned := vis.DiscoverVertex(u, term);
    log := [Discover(u, pruned)];
    stack := [Frame(u, if pruned then |OutArcs(g, view, u)| else 0)];
    InvStart(run, pruned);
    assert [] + [Discover(u, pruned)] == log;
    ColorsPut(run, run.v0, [], Discover(u, pruned));
    if ecolor != null {
      EdgesKeep(run, ecolor[..], [], Discover(u, pruned));
    }
    ReplayAppend(run.role, term, run.s0, [], Discover(u, pruned));
  }

  /**
   * One round of the outer loop: pops the top frame, examines its remaining
   * arcs (descending along tree edges) and finishes the vertex left on top.
   */
  method PopAndFinish(ghost run: Run, g: Graph, view: View, vis: Visitor, term: Terminator,
                      vcolor: ColorMap, ecolor: array?<Color>, log: seq<Step>, stack: seq<Frame>)
    returns (log': seq<Step>, stack': seq<Frame>)
    requires RunOk(run) && run.g == g && run.view == view && run.term == term
    requires Inv(run, log, stack) && Mirrors(run, vis, vcolor, ecolor, log) && stack != []
    modifies vis, vcolor, ecolor
    ensures Inv(run, log', stack') && Mirrors(run, vis, vcolor, ecolor, log')
    ensures WhiteSet(g, vcolor.entries) < old(WhiteSet(g, vcolor.entries))
            || (WhiteSet(g, vcolor.entries) == old(WhiteSet(g, vcolor.entries)) && |stack'| < |stack|)
  {
    var top := stack[|stack| - 1];
    stack' := stack[..|stack| - 1];
    var cur: Vertex, next: nat := top.v, top.next;
    assert stack' + [Frame(cur, next)] == stack;
    assert FrameOk(run, log, stack[|stack| - 1]);
    stack', cur, log' := ExhaustFrame(run, g, view, vis, term, vcolor, ecolor, log, stack', cur, next);
    log' := FinishTop(run, g, view, vis, term, vcolor, ecolor, log', stack', cur);
  }

  /**
   * The inner loop: examines the arcs of the top vertex from position `next`
   * on; a tree edge saves the current position on the stack and moves on to
   * the new vertex. Ends when the top vertex has no arc left.
   */
  method ExhaustFrame(ghost run: Run, g: Graph, view: View, vis: Visitor, term: Terminator,
                      vcolor: ColorMap, ecolor: array?<Color>,
                      log: seq<Step>, stack: seq<Frame>, cur: Vertex, next: nat)
    returns (stack': seq<Frame>, cur': Vertex, log': seq<Step>)
    requires RunOk(run) && run.g == g && run.view == view && run.term == term
    requires Inv(run, log, stack + [Frame(cur, next)]) && next <= |OutArcs(g, view, cur)|
    requires Mirrors(run, vis, vcolor, ecolor, log)
    modifies vis, vcolor, ecolor
    ensures Inv(run, log', stack' + [Frame(cur', |OutArcs(g, view, cur')|)])
    ensures Mirrors(run, vis, vcolor, ecolor, log')
    ensures WhiteSet(g, vcolor.entries) < old(WhiteSet(g, vcolor.entries))
            || (WhiteSet(g, vcolor.entries) == old(WhiteSet(g, vcolor.entries)) && |stack'| == |stack|)
  {
    ghost var white0 := WhiteSet(g, vcolor.entries);
    stack', cur', log' := stack, cur, log;
    var n: nat := next;
    while n < |OutArcs(g, view, cur')|
      invariant n <= |OutArcs(g, view, cur')|
      invariant Inv(run, log', stack' + [Frame(cur', n)])
      invariant Mirrors(run, vis, vcolor, ecolor, log')
      invariant WhiteSet(g, vcolor.entries) < white0 || (WhiteSet(g, vcolor.entries) == white0 && |stack'| == |stack|)
      decreases WhiteSet(g, vcolor.entries), |OutArcs(g, view, cur')| - n
    {
      stack', cur', n, log' := ExamineArc(run, g, view, vis, term, vcolor, ecolor, log', stack', cur', n);
    }
  }

  /**
   * One pass of the inner loop: examines the next arc of the top vertex `cur`,
   * reading the target's colour and, with edge colours, the edge's colour
   * before turning the edge black. A white target makes a tree edge (see
   * `Descend`); otherwise the arc is classified and the position moves on.
   */
  method ExamineArc(ghost run: Run, g: Graph, view: View, vis: Visitor, term: Terminator,
                    vcolor: ColorMap, ecolor: array?<Color>,
                    log: seq<Step>, stack: seq<Frame>, cur: Vertex, next: nat)
    returns (stack': seq<Frame>, cur': Vertex, next': nat, log': seq<Step>)
    requires RunOk(run) && run.g == g && run.view == view && run.term == term
    requires Inv(run, log, stack + [Frame(cur, next)]) && next < |OutArcs(g, view, cur)|
    requires Mirrors(run, vis, vcolor, ecolor, log)
    modifies vis, vcolor, ecolor
    ensures Inv(run, log', stack' + [Frame(cur', next')]) && next' <= |OutArcs(g, view, cur')|
    ensures Mirrors(run, vis, vcolor, ecolor, log')
    ensures || (WhiteSet(g, vcolor.entries) < old(WhiteSet(g, vcolor.entries)) && |stack'| == |stack| + 1)
            || (WhiteSet(g, vcolor.entries) == old(WhiteSet(g, vcolor.entries))
                && |stack'| == |stack| && cur' == cur && next' == next + 1)
  {
    var a := OutArcs(g, view, cur)[next];
    ArcFacts(g, view, cur, a);
    var k := ClassifyArc(run, g, vcolor, ecolor, log, a);
    var s := Examine(a, k);
    vis.Notify(s, term);
    ReplayAppend(run.role, term, run.s0, log, s);
    if k == Tree {
      stack', cur', next', log' := Descend(run, g, view, vis, term, vcolor, ecolor, log, stack, cur, next);
    } else {
      InvNonTree(run, log, stack, cur, next, k);
      log' := log + [s];
      stack', cur', next' := stack, cur, next + 1;
    }
  }

  /**
   * Reads the colour of the arc's target (storing white for a vertex the map
   * has never seen) and, with edge colours, the colour of its edge, which it
   * then turns black; answers the classification those colours give.
   */
  method ClassifyArc(ghost run: Run, g: Graph, vcolor: ColorMap, ecolor: array?<Color>,
                     log: seq<Step>, a: Arc)
    returns (k: Kind)
    requires run.g == g && a.edge < |g.edges| && (run.edgeColored ==> |run.e0| == |g.edges|)
    requires ColorsMirror(run, vcolor.entries, log)
    requires ecolor != null <==> run.edgeColored
    requires ecolor != null ==> EdgesMirror(run, ecolor[..], log)
    modifies vcolor, ecolor
    ensures k == Classify(ColorAfter(run.v0, log, a.target),
                          EdgeColorAfter(run.e0, log, a.edge, run.edgeColored), run.edgeColored)
    ensures ColorsMirror(run, vcolor.entries, log + [Examine(a, k)])
    ensures ecolor != null ==> EdgesMirror(run, ecolor[..], log + [Examine(a, k)])
    ensures WhiteSet(g, vcolor.entries) == old(WhiteSet(g, vcolor.entries))
  {
    ghost var entries0 := vcolor.entries;
    var c := vcolor.Lookup(a.target);
    WhiteSetSame(g, entries0, vcolor.entries);
    var uv := White;
    if ecolor != null {
      uv := ecolor[a.edge];
      ghost var es0 := ecolor[..];
      ecolor[a.edge] := Black;
      assert ecolor[..] == es0[a.edge := Black];
    }
    k := if c == White then Tree
         else if c == Black then ForwardOrCross
         else if ecolor == null || uv == White then Back
         else Unreported;
    ColorsSame(run, entries0, vcolor.entries, log, Examine(a, k));
    if ecolor != null {
      EdgesExamine(run, old(ecolor[..]), log, Examine(a, k));
    }
  }

  /**
   * The tree-edge branch: the current frame, moved one arc on, goes back on
   * the stack; the target turns gray, is discovered and becomes the top, with
   * its arcs emptied when the terminator prunes it.
   */
  method Descend(ghost run: Run, g: Graph, view: View, vis: Visitor, term: Terminator,
                 vcolor: ColorMap, ecolor: array?<Color>,
                 log: seq<Step>, stack: seq<Frame>, cur: Vertex, next: nat)
    returns (stack': seq<Frame>, cur': Vertex, next': nat, log': seq<Step>)
    requires RunOk(run) && run.g == g && run.view == view && run.term == term
    requires Inv(run, log, stack + [Frame(cur, next)]) && next < |OutArcs(g, view, cur)|
    requires ColorAfter(run.v0, log, OutArcs(g, view, cur)[next].target) == White
    requires Mirrors(run, vis, vcolor, ecolor, log + [Examine(OutArcs(g, view, cur)[next], Tree)])
    modifies vis, vcolor
    ensures Inv(run, log', stack' + [Frame(cur', next')]) && next' <= |OutArcs(g, view, cur')|
    ensures Mirrors(run, vis, vcolor, ecolor, log')
    ensures WhiteSet(g, vcolor.entries) < old(WhiteSet(g, vcolor.entries)) && stack' == stack + [Frame(cur, next + 1)]
  {
    var a := OutArcs(g, view, cur)[next];
    var log1 := log + [Examine(a, Tree)];
    ArcFacts(g, view, cur, a);
    stack' := stack + [Frame(cur, next + 1)];
    cur' := a.target;
    GrayMeans(run, log, cur');
    AppendMembershipFacts(log, Examine(a, Tree));
    WhiteSetPut(g, vcolor.entries, cur', Gray);
    vcolor.Put(cur', Gray);
    var pruned := vis.DiscoverVertex(cur', term);
    InvTree(run, log, stack, cur, next, pruned);
    ReplayAppend(run.role, term, run.s0, log1, Discover(cur', pruned));
    ColorsPut(run, old(vcolor.entries), log1, Discover(cur', pruned));
    if ecolor != null {
      EdgesKeep(run, ecolor[..], log1, Discover(cur', pruned));
    }
    log' := log1 + [Discover(cur', pruned)];
    next' := if pruned then |OutArcs(g, view, cur')| else 0;
  }

  /** After the inner loop: the top vertex, its range exhausted, turns black and is finished. */
  method FinishTop(ghost run: Run, g: Graph, view: View, vis: Visitor, term: Terminator,
                   vcolor: ColorMap, ecolor: array?<Color>,
                   log: seq<Step>, stack: seq<Frame>, cur: Vertex)
    returns (log': seq<Step>)
    requires RunOk(run) && run.g == g && run.view == view && run.term == term
    requires Inv(run, log, stack + [Frame(cur, |OutArcs(g, view, cur)|)])
    requires Mirrors(run, vis, vcolor, ecolor, log)
    modifies vis, vcolor
    ensures Inv(run, log', stack) && Mirrors(run, vis, vcolor, ecolor, log')
    ensures WhiteSet(g, vcolor.entries) == old(WhiteSet(g, vcolor.entries))
  {
    assert (stack + [Frame(cur, |OutArcs(g, view, cur)|)])[|stack|].v == cur;
    assert Discovered(log, cur) && Get(vcolor.entries, cur, White) == ColorAfter(run.v0, log, cur) != White;
    WhiteSetPut(g, vcolor.entries, cur, Black);
    vcolor.Put(cur, Black);
    vis.Notify(Finish(cur), term);
    InvFinish(run, log, stack, cur);
    ReplayAppend(run.role, term, run.s0, log, Finish(cur));
    ColorsPut(run, old(vcolor.entries), log, Finish(cur));
    if ecolor != null {
      EdgesKeep(run, ecolor[..], log, Finish(cur));
    }
    log' := log + [Finish(cur)];
  }

  /** The final colours: black for every discovered vertex, and, with edge colours, black for every examined edge. */
  lemma {:induction false} KernelDone(run: Run, m: map<Vertex, Color>, es: seq<Color>, log: seq<Step>)
    requires Inv(run, log, []) && ColorsMirror(run, m, log)
    requires run.edgeColored ==> EdgesMirror(run, es, log)
    ensures DfsWalk(run, log)
    ensures forall v :: Get(m, v, White) == if Discovered(log, v) then Black else Get(run.v0, v, White)
    ensures run.edgeColored ==>
              forall e :: 0 <= e < |es| ==> es[e] == if e in ExaminedEdges(log) then Black else run.e0[e]
  {
    InvDone(run, log);
  }

  // ---- undirected_depth_first_visit ----

  /**
   * The undirected walk: the kernel over the undirected view of the graph,
   * with one colour per edge. An edge examined once, from either end, is never
   * reported as a back edge again, so the tree edge that discovered a vertex
   * does not come back as a back edge from it.
   */
  method UndirectedDepthFirstVisit(g: Graph, u: Vertex, vis: Visitor, vcolor: ColorMap, ecolor: array<Color>,
                                   term: Terminator) returns (log: seq<Step>)
    requires g.Valid() && u in g.vertices
    requires vcolor.At(u) == White && forall v :: v in g.vertices ==> vcolor.At(v) != Gray
    requires ecolor.Length == |g.edges|
    modifies vis, vcolor, ecolor
    ensures DfsWalk(old(RunOf(g, Undirected, u, vis, term, vcolor, ecolor)), log)
    ensures forall i, j ::
              0 <= i < j < |log| && log[i].Examine? && log[j].Examine? && log[i].arc.edge == log[j].arc.edge
              ==> log[j].kind != Back
    ensures vis.Snap() == Replay(vis.role, term, old(vis.Snap()), log)
    ensures forall v :: vcolor.At(v) == if Discovered(log, v) then Black else old(vcolor.At(v))
    ensures forall e :: 0 <= e < ecolor.Length ==> ecolor[e] == if e in ExaminedEdges(log) then Black else old(ecolor[e])
  {
    ghost var run := RunOf(g, Undirected, u, vis, term, vcolor, ecolor);
    log := DepthFirstVisit(g, Undirected, u, vis, term, vcolor, ecolor);
    BackOnlyFirst(run, log);
  }

  // ---- undirected_dfs: the whole-graph driver ----

  /** The colours the driver's history gives the graph's vertices: black once discovered, white before. */
  ghost function PaintOf(g: Graph, log: seq<Step>): map<Vertex, Color>
  {
    map v | v in g.vertices :: if Discovered(log, v) then Black else White
  }

  /** The colours the driver's history gives the stored edges: black once examined, white before. */
  ghost function EdgePaint(g: Graph, log: seq<Step>): seq<Color>
  {
    seq(|g.edges|, e requires 0 <= e < |g.edges| => if e in ExaminedEdges(log) then Black else White)
  }

  /**
   * The walk the driver starts at `r` once the history is `log`: over the
   * undirected view, with edge colours, a terminator that never prunes, and
   * the colours and visitor state that history leaves.
   */
  ghost function DriverRun(g: Graph, role: Role, s0: Snapshot, log: seq<Step>, r: Vertex): Run
  {
    Run(g, Undirected, r, PaintOf(g, log), EdgePaint(g, log), true, role, Never, Replay(role, Never, s0, log + [Start(r)]))
  }

  /** The driver's first loop, as a history: one `Initialize` per vertex, in vertex order. */
  function Initializes(vs: seq<Vertex>): (r: seq<Step>)
    ensures |r| == |vs| && forall k :: 0 <= k < |vs| ==> r[k] == Initialize(vs[k])
  {
    seq(|vs|, k requires 0 <= k < |vs| => Initialize(vs[k]))
  }

  /**
   * The history of the driver's last loop over `vs`, after `log`, given one
   * segment per vertex: a vertex the history so far has discovered adds
   * nothing; any other one adds `Start` and its segment.
   */
  ghost function SweepLog(vs: seq<Vertex>, log: seq<Step>, segs: seq<seq<Step>>): seq<Step>
    requires |segs| == |vs|
  {
    if vs == [] then log
    else
      var n := |vs| - 1;
      var mid := SweepLog(vs[..n], log, segs[..n]);
      if Discovered(mid, vs[n]) then mid else mid + [Start(vs[n])] + segs[n]
  }

  /**
   * The segments of the driver's last loop: a skipped vertex has none, and the
   * segment of any other vertex is the undirected walk from it, in the colours
   * the history before it leaves.
   */
  ghost predicate SweepWalks(g: Graph, role: Role, s0: Snapshot, vs: seq<Vertex>, log: seq<Step>, segs: seq<seq<Step>>)
  {
    && |segs| == |vs|
    && (vs != [] ==>
          var n := |vs| - 1;
          var mid := SweepLog(vs[..n], log, segs[..n]);
          && SweepWalks(g, role, s0, vs[..n], log, segs[..n])
          && (Discovered(mid, vs[n]) ==> segs[n] == [])
          && (!Discovered(mid, vs[n]) ==> DfsWalk(DriverRun(g, role, s0, mid, vs[n]), segs[n])))
  }

  /** The last loop's history so far: `log'` is `log` followed by the walks `segs` of the vertices `vs`. */
  ghost predicate Swept(g: Graph, role: Role, s0: Snapshot, vs: seq<Vertex>, log: seq<Step>, segs: seq<seq<Step>>,
                        log': seq<Step>)
  {
    SweepWalks(g, role, s0, vs, log, segs) && log' == SweepLog(vs, log, segs)
  }

  /** One more vertex of the last loop: its segment, if any, follows the history so far. */
  lemma SweepStep(g: Graph, role: Role, s0: Snapshot, vs: seq<Vertex>, i: nat, log: seq<Step>, segs: seq<seq<Step>>,
                  seg: seq<Step>)
    requires i < |vs| && SweepWalks(g, role, s0, vs[..i], log, segs)
    requires Discovered(SweepLog(vs[..i], log, segs), vs[i]) ==> seg == []
    requires !Discovered(SweepLog(vs[..i], log, segs), vs[i]) ==>
               DfsWalk(DriverRun(g, role, s0, SweepLog(vs[..i], log, segs), vs[i]), seg)
    ensures Swept(g, role, s0, vs[..i + 1], log, segs + [seg],
                  if Discovered(SweepLog(vs[..i], log, segs), vs[i]) then SweepLog(vs[..i], log, segs)
                  else SweepLog(vs[..i], log, segs) + [Start(vs[i])] + seg)
  {
    assert vs[..i + 1][..i] == vs[..i] && vs[..i + 1][i] == vs[i] && (segs + [seg])[..i] == segs;
  }

  /**
   * What the driver keeps between walks: no vertex is gray, the history
   * discovers only vertices of the graph, each once, and exactly the black
   * ones, an edge is black exactly when the history examined it, and every
   * edge whose source is black is black.
   */
  ghost predicate Painted(g: Graph, m: map<Vertex, Color>, es: seq<Color>, log: seq<Step>)
  {
    && |es| == |g.edges|
    && (forall v :: v in g.vertices ==> Get(m, v, White) != Gray)
    && (forall v :: Discovered(log, v) ==> v in g.vertices)
    && (forall v :: v in g.vertices ==> (Discovered(log, v) <==> Get(m, v, White) == Black))
    && es == EdgePaint(g, log)
    && (forall e :: 0 <= e < |es| && Get(m, g.edges[e].source, White) == Black ==> es[e] == Black)
    && OnceEach(log)
  }

  lemma PaintedSame(g: Graph, m: map<Vertex, Color>, m': map<Vertex, Color>, es: seq<Color>, log: seq<Step>)
    requires Painted(g, m, es, log) && forall v :: Get(m', v, White) == Get(m, v, White)
    ensures Painted(g, m', es, log)
  {
  }

  lemma {:induction false} ExaminedEdgesConcat(a: seq<Step>, b: seq<Step>)
    ensures ExaminedEdges(a + b) == ExaminedEdges(a) + ExaminedEdges(b)
    decreases |b|
  {
    if b != [] {
      InitLast(b);
      ExaminedEdgesConcat(a, Init(b));
      assert a + b == (a + Init(b)) + [Last(b)];
      AppendRecursiveFacts(a + Init(b), Last(b));
      AppendRecursiveFacts(Init(b), Last(b));
    } else {
      assert a + b == a;
    }
  }

  lemma {:induction false} InitializesExamineNothing(vs: seq<Vertex>)
    ensures ExaminedEdges(Initializes(vs)) == {}
    decreases |vs|
  {
    if vs != [] {
      var n := |vs| - 1;
      assert Initializes(vs) == Initializes(vs[..n]) + [Initialize(vs[n])];
      InitializesExamineNothing(vs[..n]);
      AppendRecursiveFacts(Initializes(vs[..n]), Initialize(vs[n]));
    }
  }

  /** A walk reads the colour map only at vertices of the graph: another map that agrees there gives the same walk. */
  lemma WalkRecolored(run: Run, m: map<Vertex, Color>, seg: seq<Step>)
    requires RunOk(run) && DfsWalk(run, seg)
    requires forall v :: v in run.g.vertices ==> Get(m, v, White) == Get(run.v0, v, White)
    ensures DfsWalk(run.(v0 := m), seg)
  {
    var run' := run.(v0 := m);
    forall i | 0 <= i < |seg|
      ensures StepOk(run', seg[..i], seg[i])
    {
      assert StepOk(run, seg[..i], seg[i]);
      if seg[i].Examine? {
        ArcFacts(run.g, run.view, seg[i].arc.source, seg[i].arc);
      }
    }
    var vs := set v | v in run.g.vertices;
    forall x, y | x in vs && y in Successors(run.g, run.view, x) && y !in {}
      ensures y in vs
    {
      var a :| a in OutArcs(run.g, run.view, x) && a.target == y;
      ArcFacts(run.g, run.view, x, a);
    }
    forall w | Discovered(seg, w)
      ensures ReachesAvoiding(run.g, run.view, run.root, w, Avoid(run'))
    {
      assert ReachesAvoiding(run.g, run.view, run.root, w, Avoid(run));
      var p :| IsPath(run.g, run.view, p) && p[0] == run.root && p[|p| - 1] == w
               && (forall k :: 0 <= k < |p| ==> p[k] !in Avoid(run));
      forall k | 0 <= k < |p|
        ensures p[k] !in Avoid(run')
      {
        PathInside(run.g, run.view, p, {}, vs, k);
      }
      PathReaches(run.g, run.view, p, Avoid(run'));
    }
  }

  /** The facts of a walk over the undirected view from a white root that the driver's invariant needs. */
  ghost predicate DriverWalk(run: Run, m: map<Vertex, Color>, es: seq<Color>, seg: seq<Step>)
  {
    && run.view == Undirected && run.term == Never && run.edgeColored && run.v0 == m && run.e0 == es
    && RunOk(run) && DfsWalk(run, seg)
  }

  /** A walk over the undirected view from a white root keeps the driver's invariant. */
  lemma {:induction false} PaintedAfter(run: Run, m: map<Vertex, Color>, es: seq<Color>, log: seq<Step>,
                     m': map<Vertex, Color>, es': seq<Color>, seg: seq<Step>)
    requires DriverWalk(run, m, es, seg) && Painted(run.g, m, es, log)
    requires forall v :: Get(m', v, White) == if Discovered(seg, v) then Black else Get(m, v, White)
    requires |es'| == |es| && forall e :: 0 <= e < |es'| ==> es'[e] == if e in ExaminedEdges(seg) then Black else es[e]
    ensures Painted(run.g, m', es', log + [Start(run.root)] + seg)
  {
    PaintedOnce(run, m, es, log, seg);
    PaintedColors(run, m, es, log, m', seg);
    PaintedEdges(run, m, es, log, m', es', seg);
    PaintedEdgeLog(run.g, es, log, es', seg, run.root);
  }

  lemma PaintedEdgeLog(g: Graph, es: seq<Color>, log: seq<Step>, es': seq<Color>, seg: seq<Step>, r: Vertex)
    requires es == EdgePaint(g, log)
    requires |es'| == |es| && forall e :: 0 <= e < |es'| ==> es'[e] == if e in ExaminedEdges(seg) then Black else es[e]
    ensures es' == EdgePaint(g, log + [Start(r)] + seg)
  {
    ExaminedEdgesConcat(log, [Start(r)]);
    ExaminedEdgesConcat(log + [Start(r)], seg);
    AppendRecursiveFacts([], Start(r));
    assert [] + [Start(r)] == [Start(r)];
  }

  lemma PaintedColors(run: Run, m: map<Vertex, Color>, es: seq<Color>, log: seq<Step>,
                      m': map<Vertex, Color>, seg: seq<Step>)
    requires DriverWalk(run, m, es, seg) && Painted(run.g, m, es, log)
    requires forall v :: Get(m', v, White) == if Discovered(seg, v) then Black else Get(m, v, White)
    ensures forall v :: v in run.g.vertices ==> Get(m', v, White) != Gray
    ensures forall v :: Discovered(log + [Start(run.root)] + seg, v) ==> v in run.g.vertices
    ensures forall v :: v in run.g.vertices ==>
              (Discovered(log + [Start(run.root)] + seg, v) <==> Get(m', v, White) == Black)
  {
    DiscoveredInGraph(run, seg);
    DiscoveredConcat(log, [Start(run.root)]);
    DiscoveredConcat(log + [Start(run.root)], seg);
    assert forall v :: !Discovered([Start(run.root)], v);
  }

  lemma PaintedOnce(run: Run, m: map<Vertex, Color>, es: seq<Color>, log: seq<Step>, seg: seq<Step>)
    requires DriverWalk(run, m, es, seg) && Painted(run.g, m, es, log)
    ensures OnceEach(log + [Start(run.root)] + seg)
  {
    DiscoverOnce(run, seg);
    forall v | Discovered(seg, v)
      ensures !Discovered(log, v)
    {
      ReachedOutside(run.g, Undirected, run.root, v, Avoid(run));
    }
    assert OnceEach([Start(run.root)]);
    OnceEachConcat(log, [Start(run.root)]);
    OnceEachConcat(log + [Start(run.root)], seg);
  }

  lemma {:induction false} PaintedEdges(run: Run, m: map<Vertex, Color>, es: seq<Color>, log: seq<Step>,
                     m': map<Vertex, Color>, es': seq<Color>, seg: seq<Step>)
    requires DriverWalk(run, m, es, seg) && Painted(run.g, m, es, log)
    requires forall v :: Get(m', v, White) == if Discovered(seg, v) then Black else Get(m, v, White)
    requires |es'| == |es| && forall e :: 0 <= e < |es'| ==> es'[e] == if e in ExaminedEdges(seg) then Black else es[e]
    ensures forall e :: 0 <= e < |es'| && Get(m', run.g.edges[e].source, White) == Black ==> es'[e] == Black
  {
    NeverPrunes(run, seg);
    forall e | 0 <= e < |es'| && Get(m', run.g.edges[e].source, White) == Black
      ensures es'[e] == Black
    {
      if Discovered(seg, run.g.edges[e].source) {
        EdgesOfDiscovered(run, seg, e);
      }
    }
  }

  /** Once every vertex is black, every vertex was discovered once and every edge is black. */
  lemma PaintedDone(g: Graph, m: map<Vertex, Color>, es: seq<Color>, log: seq<Step>)
    requires g.Valid() && Painted(g, m, es, log)
    requires forall v :: v in g.vertices ==> Get(m, v, White) == Black
    ensures forall v :: Discovered(log, v) <==> v in g.vertices
    ensures forall e :: 0 <= e < |es| ==> es[e] == Black
  {
    forall e | 0 <= e < |es|
      ensures es[e] == Black
    {
      assert g.edges[e].source in g.vertices;
    }
  }

  /**
   * `start_vertex`, then the undirected walk from the white vertex `r`, with
   * the terminator that never prunes: the history grows by `Start` and the
   * walk from `r` in the colours the history so far leaves.
   */
  method VisitRoot(g: Graph, vis: Visitor, vcolor: ColorMap, ecolor: array<Color>, r: Vertex,
                   ghost s0: Snapshot, log: seq<Step>) returns (log': seq<Step>, ghost seg: seq<Step>)
    requires g.Valid() && r in g.vertices && vcolor.At(r) == White
    requires Painted(g, vcolor.entries, ecolor[..], log)
    requires vis.Snap() == Replay(vis.role, Never, s0, log)
    modifies vis, vcolor, ecolor
    ensures log' == log + [Start(r)] + seg
    ensures DfsWalk(DriverRun(g, vis.role, s0, log, r), seg)
    ensures Painted(g, vcolor.entries, ecolor[..], log') && vcolor.At(r) == Black
    ensures forall v :: old(vcolor.At(v)) != White ==> vcolor.At(v) == old(vcolor.At(v))
    ensures vis.Snap() == Replay(vis.role, Never, s0, log')
  {
    vis.Notify(Start(r), Never);
    ReplayAppend(vis.role, Never, s0, log, Start(r));
    ghost var run := RunOf(g, Undirected, r, vis, Never, vcolor, ecolor);
    ghost var m, es := vcolor.entries, ecolor[..];
    var walk := UndirectedDepthFirstVisit(g, r, vis, vcolor, ecolor, Never);
    seg := walk;
    ReplayConcat(vis.role, Never, s0, log + [Start(r)], seg);
    log' := log + [Start(r)] + walk;
    assert seg[0] in seg;
    PaintedAfter(run, m, es, log, vcolor.entries, ecolor[..], seg);
    WalkRecolored(run, PaintOf(g, log), seg);
    assert run.(v0 := PaintOf(g, log)) == DriverRun(g, vis.role, s0, log, r);
  }

  /**
   * One round of the driver's last loop: a vertex the history has not
   * discovered (a white one) starts a new walk; any other adds nothing.
   */
  method VisitIfWhite(g: Graph, vis: Visitor, vcolor: ColorMap, ecolor: array<Color>, v: Vertex,
                      ghost s0: Snapshot, log: seq<Step>) returns (log': seq<Step>, ghost seg: seq<Step>)
    requires g.Valid() && v in g.vertices
    requires Painted(g, vcolor.entries, ecolor[..], log)
    requires vis.Snap() == Replay(vis.role, Never, s0, log)
    modifies vis, vcolor, ecolor
    ensures Discovered(log, v) ==> log' == log && seg == []
    ensures !Discovered(log, v) ==> log' == log + [Start(v)] + seg && DfsWalk(DriverRun(g, vis.role, s0, log, v), seg)
    ensures Painted(g, vcolor.entries, ecolor[..], log') && vcolor.At(v) == Black
    ensures forall w :: old(vcolor.At(w)) != White ==> vcolor.At(w) == old(vcolor.At(w))
    ensures vis.Snap() == Replay(vis.role, Never, s0, log')
  {
    ghost var m := vcolor.entries;
    var c := vcolor.Lookup(v);
    PaintedSame(g, m, vcolor.entries, ecolor[..], log);
    log', seg := log, [];
    if c == White {
      log', seg := VisitRoot(g, vis, vcolor, ecolor, v, s0, log);
    }
  }

  /** One white colour per stored edge. */
  function AllWhite(n: nat): (r: seq<Color>)
    ensures |r| == n && forall e :: 0 <= e < n ==> r[e] == White
  {
    seq(n, _ => White)
  }

  /** The loop over the stored edges that paints each of them white. */
  method WhitenEdges(ecolor: array<Color>)
    modifies ecolor
    ensures ecolor[..] == AllWhite(ecolor.Length)
  {
    var e: nat := 0;
    while e < ecolor.Length
      modifies ecolor
      invariant e <= ecolor.Length
      invariant forall k :: 0 <= k < e ==> ecolor[k] == White
    {
      ecolor[e] := White;
      e := e + 1;
    }
  }

  /**
   * The driver's last loop: every vertex, in vertex order, that the history
   * has not discovered by its turn starts a new walk.
   */
  method VisitAllWhite(g: Graph, vis: Visitor, vcolor: ColorMap, ecolor: array<Color>,
                       ghost s0: Snapshot, log: seq<Step>) returns (log': seq<Step>, ghost segs: seq<seq<Step>>)
    requires g.Valid() && Painted(g, vcolor.entries, ecolor[..], log)
    requires vis.Snap() == Replay(vis.role, Never, s0, log)
    modifies vis, vcolor, ecolor
    ensures SweepWalks(g, vis.role, s0, g.vertices, log, segs) && log' == SweepLog(g.vertices, log, segs)
    ensures Painted(g, vcolor.entries, ecolor[..], log')
    ensures forall v :: v in g.vertices ==> vcolor.At(v) == Black
    ensures vis.Snap() == Replay(vis.role, Never, s0, log')
  {
    log', segs := log, [];
    var i: nat := 0;
    while i < |g.vertices|
      invariant i <= |g.vertices|
      invariant Swept(g, vis.role, s0, g.vertices[..i], log, segs, log')
      invariant Painted(g, vcolor.entries, ecolor[..], log')
      invariant forall k :: 0 <= k < i ==> vcolor.At(g.vertices[k]) == Black
      invariant vis.Snap() == Replay(vis.role, Never, s0, log')
    {
      ghost var seg;
      log', seg := VisitIfWhite(g, vis, vcolor, ecolor, g.vertices[i], s0, log');
      SweepStep(g, vis.role, s0, g.vertices, i, log, segs, seg);
      segs := segs + [seg];
      i := i + 1;
    }
    assert g.vertices[..i] == g.vertices;
    forall v | v in g.vertices
      ensures vcolor.At(v) == Black
    {
      var k :| 0 <= k < |g.vertices| && g.vertices[k] == v;
    }
  }

  /** The driver's first loop: every vertex white and initialised, in vertex order. */
  method InitializeVertices(g: Graph, vis: Visitor, vcolor: ColorMap) returns (log: seq<Step>)
    requires g.Valid()
    modifies vis, vcolor
    ensures forall v :: v in g.vertices ==> vcolor.At(v) == White
    ensures |log| == |g.vertices| && forall k :: 0 <= k < |log| ==> log[k] == Initialize(g.vertices[k])
    ensures vis.Snap() == Replay(vis.role, Never, old(vis.Snap()), log)
  {
    ghost var s0 := vis.Snap();
    log := [];
    var i: nat := 0;
    while i < |g.vertices|
      modifies vis, vcolor
      invariant i <= |g.vertices|
      invariant forall k :: 0 <= k < i ==> vcolor.At(g.vertices[k]) == White
      invariant |log| == i && forall k :: 0 <= k < i ==> log[k] == Initialize(g.vertices[k])
      invariant vis.Snap() == Replay(vis.role, Never, s0, log)
    {
      vcolor.Put(g.vertices[i], White);
      vis.Notify(Initialize(g.vertices[i]), Never);
      ReplayAppend(vis.role, Never, s0, log, Initialize(g.vertices[i]));
      log := log + [Initialize(g.vertices[i])];
      i := i + 1;
    }
    forall v | v in g.vertices
      ensures vcolor.At(v) == White
    {
      var k :| 0 <= k < |g.vertices| && g.vertices[k] == v;
    }
  }

  /** The driver's first two loops: every vertex white and initialised, in vertex order; every edge white. */
  method ResetAll(g: Graph, vis: Visitor, vcolor: ColorMap, ecolor: array<Color>) returns (log: seq<Step>)
    requires g.Valid() && ecolor.Length == |g.edges|
    modifies vis, vcolor, ecolor
    ensures Painted(g, vcolor.entries, ecolor[..], log)
    ensures forall v :: v in g.vertices ==> vcolor.At(v) == White
    ensures log == Initializes(g.vertices)
    ensures vis.Snap() == Replay(vis.role, Never, old(vis.Snap()), log)
  {
    log := InitializeVertices(g, vis, vcolor);
    WhitenEdges(ecolor);
    assert log == Initializes(g.vertices);
    InitializesExamineNothing(g.vertices);
    assert forall v :: !Discovered(log, v);
  }

  /**
   * The driver up to its last loop: the reset, then, when `start` is not the
   * first vertex, `Start(start)` and the walk from it.
   */
  method ResetAndStart(g: Graph, vis: Visitor, vcolor: ColorMap, ecolor: array<Color>, start: Vertex)
    returns (log: seq<Step>, ghost first: seq<Step>)
    requires g.Valid() && start in g.vertices && ecolor.Length == |g.edges|
    modifies vis, vcolor, ecolor
    ensures start == g.vertices[0] ==> first == []
    ensures start != g.vertices[0] ==> DfsWalk(DriverRun(g, vis.role, old(vis.Snap()), Initializes(g.vertices), start), first)
    ensures log == Initializes(g.vertices) + (if start == g.vertices[0] then [] else [Start(start)] + first)
    ensures Painted(g, vcolor.entries, ecolor[..], log)
    ensures vis.Snap() == Replay(vis.role, Never, old(vis.Snap()), log)
  {
    ghost var s0 := vis.Snap();
    log := ResetAll(g, vis, vcolor, ecolor);
    first := [];
    if start != g.vertices[0] {
      log, first := VisitRoot(g, vis, vcolor, ecolor, start, s0, log);
    } else {
      assert log == log + [];
    }
  }

  /**
   * `undirected_dfs`: every vertex is reset to white and initialised, every
   * edge to white; the walk starts at `start` if it is not the first vertex,
   * then at every vertex still white, in vertex order. The history is exactly
   * that: the `Initialize` steps, `Start(start)` and its walk `first` unless
   * `start` is the first vertex, then the last loop's walks `segs`. Afterwards
   * every vertex and every edge is black, every vertex was discovered exactly
   * once, and the visitor saw the whole history.
   */
  method UndirectedDfs(g: Graph, vis: Visitor, vcolor: ColorMap, ecolor: array<Color>, start: Vertex)
    returns (log: seq<Step>, ghost first: seq<Step>, ghost segs: seq<seq<Step>>)
    requires g.Valid() && start in g.vertices && ecolor.Length == |g.edges|
    modifies vis, vcolor, ecolor
    ensures start == g.vertices[0] ==> first == []
    ensures start != g.vertices[0] ==> DfsWalk(DriverRun(g, vis.role, old(vis.Snap()), Initializes(g.vertices), start), first)
    ensures var opening := Initializes(g.vertices) + (if start == g.vertices[0] then [] else [Start(start)] + first);
            && SweepWalks(g, vis.role, old(vis.Snap()), g.vertices, opening, segs)
            && log == SweepLog(g.vertices, opening, segs)
    ensures forall v :: v in g.vertices ==> vcolor.At(v) == Black
    ensures forall e :: 0 <= e < ecolor.Length ==> ecolor[e] == Black
    ensures forall v :: Discovered(log, v) <==> v in g.vertices
    ensures OnceEach(log)
    ensures vis.Snap() == Replay(vis.role, Never, old(vis.Snap()), log)
  {
    ghost var s0 := vis.Snap();
    log, first := ResetAndStart(g, vis, vcolor, ecolor, start);
    log, segs := VisitAllWhite(g, vis, vcolor, ecolor, s0, log);
    PaintedDone(g, vcolor.entries, ecolor[..], log);
    assert forall k :: 0 <= k < ecolor.Length ==> ecolor[k] == ecolor[..][k];
  }
}
