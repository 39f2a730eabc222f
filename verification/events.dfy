/**
 * The history of a walk: what the kernels tell their visitor, in order, and
 * the colours that history implies.
 *
 * An `Examine` step carries the classification the walk gave the arc, so an
 * examination yields exactly one step and at most one classification.
 * `Unreported` is the undirected walk's silence for an edge reached again from
 * its far endpoint; `NonTree` is the breadth-first walk's only non-tree kind.
 */
module Events {
  import opened Graphs
  import opened Colors

  datatype Kind = Tree | Back | ForwardOrCross | Unreported | NonTree

  datatype Step =
    | Initialize(v: Vertex)          // initialize_vertex of a whole-graph walk
    | Start(v: Vertex)               // start_vertex of a whole-graph walk
    | Discover(v: Vertex, pruned: bool)  // discover_vertex, and whether the terminator emptied v's edge range
    | Examine(arc: Arc, kind: Kind)  // examine_edge and its classification
    | Finish(v: Vertex)              // finish_vertex
    | Dequeue(v: Vertex)             // examine_vertex of the breadth-first walk

  function Last(log: seq<Step>): Step
    requires |log| > 0
  {
    log[|log| - 1]
  }

  function Init(log: seq<Step>): seq<Step>
    requires |log| > 0
  {
    log[..|log| - 1]
  }

  lemma InitLast(log: seq<Step>)
    requires |log| > 0
    ensures Init(log) + [Last(log)] == log
  {
  }

  lemma InitOfAppend(log: seq<Step>, s: Step)
    ensures Init(log + [s]) == log && Last(log + [s]) == s
  {
    assert (log + [s])[..|log|] == log;
  }

  ghost predicate Discovered(log: seq<Step>, w: Vertex)
  {
    Discover(w, false) in log || Discover(w, true) in log
  }

  ghost predicate Finished(log: seq<Step>, w: Vertex)
  {
    Finish(w) in log
  }

  /** The terminator answered true when `w` was discovered. */
  ghost predicate Pruned(log: seq<Step>, w: Vertex)
  {
    Discover(w, true) in log
  }

  /** Identities of the edges examined so far. */
  ghost function ExaminedEdges(log: seq<Step>): set<nat>
  {
    if log == [] then {}
    else ExaminedEdges(Init(log)) + (if Last(log).Examine? then {Last(log).arc.edge} else {})
  }

  /** The arcs examined from `w`, in the order they were examined. */
  ghost function ExaminedFrom(log: seq<Step>, w: Vertex): seq<Arc>
  {
    if log == [] then []
    else ExaminedFrom(Init(log), w) + (if Last(log).Examine? && Last(log).arc.source == w then [Last(log).arc] else [])
  }

  /** The position of the first discovery of `w`. */
  ghost function DiscoverTime(log: seq<Step>, w: Vertex): (t: nat)
    requires Discovered(log, w)
    ensures t < |log| && log[t].Discover? && log[t].v == w
    ensures !Discovered(log[..t], w)
  {
    InitLast(log);
    if Discovered(Init(log), w) then
      var t := DiscoverTime(Init(log), w);
      assert log[..t] == Init(log)[..t];
      t
    else
      assert log[..|log| - 1] == Init(log);
      |log| - 1
  }

  /** The vertices finished so far, in finishing order. */
  function FinishOrder(log: seq<Step>): seq<Vertex>
  {
    if log == [] then []
    else FinishOrder(Init(log)) + (if Last(log).Finish? then [Last(log).v] else [])
  }

  /** The set of vertices discovered by the history. */
  ghost function DiscoveredSet(log: seq<Step>): set<Vertex>
  {
    set s | s in log && s.Discover? :: s.v
  }

  /**
   * The colour of `v` after the history `log`, starting from the colour map
   * `v0`: black once finished, gray once discovered, otherwise what it was.
   */
  ghost function ColorAfter(v0: map<Vertex, Color>, log: seq<Step>, v: Vertex): Color
  {
    if Finished(log, v) then Black
    else if Discovered(log, v) then Gray
    else Get(v0, v, White)
  }

  /**
   * The colour of edge `e` after the history, starting from the stored edge
   * colours `e0`: black once examined. A walk without edge colours reads
   * every edge as white.
   */
  ghost function EdgeColorAfter(e0: seq<Color>, log: seq<Step>, e: nat, edgeColored: bool): Color
  {
    if !edgeColored || e >= |e0| then White
    else if e in ExaminedEdges(log) then Black
    else e0[e]
  }

  /**
   * How the depth-first walks classify an arc from the colour of its target
   * and, in the undirected walk, the colour of the edge: a white target gives
   * a tree edge; a gray one a back edge unless the edge was already examined;
   * a black one a forward-or-cross edge.
   */
  function Classify(target: Color, edge: Color, edgeColored: bool): Kind
  {
    match target
    case White => Tree
    case Gray => if !edgeColored || edge == White then Back else Unreported
    case Black => ForwardOrCross
  }

  // ---- how the log functions grow by one step ----

  lemma {:induction false} AppendFacts(log: seq<Step>, s: Step)
    ensures forall w :: Discovered(log + [s], w) == (Discovered(log, w) || (s.Discover? && s.v == w))
    ensures forall w :: Finished(log + [s], w) == (Finished(log, w) || s == Finish(w))
    ensures forall w :: Pruned(log + [s], w) == (Pruned(log, w) || s == Discover(w, true))
    ensures ExaminedEdges(log + [s]) == ExaminedEdges(log) + (if s.Examine? then {s.arc.edge} else {})
    ensures forall w :: ExaminedFrom(log + [s], w)
                      == ExaminedFrom(log, w) + (if s.Examine? && s.arc.source == w then [s.arc] else [])
    ensures FinishOrder(log + [s]) == FinishOrder(log) + (if s.Finish? then [s.v] else [])
    ensures forall w :: Discovered(log, w) ==> DiscoverTime(log + [s], w) == DiscoverTime(log, w)
    ensures forall i :: 0 <= i <= |log| ==> (log + [s])[..i] == log[..i]
  {
    AppendMembershipFacts(log, s);
    AppendRecursiveFacts(log, s);
    AppendDiscoverTime(log, s);
    AppendPrefixes(log, s);
  }

  lemma AppendMembershipFacts(log: seq<Step>, s: Step)
    ensures forall w :: Discovered(log + [s], w) == (Discovered(log, w) || (s.Discover? && s.v == w))
    ensures forall w :: Finished(log + [s], w) == (Finished(log, w) || s == Finish(w))
    ensures forall w :: Pruned(log + [s], w) == (Pruned(log, w) || s == Discover(w, true))
  {
    AppendMembership(log, s);
  }

  lemma {:induction false} AppendRecursiveFacts(log: seq<Step>, s: Step)
    ensures ExaminedEdges(log + [s]) == ExaminedEdges(log) + (if s.Examine? then {s.arc.edge} else {})
    ensures forall w :: ExaminedFrom(log + [s], w)
                      == ExaminedFrom(log, w) + (if s.Examine? && s.arc.source == w then [s.arc] else [])
    ensures FinishOrder(log + [s]) == FinishOrder(log) + (if s.Finish? then [s.v] else [])
  {
    InitOfAppend(log, s);
  }

  lemma AppendPrefixes(log: seq<Step>, s: Step)
    ensures forall i :: 0 <= i <= |log| ==> (log + [s])[..i] == log[..i]
  {
  }

  lemma AppendMembership(log: seq<Step>, s: Step)
    ensures forall x :: x in log + [s] <==> x in log || x == s
  {
  }

  lemma {:induction false} AppendDiscoverTime(log: seq<Step>, s: Step)
    ensures forall w :: Discovered(log, w) ==> DiscoverTime(log + [s], w) == DiscoverTime(log, w)
  {
    InitOfAppend(log, s);
    forall w | Discovered(log, w)
      ensures DiscoverTime(log + [s], w) == DiscoverTime(log, w)
    {
      assert Discovered(Init(log + [s]), w);
    }
  }

  lemma AppendDiscoveredSet(log: seq<Step>, s: Step)
    ensures DiscoveredSet(log + [s]) == DiscoveredSet(log) + (if s.Discover? then {s.v} else {})
  {
    AppendMembership(log, s);
  }

  lemma DiscoveredSetMeans(log: seq<Step>)
    ensures forall w :: w in DiscoveredSet(log) <==> Discovered(log, w)
  {
    forall w | Discovered(log, w) ensures w in DiscoveredSet(log) {
      if Discover(w, false) in log {
        assert Discover(w, false).v == w;
      } else {
        assert Discover(w, true).v == w;
      }
    }
    forall w | w in DiscoveredSet(log) ensures Discovered(log, w) {
      var s :| s in log && s.Discover? && s.v == w;
      assert s == Discover(w, s.pruned);
    }
  }

  /** A vertex is discovered by two histories one after the other when one of them discovers it. */
  lemma DiscoveredConcat(a: seq<Step>, b: seq<Step>)
    ensures forall w :: Discovered(a + b, w) <==> Discovered(a, w) || Discovered(b, w)
  {
  }

  /** Whatever is in a prefix of the history is in the history. */
  lemma PrefixIn(log: seq<Step>, i: nat, s: Step)
    requires i <= |log| && s in log[..i]
    ensures s in log
  {
  }
}
