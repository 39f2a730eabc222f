/**
 * Breadth-first search from one root, as each_bfs asks for it: every vertex
 * of the view starts white; the root is discovered and queued; each dequeued
 * vertex examines its arcs in order, a white target giving a tree edge (the
 * target is then discovered and queued at the back) and any other target a
 * non-tree edge; the vertex is then finished. There is no terminator: the
 * walk ignores the prune flag.
 */
module BreadthFirst {
  import opened Graphs
  import opened Colors
  import opened Events
  import opened Visitors
  import opened Walks
  import opened DfsFacts

  /** The vertices in the order the history discovers them. */
  ghost function DiscoverOrder(log: seq<Step>): seq<Vertex>
  {
    if log == [] then [] else DiscoverOrder(Init(log)) + (if Last(log).Discover? then [Last(log).v] else [])
  }

  /** The vertices in the order the history takes them off the queue. */
  ghost function DequeueOrder(log: seq<Step>): seq<Vertex>
  {
    if log == [] then [] else DequeueOrder(Init(log)) + (if Last(log).Dequeue? then [Last(log).v] else [])
  }

  /**
   * The examination at position `i` is classified by what the history before
   * it discovered: a target already discovered gives a non-tree edge; a new
   * one a tree edge, immediately followed by the target's discovery.
   */
  ghost predicate Classified(log: seq<Step>, i: nat)
  {
    i < |log| && log[i].Examine? ==>
      if Discovered(log[..i], log[i].arc.target) then log[i].kind == NonTree
      else log[i].kind == Tree && i + 1 < |log| && log[i + 1] == Discover(log[i].arc.target, false)
  }

  ghost predicate AllClassified(log: seq<Step>)
  {
    forall i: nat {:trigger Classified(log, i)} :: Classified(log, i)
  }

  /** Whether the walk is between two vertices of the queue, or working on the arcs of one it took off. */
  datatype Phase = Idle | Busy(u: Vertex)

  /** The phase after a history: the last vertex taken off the queue is busy until it is finished. */
  ghost function PhaseOf(log: seq<Step>): Phase
  {
    if log == [] then Idle
    else match Last(log)
      case Dequeue(v) => Busy(v)
      case Finish(v) => Idle
      case _ => PhaseOf(Init(log))
  }

  /** `a` is the first arc of its source that the history has not examined yet. */
  ghost predicate NextArc(g: Graph, view: View, prefix: seq<Step>, a: Arc)
  {
    var done := ExaminedFrom(prefix, a.source);
    |done| < |OutArcs(g, view, a.source)| && OutArcs(g, view, a.source)[|done|] == a
  }

  /**
   * The step at position `i` comes in its turn: a vertex is taken off the
   * queue only between two others, and only once it was discovered; its arcs are examined one after the
   * other, in the order the view lists them, while it is the busy vertex;
   * it is finished once all of them were examined; and every discovery after
   * the root's is that of the target of the tree edge just before it.
   */
  ghost predicate InTurn(g: Graph, view: View, log: seq<Step>, i: nat)
  {
    i < |log| ==>
      match log[i]
      case Discover(v, pruned) =>
        !pruned && (i == 0 || (log[i - 1].Examine? && log[i - 1].kind == Tree && log[i - 1].arc.target == v))
      case Dequeue(v) => 0 < i && PhaseOf(log[..i]) == Idle && Discovered(log[..i], v)
      case Examine(a, k) => PhaseOf(log[..i]) == Busy(a.source) && NextArc(g, view, log[..i], a)
      case Finish(v) => PhaseOf(log[..i]) == Busy(v) && ExaminedFrom(log[..i], v) == OutArcs(g, view, v)
      case _ => false
  }

  ghost predicate AllInTurn(g: Graph, view: View, log: seq<Step>)
  {
    forall i: nat {:trigger InTurn(g, view, log, i)} :: InTurn(g, view, log, i)
  }

  /**
   * A complete breadth-first walk from `root`: it starts by discovering the
   * root, discovers exactly the vertices reachable from it, each once, takes
   * them off the queue in the order it discovered them, and handles each in
   * its own turn: its dequeue, the examinations of all its arcs in order
   * (each classified by what was already discovered, a tree edge followed by
   * its target's discovery), then its finish.
   */
  ghost predicate BfsWalk(g: Graph, view: View, root: Vertex, log: seq<Step>)
  {
    && |log| > 0 && log[0] == Discover(root, false)
    && (forall w :: Discovered(log, w) <==> Reaches(g, view, root, w))
    && OnceEach(log)
    && DequeueOrder(log) == DiscoverOrder(log)
    && (forall w :: ExaminedFrom(log, w) == if Discovered(log, w) then OutArcs(g, view, w) else [])
    && AllClassified(log)
    && AllInTurn(g, view, log) && PhaseOf(log) == Idle
  }

  // ---- the state of the queue loop ----

  /** The vertices of the graph not yet discovered: what the walk still may queue. */
  ghost function Unseen(g: Graph, order: seq<Vertex>): set<Vertex>
  {
    set v | v in g.vertices && v !in order
  }

  /** `order` is the discovery order, and its first `head` vertices were taken off the queue, in that order. */
  ghost predicate Orders(log: seq<Step>, order: seq<Vertex>, head: nat)
  {
    head <= |order| && DiscoverOrder(log) == order && DequeueOrder(log) == order[..head]
  }

  /** The discovered vertices: the root first, each once, each a vertex of the graph reachable from the root. */
  ghost predicate Seen(g: Graph, view: View, root: Vertex, log: seq<Step>, order: seq<Vertex>)
  {
    && |log| > 0 && log[0] == Discover(root, false)
    && OnceEach(log)
    && (forall i, j :: 0 <= i < j < |order| ==> order[i] != order[j])
    && (forall w {:trigger Discovered(log, w)} :: Discovered(log, w) <==> w in order)
    && (forall w {:trigger w in order} :: w in order ==> w in g.vertices && Reaches(g, view, root, w))
  }

  /** What holds at every point of the walk; in particular no tree edge awaits its target's discovery. */
  ghost predicate Core(g: Graph, view: View, root: Vertex, log: seq<Step>, order: seq<Vertex>, head: nat)
  {
    Orders(log, order, head) && Seen(g, view, root, log, order) && AllClassified(log) && !AfterTree(log)
  }

  /** The first `k` vertices of `order` are black, the rest of `order` gray, every other vertex white. */
  ghost predicate Shade(m: map<Vertex, Color>, order: seq<Vertex>, k: nat)
  {
    k <= |order| && forall w {:trigger Get(m, w, White)} :: Get(m, w, White) == if w in order[..k] then Black else if w in order then Gray else White
  }

  /** The first `k` vertices of `order` had every arc examined, and no other vertex any. */
  ghost predicate Explored(g: Graph, view: View, log: seq<Step>, order: seq<Vertex>, k: nat)
  {
    k <= |order| && forall w {:trigger ExaminedFrom(log, w)} :: ExaminedFrom(log, w) == if w in order[..k] then OutArcs(g, view, w) else []
  }

  /** As `Explored`, except that `u`, the next vertex of `order`, had its first `n` arcs examined. */
  ghost predicate Exploring(g: Graph, view: View, log: seq<Step>, order: seq<Vertex>, k: nat, u: Vertex, n: nat)
  {
    && k < |order| && order[k] == u && u !in order[..k] && n <= |OutArcs(g, view, u)|
    && forall w {:trigger ExaminedFrom(log, w)} :: ExaminedFrom(log, w) ==
                     if w in order[..k] then OutArcs(g, view, w) else if w == u then OutArcs(g, view, u)[..n] else []
  }

  /** Every arc of the first `k` vertices of `order` leads back into `order`. */
  ghost predicate Closed(g: Graph, view: View, order: seq<Vertex>, k: nat)
  {
    k <= |order| && forall w, a {:trigger a in OutArcs(g, view, w)} :: w in order[..k] && a in OutArcs(g, view, w) ==> a.target in order
  }

  /** The first `n` arcs of `u` lead into `order`. */
  ghost predicate Pending(g: Graph, view: View, order: seq<Vertex>, u: Vertex, n: nat)
  {
    n <= |OutArcs(g, view, u)| && forall i :: 0 <= i < n ==> OutArcs(g, view, u)[i].target in order
  }

  /** Between two vertices of the queue. */
  ghost predicate Between(g: Graph, view: View, root: Vertex, log: seq<Step>, order: seq<Vertex>, head: nat,
                          m: map<Vertex, Color>)
  {
    && Core(g, view, root, log, order, head)
    && Shade(m, order, head) && Explored(g, view, log, order, head) && Closed(g, view, order, head)
    && AllInTurn(g, view, log) && PhaseOf(log) == Idle
  }

  /** While the arcs of `u`, the last vertex dequeued, are examined up to position `n`. */
  ghost predicate During(g: Graph, view: View, root: Vertex, log: seq<Step>, order: seq<Vertex>, head: nat,
                         m: map<Vertex, Color>, u: Vertex, n: nat)
  {
    && Core(g, view, root, log, order, head) && 0 < head
    && Shade(m, order, head - 1) && Exploring(g, view, log, order, head - 1, u, n)
    && Closed(g, view, order, head - 1) && Pending(g, view, order, u, n)
    && AllInTurn(g, view, log) && PhaseOf(log) == Busy(u)
  }

  // ---- how the history functions grow ----

  lemma AppendPair(log: seq<Step>, s1: Step, s2: Step)
    ensures log + [s1] + [s2] == log + [s1, s2]
  {
  }

  lemma SuffixAppend(order: seq<Vertex>, t: Vertex, head: nat)
    requires head <= |order|
    ensures (order + [t])[head..] == order[head..] + [t]
  {
  }

  lemma {:induction false} AppendOrders(log: seq<Step>, s: Step)
    ensures DiscoverOrder(log + [s]) == DiscoverOrder(log) + (if s.Discover? then [s.v] else [])
    ensures DequeueOrder(log + [s]) == DequeueOrder(log) + (if s.Dequeue? then [s.v] else [])
  {
    InitOfAppend(log, s);
  }

  /** Appending a step that is not an examination keeps every earlier examination classified. */
  lemma ClassifiedAppend(log: seq<Step>, s: Step)
    requires AllClassified(log) && !AfterTree(log)
    requires s.Examine? ==> s.kind == NonTree && Discovered(log, s.arc.target)
    ensures AllClassified(log + [s])
  {
    var log' := log + [s];
    forall i: nat
      ensures Classified(log', i)
    {
      if i < |log| {
        assert log'[i] == log[i] && log'[..i] == log[..i];
        assert Classified(log, i);
        if log[i].Examine? && !Discovered(log[..i], log[i].arc.target) {
          assert i + 1 < |log|;
          assert log'[i + 1] == log[i + 1];
        }
      } else if i == |log| {
        assert log'[..i] == log;
      }
    }
  }

  /** A tree edge followed by its target's discovery keeps every examination classified. */
  lemma ClassifiedTree(log: seq<Step>, a: Arc)
    requires AllClassified(log) && !AfterTree(log) && !Discovered(log, a.target)
    ensures AllClassified(log + [Examine(a, Tree), Discover(a.target, false)])
  {
    var log' := log + [Examine(a, Tree), Discover(a.target, false)];
    forall i: nat
      ensures Classified(log', i)
    {
      if i < |log| {
        assert log'[i] == log[i] && log'[..i] == log[..i];
        assert Classified(log, i);
        if log[i].Examine? && !Discovered(log[..i], log[i].arc.target) {
          assert i + 1 < |log|;
          assert log'[i + 1] == log[i + 1];
        }
      } else if i == |log| {
        assert log'[..i] == log;
      } else if i == |log| + 1 {
        assert !log'[i].Examine?;
      }
    }
  }

  lemma PhaseAppend(log: seq<Step>, s: Step)
    ensures PhaseOf(log + [s]) == if s.Dequeue? then Busy(s.v) else if s.Finish? then Idle else PhaseOf(log)
  {
    InitOfAppend(log, s);
  }

  /** A step that comes in its turn keeps every earlier step in its turn. */
  lemma InTurnAppend(g: Graph, view: View, log: seq<Step>, s: Step)
    requires AllInTurn(g, view, log) && InTurn(g, view, log + [s], |log|)
    ensures AllInTurn(g, view, log + [s])
  {
    var log' := log + [s];
    forall i: nat
      ensures InTurn(g, view, log', i)
    {
      if i < |log| {
        assert log'[i] == log[i] && log'[..i] == log[..i];
        assert InTurn(g, view, log, i);
        if 0 < i {
          assert log'[i - 1] == log[i - 1];
        }
      }
    }
  }

  // ---- each part of the state, step by step ----

  lemma OrdersKeep(log: seq<Step>, order: seq<Vertex>, head: nat, s: Step)
    requires Orders(log, order, head) && !s.Discover? && !s.Dequeue?
    ensures Orders(log + [s], order, head)
  {
    AppendOrders(log, s);
  }

  lemma OrdersDequeue(log: seq<Step>, order: seq<Vertex>, head: nat)
    requires Orders(log, order, head) && head < |order|
    ensures Orders(log + [Dequeue(order[head])], order, head + 1)
  {
    AppendOrders(log, Dequeue(order[head]));
    assert order[..head + 1] == order[..head] + [order[head]];
  }

  lemma OrdersTree(log: seq<Step>, order: seq<Vertex>, head: nat, a: Arc)
    requires Orders(log, order, head)
    ensures Orders(log + [Examine(a, Tree), Discover(a.target, false)], order + [a.target], head)
  {
    var s1, s2 := Examine(a, Tree), Discover(a.target, false);
    AppendOrders(log, s1);
    AppendOrders(log + [s1], s2);
    assert log + [s1] + [s2] == log + [s1, s2];
    assert (order + [a.target])[..head] == order[..head];
  }

  lemma SeenKeep(g: Graph, view: View, root: Vertex, log: seq<Step>, order: seq<Vertex>, s: Step)
    requires Seen(g, view, root, log, order) && !s.Discover?
    ensures Seen(g, view, root, log + [s], order)
  {
    AppendFacts(log, s);
    OnceEachConcat(log, [s]);
  }

  lemma SeenTree(g: Graph, view: View, root: Vertex, log: seq<Step>, order: seq<Vertex>, a: Arc)
    requires Seen(g, view, root, log, order) && a.target !in order
    requires a.target in g.vertices && Reaches(g, view, root, a.target)
    ensures Seen(g, view, root, log + [Examine(a, Tree), Discover(a.target, false)], order + [a.target])
  {
    var s1, s2 := Examine(a, Tree), Discover(a.target, false);
    AppendFacts(log, s1);
    AppendFacts(log + [s1], s2);
    AppendPair(log, s1, s2);
    OnceEachTree(log, a);
    DistinctAppend(order, a.target);
  }

  lemma OnceEachTree(log: seq<Step>, a: Arc)
    requires OnceEach(log) && !Discovered(log, a.target)
    ensures OnceEach(log + [Examine(a, Tree), Discover(a.target, false)])
  {
    var tail := [Examine(a, Tree), Discover(a.target, false)];
    assert OnceEach(tail);
    forall v | Discovered(log, v)
      ensures !Discovered(tail, v)
    {
    }
    OnceEachConcat(log, tail);
  }

  lemma DistinctAppend(order: seq<Vertex>, t: Vertex)
    requires (forall i, j :: 0 <= i < j < |order| ==> order[i] != order[j]) && t !in order
    ensures forall i, j :: 0 <= i < j < |order + [t]| ==> (order + [t])[i] != (order + [t])[j]
  {
    var order' := order + [t];
    forall i, j | 0 <= i < j < |order'|
      ensures order'[i] != order'[j]
    {
      if j == |order| {
        assert order'[i] == order[i] && order[i] in order;
      }
    }
  }

  lemma ShadeDiscover(m: map<Vertex, Color>, order: seq<Vertex>, k: nat, t: Vertex)
    requires Shade(m, order, k) && t !in order
    ensures Shade(m[t := Gray], order + [t], k)
  {
    assert (order + [t])[..k] == order[..k];
    forall w
      ensures Get(m[t := Gray], w, White) ==
              if w in (order + [t])[..k] then Black else if w in order + [t] then Gray else White
    {
      assert Get(m, w, White) == if w in order[..k] then Black else if w in order then Gray else White;
    }
  }

  lemma ShadeFinish(m: map<Vertex, Color>, order: seq<Vertex>, k: nat)
    requires Shade(m, order, k) && k < |order| && order[k] !in order[..k]
    ensures Shade(m[order[k] := Black], order, k + 1)
  {
    var m' := m[order[k] := Black];
    assert order[..k + 1] == order[..k] + [order[k]];
    forall w
      ensures Get(m', w, White) == if w in order[..k + 1] then Black else if w in order then Gray else White
    {
      if w == order[k] {
        assert w in order[..k + 1];
      } else {
        assert Get(m, w, White) == if w in order[..k] then Black else if w in order then Gray else White;
        assert w in order[..k + 1] <==> w in order[..k];
      }
    }
    assert Shade(m', order, k + 1);
  }

  lemma ExploringDequeue(g: Graph, view: View, log: seq<Step>, order: seq<Vertex>, k: nat)
    requires Explored(g, view, log, order, k) && k < |order|
    requires forall i, j :: 0 <= i < j < |order| ==> order[i] != order[j]
    ensures Exploring(g, view, log + [Dequeue(order[k])], order, k, order[k], 0)
  {
    AppendFacts(log, Dequeue(order[k]));
    assert order[k] !in order[..k] by {
      forall i | 0 <= i < k ensures order[..k][i] != order[k] {
        assert order[..k][i] == order[i];
      }
    }
  }

  lemma ExploringStep(g: Graph, view: View, log: seq<Step>, order: seq<Vertex>, k: nat, u: Vertex, n: nat, kind: Kind)
    requires Exploring(g, view, log, order, k, u, n) && n < |OutArcs(g, view, u)|
    ensures Exploring(g, view, log + [Examine(OutArcs(g, view, u)[n], kind)], order, k, u, n + 1)
  {
    var a := OutArcs(g, view, u)[n];
    assert a in OutArcs(g, view, u);
    ArcFacts(g, view, u, a);
    AppendFacts(log, Examine(a, kind));
    assert OutArcs(g, view, u)[..n + 1] == OutArcs(g, view, u)[..n] + [a];
  }

  lemma ExploringTree(g: Graph, view: View, log: seq<Step>, order: seq<Vertex>, k: nat, u: Vertex, n: nat)
    requires Exploring(g, view, log, order, k, u, n) && n < |OutArcs(g, view, u)|
    ensures var a := OutArcs(g, view, u)[n];
            Exploring(g, view, log + [Examine(a, Tree), Discover(a.target, false)], order + [a.target], k, u, n + 1)
  {
    var a := OutArcs(g, view, u)[n];
    ExploringStep(g, view, log, order, k, u, n, Tree);
    AppendFacts(log + [Examine(a, Tree)], Discover(a.target, false));
    AppendPair(log, Examine(a, Tree), Discover(a.target, false));
    assert (order + [a.target])[..k] == order[..k] && (order + [a.target])[k] == order[k];
  }

  lemma ExploredFinish(g: Graph, view: View, log: seq<Step>, order: seq<Vertex>, k: nat, u: Vertex)
    requires Exploring(g, view, log, order, k, u, |OutArcs(g, view, u)|)
    ensures Explored(g, view, log + [Finish(u)], order, k + 1)
  {
    AppendFacts(log, Finish(u));
    assert order[..k + 1] == order[..k] + [u];
    assert OutArcs(g, view, u)[..|OutArcs(g, view, u)|] == OutArcs(g, view, u);
  }

  lemma ClosedGrow(g: Graph, view: View, order: seq<Vertex>, k: nat, t: Vertex)
    requires Closed(g, view, order, k)
    ensures Closed(g, view, order + [t], k)
  {
    assert (order + [t])[..k] == order[..k];
  }

  lemma ClosedFinish(g: Graph, view: View, order: seq<Vertex>, k: nat, u: Vertex)
    requires Closed(g, view, order, k) && k < |order| && order[k] == u
    requires Pending(g, view, order, u, |OutArcs(g, view, u)|)
    ensures Closed(g, view, order, k + 1)
  {
    assert order[..k + 1] == order[..k] + [u];
    forall w, a | w in order[..k + 1] && a in OutArcs(g, view, w)
      ensures a.target in order
    {
      if w == u {
        var i :| 0 <= i < |OutArcs(g, view, u)| && OutArcs(g, view, u)[i] == a;
      }
    }
  }

  lemma PendingStep(g: Graph, view: View, order: seq<Vertex>, order': seq<Vertex>, u: Vertex, n: nat)
    requires Pending(g, view, order, u, n) && n < |OutArcs(g, view, u)|
    requires (forall x :: x in order ==> x in order') && OutArcs(g, view, u)[n].target in order'
    ensures Pending(g, view, order', u, n + 1)
  {
  }

  // ---- each step keeps the state ----

  lemma BfsStart(g: Graph, view: View, root: Vertex, m: map<Vertex, Color>)
    requires g.Valid() && root in g.vertices
    requires forall w :: Get(m, w, White) == if w == root then Gray else White
    ensures Between(g, view, root, [Discover(root, false)], [root], 0, m)
  {
    var log := [Discover(root, false)];
    AppendOrders([], Discover(root, false));
    AppendFacts([], Discover(root, false));
    assert [] + [Discover(root, false)] == log;
    assert Reaches(g, view, root, root) by {
      assert IsPath(g, view, [root]);
    }
    forall i: nat
      ensures Classified(log, i)
    {
    }
    assert [] + [Discover(root, false)] == log;
    InTurnAppend(g, view, [], Discover(root, false));
    PhaseAppend([], Discover(root, false));
  }

  lemma BfsDequeue(g: Graph, view: View, root: Vertex, log: seq<Step>, order: seq<Vertex>, head: nat,
                   m: map<Vertex, Color>)
    requires Between(g, view, root, log, order, head, m) && head < |order|
    ensures During(g, view, root, log + [Dequeue(order[head])], order, head + 1, m, order[head], 0)
  {
    var s := Dequeue(order[head]);
    OrdersDequeue(log, order, head);
    SeenKeep(g, view, root, log, order, s);
    ClassifiedAppend(log, s);
    ExploringDequeue(g, view, log, order, head);
    assert order[head] in order;
    assert (log + [s])[..|log|] == log;
    InTurnAppend(g, view, log, s);
    PhaseAppend(log, s);
  }

  lemma BfsNonTree(g: Graph, view: View, root: Vertex, log: seq<Step>, order: seq<Vertex>, head: nat,
                   m: map<Vertex, Color>, u: Vertex, n: nat)
    requires During(g, view, root, log, order, head, m, u, n) && n < |OutArcs(g, view, u)|
    requires Get(m, OutArcs(g, view, u)[n].target, White) != White
    ensures During(g, view, root, log + [Examine(OutArcs(g, view, u)[n], NonTree)], order, head, m, u, n + 1)
  {
    var s := Examine(OutArcs(g, view, u)[n], NonTree);
    OrdersKeep(log, order, head, s);
    SeenKeep(g, view, root, log, order, s);
    ClassifiedAppend(log, s);
    ExploringStep(g, view, log, order, head - 1, u, n, NonTree);
    PendingStep(g, view, order, order, u, n);
    TurnExamine(g, view, log, order, head - 1, u, n, NonTree);
    PhaseAppend(log, s);
  }

  /** The next arc of the busy vertex comes in its turn. */
  lemma TurnExamine(g: Graph, view: View, log: seq<Step>, order: seq<Vertex>, k: nat, u: Vertex, n: nat, kind: Kind)
    requires AllInTurn(g, view, log) && PhaseOf(log) == Busy(u)
    requires Exploring(g, view, log, order, k, u, n) && n < |OutArcs(g, view, u)|
    ensures AllInTurn(g, view, log + [Examine(OutArcs(g, view, u)[n], kind)])
  {
    var a := OutArcs(g, view, u)[n];
    assert a in OutArcs(g, view, u);
    ArcFacts(g, view, u, a);
    assert ExaminedFrom(log, u) == OutArcs(g, view, u)[..n];
    assert (log + [Examine(a, kind)])[..|log|] == log;
    InTurnAppend(g, view, log, Examine(a, kind));
  }

  lemma BfsTree(g: Graph, view: View, root: Vertex, log: seq<Step>, order: seq<Vertex>, head: nat,
                m: map<Vertex, Color>, u: Vertex, n: nat)
    requires g.Valid() && During(g, view, root, log, order, head, m, u, n) && n < |OutArcs(g, view, u)|
    requires Get(m, OutArcs(g, view, u)[n].target, White) == White
    ensures var a := OutArcs(g, view, u)[n];
            During(g, view, root, log + [Examine(a, Tree), Discover(a.target, false)], order + [a.target], head,
                   m[a.target := Gray], u, n + 1)
    ensures Unseen(g, order + [OutArcs(g, view, u)[n].target]) < Unseen(g, order)
  {
    var a := OutArcs(g, view, u)[n];
    var t := a.target;
    assert a in OutArcs(g, view, u);
    ArcFacts(g, view, u, a);
    assert t !in order;
    assert u in order by {
      assert order[head - 1] == u;
    }
    assert Reaches(g, view, root, t) by {
      assert t in Successors(g, view, u);
      ReachesStep(g, view, root, u, t, {});
    }
    OrdersTree(log, order, head, a);
    SeenTree(g, view, root, log, order, a);
    ClassifiedTree(log, a);
    ShadeDiscover(m, order, head - 1, t);
    ExploringTree(g, view, log, order, head - 1, u, n);
    ClosedGrow(g, view, order, head - 1, t);
    PendingStep(g, view, order, order + [t], u, n);
    TurnExamine(g, view, log, order, head - 1, u, n, Tree);
    PhaseAppend(log, Examine(a, Tree));
    var log1 := log + [Examine(a, Tree)];
    assert (log1 + [Discover(t, false)])[..|log1|] == log1;
    InTurnAppend(g, view, log1, Discover(t, false));
    PhaseAppend(log1, Discover(t, false));
    AppendPair(log, Examine(a, Tree), Discover(t, false));
    assert t in Unseen(g, order) && t !in Unseen(g, order + [t]);
  }

  lemma BfsFinish(g: Graph, view: View, root: Vertex, log: seq<Step>, order: seq<Vertex>, head: nat,
                  m: map<Vertex, Color>, u: Vertex)
    requires During(g, view, root, log, order, head, m, u, |OutArcs(g, view, u)|)
    ensures Between(g, view, root, log + [Finish(u)], order, head, m[u := Black])
  {
    var s := Finish(u);
    OrdersKeep(log, order, head, s);
    SeenKeep(g, view, root, log, order, s);
    ClassifiedAppend(log, s);
    ShadeFinish(m, order, head - 1);
    ExploredFinish(g, view, log, order, head - 1, u);
    ClosedFinish(g, view, order, head - 1, u);
    assert ExaminedFrom(log, u) == OutArcs(g, view, u)[..|OutArcs(g, view, u)|] == OutArcs(g, view, u);
    assert (log + [s])[..|log|] == log;
    InTurnAppend(g, view, log, s);
    PhaseAppend(log, s);
  }

  /** An empty queue ends a complete breadth-first walk. */
  lemma BfsDone(g: Graph, view: View, root: Vertex, log: seq<Step>, order: seq<Vertex>, m: map<Vertex, Color>)
    requires Between(g, view, root, log, order, |order|, m)
    ensures BfsWalk(g, view, root, log)
  {
    assert order[..|order|] == order;
    var s := set w | w in order;
    forall x, y | x in s && y in Successors(g, view, x)
      ensures y in s
    {
      var a :| a in OutArcs(g, view, x) && a.target == y;
    }
    assert root in s by {
      assert log[0] in log;
      assert Discovered(log, root);
    }
    ReachClosed(g, view, root, {}, s);
  }

  // ---- a breadth-first walk is determined by the graph, the view and the root ----

  lemma {:induction false} DiscoverOrderHas(log: seq<Step>, v: Vertex)
    ensures v in DiscoverOrder(log) <==> Discovered(log, v)
    decreases |log|
  {
    if log != [] {
      InitLast(log);
      DiscoverOrderHas(Init(log), v);
      AppendFacts(Init(log), Last(log));
    }
  }

  lemma {:induction false} OrdersPrefix(log: seq<Step>, i: nat)
    requires i <= |log|
    ensures DiscoverOrder(log[..i]) <= DiscoverOrder(log) && DequeueOrder(log[..i]) <= DequeueOrder(log)
    decreases |log| - i
  {
    if i < |log| {
      OrdersPrefix(log, i + 1);
      assert log[..i + 1] == log[..i] + [log[i]];
      AppendOrders(log[..i], log[i]);
    } else {
      assert log[..i] == log;
    }
  }

  lemma {:induction false} DiscoverOrderDistinct(log: seq<Step>)
    requires OnceEach(log)
    ensures Distinct(DiscoverOrder(log))
    decreases |log|
  {
    if log != [] {
      var init := Init(log);
      InitLast(log);
      assert forall i :: 0 <= i < |init| ==> init[i] == log[i];
      DiscoverOrderDistinct(init);
      AppendOrders(init, Last(log));
      if Last(log).Discover? {
        var v := Last(log).v;
        if Discovered(init, v) {
          var j :| 0 <= j < |init| && init[j] in {Discover(v, false), Discover(v, true)};
          assert log[j].Discover? && log[|log| - 1].Discover? && log[j].v == log[|log| - 1].v;
        }
        DiscoverOrderHas(init, v);
      }
    }
  }

  /** A vertex taken off the queue is the first discovered one not taken off before. */
  lemma DequeueChoice(g: Graph, view: View, root: Vertex, log: seq<Step>, i: nat)
    requires BfsWalk(g, view, root, log) && i < |log| && log[i].Dequeue?
    ensures |DequeueOrder(log[..i])| < |DiscoverOrder(log[..i])|
    ensures log[i].v == DiscoverOrder(log[..i])[|DequeueOrder(log[..i])|]
  {
    var v := log[i].v;
    var p := log[..i];
    var k := |DequeueOrder(p)|;
    assert InTurn(g, view, log, i);
    assert log[..i + 1] == p + [log[i]];
    AppendOrders(p, log[i]);
    OrdersPrefix(log, i + 1);
    OrdersPrefix(log, i);
    assert DiscoverOrder(log)[k] == v;
    DiscoverOrderHas(p, v);
    var j :| 0 <= j < |DiscoverOrder(p)| && DiscoverOrder(p)[j] == v;
    assert DiscoverOrder(log)[j] == v;
    DiscoverOrderDistinct(log);
  }

  /** After a step examining an arc the walk is busy. */
  lemma BusyAfterExamine(g: Graph, view: View, log: seq<Step>, i: nat)
    requires AllInTurn(g, view, log) && 0 < i <= |log| && log[i - 1].Examine?
    ensures PhaseOf(log[..i]) == Busy(log[i - 1].arc.source)
  {
    assert InTurn(g, view, log, i - 1);
    assert log[..i] == log[..i - 1] + [log[i - 1]];
    PhaseAppend(log[..i - 1], log[i - 1]);
  }

  /** Two breadth-first walks that agree on a prefix agree on the step after it. */
  lemma NextStepSame(g: Graph, view: View, root: Vertex, l1: seq<Step>, l2: seq<Step>, i: nat)
    requires BfsWalk(g, view, root, l1) && BfsWalk(g, view, root, l2)
    requires i < |l1| && i < |l2| && l1[..i] == l2[..i]
    ensures l1[i] == l2[i]
  {
    var p := l1[..i];
    assert InTurn(g, view, l1, i) && InTurn(g, view, l2, i);
    assert Classified(l1, i) && Classified(l2, i);
    if i > 0 {
      assert l1[i - 1] == p[i - 1] == l2[i - 1];
      assert l1[..i - 1] == p[..i - 1] == l2[..i - 1];
      assert Classified(l1, i - 1) && Classified(l2, i - 1);
      if l1[i - 1].Examine? {
        BusyAfterExamine(g, view, l1, i);
      }
      if l1[i].Dequeue? || l2[i].Dequeue? {
        DequeueChoice(g, view, root, l1, i);
        DequeueChoice(g, view, root, l2, i);
      }
    }
  }

  lemma {:induction false} PrefixSame(g: Graph, view: View, root: Vertex, l1: seq<Step>, l2: seq<Step>, i: nat)
    requires BfsWalk(g, view, root, l1) && BfsWalk(g, view, root, l2) && i <= |l1| && i <= |l2|
    ensures l1[..i] == l2[..i]
    decreases i
  {
    if i > 0 {
      PrefixSame(g, view, root, l1, l2, i - 1);
      NextStepSame(g, view, root, l1, l2, i - 1);
      assert l1[..i] == l1[..i - 1] + [l1[i - 1]];
      assert l2[..i] == l2[..i - 1] + [l2[i - 1]];
    }
  }

  /** No proper prefix of a breadth-first walk is a complete one. */
  lemma NoEarlyEnd(g: Graph, view: View, root: Vertex, log: seq<Step>, i: nat)
    requires BfsWalk(g, view, root, log) && i < |log|
    ensures !BfsWalk(g, view, root, log[..i])
  {
    if BfsWalk(g, view, root, log[..i]) {
      var p := log[..i];
      assert InTurn(g, view, log, i);
      if 0 < i && log[i - 1].Examine? {
        assert p[i - 1] == log[i - 1] && p[..i] == p;
        BusyAfterExamine(g, view, p, i);
      } else {
        DequeueChoice(g, view, root, log, i);
      }
    }
  }

  /**
   * The graph, the view and the root determine the breadth-first walk: two
   * histories that both satisfy `BfsWalk` are the same, so the block sees
   * its calls in exactly one order.
   */
  lemma BfsUnique(g: Graph, view: View, root: Vertex, l1: seq<Step>, l2: seq<Step>)
    requires BfsWalk(g, view, root, l1) && BfsWalk(g, view, root, l2)
    ensures l1 == l2
  {
    if |l1| < |l2| {
      PrefixSame(g, view, root, l1, l2, |l1|);
      assert l1[..|l1|] == l1;
      NoEarlyEnd(g, view, root, l2, |l1|);
    } else if |l2| < |l1| {
      PrefixSame(g, view, root, l1, l2, |l2|);
      assert l2[..|l2|] == l2;
      NoEarlyEnd(g, view, root, l1, |l2|);
    } else {
      PrefixSame(g, view, root, l1, l2, |l1|);
      assert l1[..|l1|] == l1 && l2[..|l2|] == l2;
    }
  }

  /**
   * On the edges 0->1, 0->2, 1->3, the history that descends to 3 before
   * examining 0->2 (a depth-first order) is not a breadth-first walk: the
   * arc 0->1 is examined before 0 is taken off the queue.
   */
  lemma DepthFirstOrderRejected()
    ensures var g := Graph([0, 1, 2, 3], [EdgeRec(0, 1, 0), EdgeRec(0, 2, 0), EdgeRec(1, 3, 0)]);
            var a01, a02, a13 := Arc(0, 0, 1, 0), Arc(1, 0, 2, 0), Arc(2, 1, 3, 0);
            !BfsWalk(g, Direct, 0,
                     [Discover(0, false), Examine(a01, Tree), Discover(1, false), Examine(a13, Tree), Discover(3, false),
                      Examine(a02, Tree), Discover(2, false), Dequeue(0), Dequeue(1), Dequeue(3), Dequeue(2)])
  {
    var g := Graph([0, 1, 2, 3], [EdgeRec(0, 1, 0), EdgeRec(0, 2, 0), EdgeRec(1, 3, 0)]);
    var a01, a02, a13 := Arc(0, 0, 1, 0), Arc(1, 0, 2, 0), Arc(2, 1, 3, 0);
    var log := [Discover(0, false), Examine(a01, Tree), Discover(1, false), Examine(a13, Tree), Discover(3, false),
                Examine(a02, Tree), Discover(2, false), Dequeue(0), Dequeue(1), Dequeue(3), Dequeue(2)];
    assert log[..1] == [Discover(0, false)];
    PhaseAppend([], Discover(0, false));
    assert !InTurn(g, Direct, log, 1);
  }

  // ---- the walk ----

  /** The colour map's mutable lookup changes no colour, so the state survives it. */
  lemma DuringSame(g: Graph, view: View, root: Vertex, log: seq<Step>, order: seq<Vertex>, head: nat,
                   m: map<Vertex, Color>, m': map<Vertex, Color>, u: Vertex, n: nat)
    requires During(g, view, root, log, order, head, m, u, n)
    requires forall w :: Get(m', w, White) == Get(m, w, White)
    ensures During(g, view, root, log, order, head, m', u, n)
  {
  }

  /**
   * One arc `a` of `u`: a white target gives a tree edge, turns gray, is
   * discovered and joins the back of the queue; any other target gives a
   * non-tree edge.
   */
  method ExamineArc(g: Graph, view: View, root: Vertex, vis: Visitor, ghost s0: Snapshot, colors: ColorMap,
                    log: seq<Step>, queue: seq<Vertex>, ghost order: seq<Vertex>, ghost head: nat,
                    u: Vertex, n: nat, a: Arc)
    returns (log': seq<Step>, queue': seq<Vertex>, ghost order': seq<Vertex>)
    requires g.Valid() && During(g, view, root, log, order, head, colors.entries, u, n) && queue == order[head..]
    requires n < |OutArcs(g, view, u)| && a == OutArcs(g, view, u)[n]
    requires vis.Snap() == Replay(vis.role, Never, s0, log)
    modifies vis, colors
    ensures During(g, view, root, log', order', head, colors.entries, u, n + 1)
    ensures queue' == order'[head..]
    ensures vis.Snap() == Replay(vis.role, Never, s0, log')
    ensures Unseen(g, order') < Unseen(g, order) || (order' == order && queue' == queue)
  {
    ghost var m := colors.entries;
    var c := colors.Lookup(a.target);
    DuringSame(g, view, root, log, order, head, m, colors.entries, u, n);
    if c == White {
      log', queue', order' := TreeArc(g, view, root, vis, s0, colors, log, queue, order, head, u, n, a);
    } else {
      log' := NonTreeArc(g, view, root, vis, s0, colors, log, order, head, u, n, a);
      queue', order' := queue, order;
    }
  }

  /** A non-tree edge: its target was already discovered. */
  method NonTreeArc(g: Graph, view: View, root: Vertex, vis: Visitor, ghost s0: Snapshot, colors: ColorMap,
                    log: seq<Step>, ghost order: seq<Vertex>, ghost head: nat, u: Vertex, n: nat, a: Arc)
    returns (log': seq<Step>)
    requires During(g, view, root, log, order, head, colors.entries, u, n)
    requires n < |OutArcs(g, view, u)| && a == OutArcs(g, view, u)[n] && colors.At(a.target) != White
    requires vis.Snap() == Replay(vis.role, Never, s0, log)
    modifies vis
    ensures During(g, view, root, log', order, head, colors.entries, u, n + 1)
    ensures vis.Snap() == Replay(vis.role, Never, s0, log')
  {
    BfsNonTree(g, view, root, log, order, head, colors.entries, u, n);
    vis.Notify(Examine(a, NonTree), Never);
    ReplayAppend(vis.role, Never, s0, log, Examine(a, NonTree));
    log' := log + [Examine(a, NonTree)];
  }

  /** A tree edge: its white target turns gray, is discovered and joins the back of the queue. */
  method TreeArc(g: Graph, view: View, root: Vertex, vis: Visitor, ghost s0: Snapshot, colors: ColorMap,
                 log: seq<Step>, queue: seq<Vertex>, ghost order: seq<Vertex>, ghost head: nat,
                 u: Vertex, n: nat, a: Arc)
    returns (log': seq<Step>, queue': seq<Vertex>, ghost order': seq<Vertex>)
    requires g.Valid() && During(g, view, root, log, order, head, colors.entries, u, n) && queue == order[head..]
    requires n < |OutArcs(g, view, u)| && a == OutArcs(g, view, u)[n] && colors.At(a.target) == White
    requires vis.Snap() == Replay(vis.role, Never, s0, log)
    modifies vis, colors
    ensures During(g, view, root, log', order', head, colors.entries, u, n + 1)
    ensures queue' == order'[head..]
    ensures vis.Snap() == Replay(vis.role, Never, s0, log')
    ensures Unseen(g, order') < Unseen(g, order)
  {
    BfsTree(g, view, root, log, order, head, colors.entries, u, n);
    vis.Notify(Examine(a, Tree), Never);
    ReplayAppend(vis.role, Never, s0, log, Examine(a, Tree));
    colors.Put(a.target, Gray);
    var _ := vis.DiscoverVertex(a.target, Never);
    ReplayAppend(vis.role, Never, s0, log + [Examine(a, Tree)], Discover(a.target, false));
    AppendPair(log, Examine(a, Tree), Discover(a.target, false));
    log' := log + [Examine(a, Tree), Discover(a.target, false)];
    SuffixAppend(order, a.target, head);
    queue' := queue + [a.target];
    order' := order + [a.target];
  }

  /** The inner loop: examines every arc of `u`, the vertex just taken off the queue. */
  method ExamineAll(g: Graph, view: View, root: Vertex, vis: Visitor, ghost s0: Snapshot, colors: ColorMap,
                    log: seq<Step>, queue: seq<Vertex>, ghost order: seq<Vertex>, ghost head: nat, u: Vertex)
    returns (log': seq<Step>, queue': seq<Vertex>, ghost order': seq<Vertex>)
    requires g.Valid() && During(g, view, root, log, order, head, colors.entries, u, 0) && queue == order[head..]
    requires vis.Snap() == Replay(vis.role, Never, s0, log)
    modifies vis, colors
    ensures During(g, view, root, log', order', head, colors.entries, u, |OutArcs(g, view, u)|)
    ensures queue' == order'[head..]
    ensures vis.Snap() == Replay(vis.role, Never, s0, log')
    ensures Unseen(g, order') < Unseen(g, order) || (order' == order && queue' == queue)
  {
    var arcs := OutArcs(g, view, u);
    var n: nat := 0;
    log', queue', order' := log, queue, order;
    while n < |arcs|
      invariant n <= |arcs| && During(g, view, root, log', order', head, colors.entries, u, n)
      invariant queue' == order'[head..]
      invariant vis.Snap() == Replay(vis.role, Never, s0, log')
      invariant Unseen(g, order') < Unseen(g, order) || (order' == order && queue' == queue)
    {
      log', queue', order' := ExamineArc(g, view, root, vis, s0, colors, log', queue', order', head, u, n, arcs[n]);
      n := n + 1;
    }
  }

  /** The initialisation of `breadth_first_search`: a fresh colour map with every vertex of the graph white. */
  method WhiteMap(g: Graph) returns (colors: ColorMap)
    ensures fresh(colors) && forall w :: colors.At(w) == White
  {
    colors := new ColorMap();
    var i: nat := 0;
    while i < |g.vertices|
      modifies colors
      invariant i <= |g.vertices| && forall w :: colors.At(w) == White
    {
      colors.Put(g.vertices[i], White);
      i := i + 1;
    }
  }

  /** One round of the queue loop: takes the front vertex off the queue, examines its arcs and finishes it. */
  method VisitNext(g: Graph, view: View, root: Vertex, vis: Visitor, ghost s0: Snapshot, colors: ColorMap,
                   log: seq<Step>, queue: seq<Vertex>, ghost order: seq<Vertex>, ghost head: nat)
    returns (log': seq<Step>, queue': seq<Vertex>, ghost order': seq<Vertex>, ghost head': nat)
    requires g.Valid() && Between(g, view, root, log, order, head, colors.entries) && queue == order[head..]
    requires queue != [] && vis.Snap() == Replay(vis.role, Never, s0, log)
    modifies vis, colors
    ensures Between(g, view, root, log', order', head', colors.entries) && queue' == order'[head'..]
    ensures vis.Snap() == Replay(vis.role, Never, s0, log')
    ensures Unseen(g, order') < Unseen(g, order) || (Unseen(g, order') == Unseen(g, order) && |queue'| < |queue|)
  {
    var u := queue[0];
    var rest := queue[1..];
    vis.Notify(Dequeue(u), Never);
    ReplayAppend(vis.role, Never, s0, log, Dequeue(u));
    BfsDequeue(g, view, root, log, order, head, colors.entries);
    log' := log + [Dequeue(u)];
    head' := head + 1;
    log', queue', order' := ExamineAll(g, view, root, vis, s0, colors, log', rest, order, head', u);
    ghost var m := colors.entries;
    colors.Put(u, Black);
    vis.Notify(Finish(u), Never);
    ReplayAppend(vis.role, Never, s0, log', Finish(u));
    BfsFinish(g, view, root, log', order', head', m, u);
    log' := log' + [Finish(u)];
  }

  /**
   * `breadth_first_search` from `root` with a fresh colour map and a FIFO
   * queue. The visitor sees the whole history; nothing consults the prune
   * flag.
   */
  method BreadthFirstSearch(g: Graph, view: View, root: Vertex, vis: Visitor) returns (log: seq<Step>)
    requires g.Valid() && root in g.vertices
    modifies vis
    ensures BfsWalk(g, view, root, log)
    ensures vis.Snap() == Replay(vis.role, Never, old(vis.Snap()), log)
  {
    ghost var s0 := vis.Snap();
    var colors := WhiteMap(g);
    colors.Put(root, Gray);
    var _ := vis.DiscoverVertex(root, Never);
    log := [Discover(root, false)];
    ReplayAppend(vis.role, Never, s0, [], Discover(root, false));
    assert [] + [Discover(root, false)] == log;
    var queue := [root];
    ghost var order := [root];
    ghost var head: nat := 0;
    forall w
      ensures Get(colors.entries, w, White) == if w == root then Gray else White
    {
      assert colors.At(w) == Get(colors.entries, w, White);
    }
    BfsStart(g, view, root, colors.entries);
    while queue != []
      invariant Between(g, view, root, log, order, head, colors.entries) && queue == order[head..]
      invariant vis.Snap() == Replay(vis.role, Never, s0, log)
      decreases Unseen(g, order), |queue|
    {
      log, queue, order, head := VisitNext(g, view, root, vis, s0, colors, log, queue, order, head);
    }
    BfsDone(g, view, root, log, order, colors.entries);
  }
}
