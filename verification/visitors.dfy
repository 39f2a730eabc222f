/**
 * The visitors and terminators the queries hand to the walks.
 *
 * A `Visitor` is one object playing the part the query needs:
 *   - `Walk`: forwards the edge events whose kind bit is in the mask to the
 *     caller's block (each_dfs and each_bfs); the block may ask to prune;
 *   - `Reach`: raises `found` when a tree edge reaches the goal (reachable?);
 *   - `Record`: collects every discovered vertex into `component`
 *     (vertex_recorder);
 *   - `Plain`: ignores every event.
 * The prune flag, kept per thread by the original, is a field of the visitor.
 * The terminator consulted after each discovery is separate: `Never` (the
 * default that never answers true), `PruneFlag` (search_terminator) or
 * `Found` (the reachability terminator).
 */
module Visitors {
  import opened Graphs
  import opened Events

  type Mask = bv32

  const TREE: Mask := 1
  const BACK: Mask := 2
  const FORWARD_OR_CROSS: Mask := 4
  const NON_TREE: Mask := 6
  const ALL: Mask := 7

  /** The combined kinds are the unions of the single ones. */
  lemma MaskConstants()
    ensures NON_TREE == BACK | FORWARD_OR_CROSS
    ensures ALL == TREE | BACK | FORWARD_OR_CROSS
    ensures TREE & BACK == 0 && TREE & FORWARD_OR_CROSS == 0 && BACK & FORWARD_OR_CROSS == 0
  {
  }

  /** The `yield_edge` filter: an event of kind `what` reaches the block when one of its bits is in the mask. */
  predicate Delivered(what: Mask, mode: Mask)
  {
    what & mode != 0
  }

  /**
   * The mask test of each_bfs: a breadth-first walk cannot tell back edges
   * from forward-or-cross edges, so a mask must ask for both or neither.
   */
  predicate ValidBfsMask(mode: Mask)
  {
    !((mode & NON_TREE) != 0 && (mode & NON_TREE) != NON_TREE)
  }

  /** One call of the block: source, target, edge payload and kind. */
  datatype Yield = Yield(source: Vertex, target: Vertex, info: int, what: Mask)

  datatype Role =
    | Plain
    | Walk(mode: Mask, block: seq<Yield> -> bool)  // `block(ys)`: the block, called last with ys's last event, calls prune
    | Reach(goal: Vertex)
    | Record

  datatype Terminator = Never | PruneFlag | Found

  datatype Snapshot = Snapshot(prune: bool, found: bool, component: set<Vertex>, calls: seq<Yield>)

  /** The event kind each classification is reported as, if it is reported. */
  function KindMask(k: Kind): Mask
  {
    match k
    case Tree => TREE
    case Back => BACK
    case ForwardOrCross => FORWARD_OR_CROSS
    case NonTree => NON_TREE
    case Unreported => 0
  }

  /** `yield_edge`: pass the event to the block if the mask lets it through. */
  function Emit(role: Role, s: Snapshot, a: Arc, what: Mask): Snapshot
  {
    if role.Walk? && Delivered(what, role.mode) then
      var ys := s.calls + [Yield(a.source, a.target, a.info, what)];
      s.(calls := ys, prune := s.prune || role.block(ys))
    else s
  }

  /** What the terminator answers in visitor state `s`. */
  function Answer(term: Terminator, s: Snapshot): bool
  {
    match term
    case Never => false
    case PruneFlag => s.prune
    case Found => s.found
  }

  /** The visitor state after one step of a walk. */
  function After(role: Role, term: Terminator, s: Snapshot, step: Step): Snapshot
  {
    match step
    case Discover(v, _) =>
      var s1 := if role.Record? then s.(component := s.component + {v}) else s;
      if term.PruneFlag? then s1.(prune := false) else s1
    case Examine(a, k) =>
      if k == Unreported then s
      else if role.Reach? then (if k == Tree && a.target == role.goal then s.(found := true) else s)
      else Emit(role, s, a, KindMask(k))
    case _ => s
  }

  /** The visitor state after a whole history. */
  function Replay(role: Role, term: Terminator, s0: Snapshot, log: seq<Step>): Snapshot
  {
    if log == [] then s0 else After(role, term, Replay(role, term, s0, Init(log)), Last(log))
  }

  lemma {:induction false} ReplayAppend(role: Role, term: Terminator, s0: Snapshot, log: seq<Step>, s: Step)
    ensures Replay(role, term, s0, log + [s]) == After(role, term, Replay(role, term, s0, log), s)
  {
    InitOfAppend(log, s);
  }

  /** Replaying two histories one after the other is replaying their concatenation. */
  lemma {:induction false} ReplayConcat(role: Role, term: Terminator, s0: Snapshot, a: seq<Step>, b: seq<Step>)
    ensures Replay(role, term, s0, a + b) == Replay(role, term, Replay(role, term, s0, a), b)
    decreases |b|
  {
    if b == [] {
      assert a + b == a;
    } else {
      ReplayConcat(role, term, s0, a, Init(b));
      InitLast(b);
      assert a + b == (a + Init(b)) + [Last(b)];
      ReplayAppend(role, term, s0, a + Init(b), Last(b));
    }
  }

  /** The block's calls are exactly the delivered reported events of the history, in order. */
  function Yields(mode: Mask, log: seq<Step>): seq<Yield>
  {
    if log == [] then []
    else
      Yields(mode, Init(log)) +
      (if Last(log).Examine? && Last(log).kind != Unreported && Delivered(KindMask(Last(log).kind), mode)
       then [Yield(Last(log).arc.source, Last(log).arc.target, Last(log).arc.info, KindMask(Last(log).kind))]
       else [])
  }

  /** Keeps the events whose kind the mask lets through. */
  function Filter(ys: seq<Yield>, mode: Mask): seq<Yield>
  {
    if ys == [] then [] else Filter(ys[..|ys| - 1], mode) + (if Delivered(ys[|ys| - 1].what, mode) then [ys[|ys| - 1]] else [])
  }

  /** The delivered calls are exactly the reported events a mask lets through, in order. */
  lemma {:induction false} YieldsFilter(mode: Mask, log: seq<Step>)
    ensures Yields(mode, log) == Filter(Yields(ALL, log), mode)
    decreases |log|
  {
    if log != [] {
      YieldsFilter(mode, Init(log));
      var ys := Yields(ALL, Init(log));
      var s := Last(log);
      if s.Examine? && s.kind != Unreported {
        var y := Yield(s.arc.source, s.arc.target, s.arc.info, KindMask(s.kind));
        assert Delivered(KindMask(s.kind), ALL) by { MaskConstants(); }
        assert Yields(ALL, log) == ys + [y];
        assert (ys + [y])[..|ys + [y]| - 1] == ys;
        assert Filter(ys + [y], mode) == Filter(ys, mode) + (if Delivered(y.what, mode) then [y] else []);
      } else {
        assert Yields(ALL, log) == ys + [];
        assert ys + [] == ys;
      }
    }
  }

  /** What a walking visitor hands its block: its earlier calls, then the history's delivered events. */
  lemma {:induction false} ReplayCalls(role: Role, term: Terminator, s0: Snapshot, log: seq<Step>)
    requires role.Walk?
    ensures Replay(role, term, s0, log).calls == s0.calls + Yields(role.mode, log)
    decreases |log|
  {
    if log != [] {
      ReplayCalls(role, term, s0, Init(log));
    }
  }

  /** What the vertex recorder collects: its earlier contents and every vertex the history discovers. */
  lemma {:induction false} ReplayRecord(role: Role, term: Terminator, s0: Snapshot, log: seq<Step>)
    requires role.Record?
    ensures Replay(role, term, s0, log).component == s0.component + DiscoveredSet(log)
    decreases |log|
  {
    if log != [] {
      ReplayRecord(role, term, s0, Init(log));
      InitLast(log);
      AppendDiscoveredSet(Init(log), Last(log));
    }
  }

  /** A block that never asks to prune leaves a lowered prune flag lowered. */
  lemma {:induction false} ReplayQuiet(role: Role, term: Terminator, s0: Snapshot, log: seq<Step>)
    requires !s0.prune && (role.Walk? ==> forall ys :: !role.block(ys))
    ensures !Replay(role, term, s0, log).prune
    decreases |log|
  {
    if log != [] {
      ReplayQuiet(role, term, s0, Init(log));
    }
  }

  /** A tree edge of the history leads to `t`. */
  ghost predicate TreeEdgeTo(log: seq<Step>, t: Vertex)
  {
    exists i :: 0 <= i < |log| && log[i].Examine? && log[i].kind == Tree && log[i].arc.target == t
  }

  /** The reachability visitor raises its flag exactly when a tree edge reaches the goal, and never lowers it. */
  lemma {:induction false} ReplayFound(role: Role, term: Terminator, s0: Snapshot, log: seq<Step>)
    requires role.Reach?
    ensures Replay(role, term, s0, log).found == (s0.found || TreeEdgeTo(log, role.goal))
    decreases |log|
  {
    if log != [] {
      ReplayFound(role, term, s0, Init(log));
      InitLast(log);
      if TreeEdgeTo(Init(log), role.goal) {
        var i :| 0 <= i < |Init(log)| && Init(log)[i].Examine? && Init(log)[i].kind == Tree && Init(log)[i].arc.target == role.goal;
        assert log[i] == Init(log)[i];
      }
      if TreeEdgeTo(log, role.goal) && !TreeEdgeTo(Init(log), role.goal) {
        var i :| 0 <= i < |log| && log[i].Examine? && log[i].kind == Tree && log[i].arc.target == role.goal;
        assert i == |log| - 1;
      }
    }
  }

  class Visitor {
    const role: Role
    var prune: bool
    var found: bool
    var component: set<Vertex>
    var calls: seq<Yield>

    ghost function Snap(): Snapshot
      reads this
    {
      Snapshot(prune, found, component, calls)
    }

    /** A visitor for `role`; `prune` is the prune flag as the calling thread left it. */
    constructor (role: Role, prune: bool)
      ensures this.role == role
      ensures Snap() == Snapshot(prune, false, {}, [])
    {
      this.role := role;
      this.prune := prune;
      this.found := false;
      this.component := {};
      this.calls := [];
    }

    /** `prune`: called from the block, asks the walk to stop developing the current branch. */
    method Prune()
      modifies this
      ensures Snap() == old(Snap()).(prune := true)
    {
      prune := true;
    }

    /** `reset_prune`: clears the prune flag. */
    method ResetPruneFlag()
      modifies this
      ensures Snap() == old(Snap()).(prune := false)
    {
      prune := false;
    }

    /** `pruned?`: whether the prune flag is raised. */
    method IsPruned() returns (b: bool)
      ensures b == prune
    {
      b := prune;
    }

    /** `yield_edge`: hands the event to the block when the mask lets it through. */
    method YieldEdge(a: Arc, what: Mask)
      requires role.Walk?
      modifies this
      ensures Snap() == Emit(role, old(Snap()), a, what)
    {
      if Delivered(what, role.mode) {
        var ys := calls + [Yield(a.source, a.target, a.info, what)];
        calls := ys;
        if role.block(ys) {
          prune := true;
        }
      }
    }

    /** The callbacks of every step other than a discovery. */
    method Notify(step: Step, term: Terminator)
      requires !step.Discover?
      modifies this
      ensures Snap() == After(role, term, old(Snap()), step)
    {
      if step.Examine? && step.kind != Unreported {
        if role.Walk? {
          YieldEdge(step.arc, KindMask(step.kind));
        } else if role.Reach? && step.kind == Tree && step.arc.target == role.goal {
          found := true;
        }
      }
    }

    /**
     * `discover_vertex`, then the terminator for the discovered vertex. The
     * prune-flag terminator answers the flag and clears it, so a request to
     * prune prunes one vertex only.
     */
    method DiscoverVertex(v: Vertex, term: Terminator) returns (pruned: bool)
      modifies this
      ensures pruned == Answer(term, old(Snap()))
      ensures Snap() == After(role, term, old(Snap()), Discover(v, pruned))
    {
      if role.Record? {
        component := component + {v};
      }
      match term
      case Never => pruned := false;
      case PruneFlag =>
        pruned := prune;
        if pruned {
          prune := false;
        }
      case Found => pruned := found;
    }
  }
}
