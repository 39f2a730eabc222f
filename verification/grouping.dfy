/**
 * `generated_subgraphs`: the groups of vertices reached from seeds, one
 * depth-first walk per seed, all walks sharing one colour map.
 *
 * The groups are gathered in a list whose front is the group being filled:
 * a group worth keeping stays and a fresh empty group is pushed in front of
 * it; a single vertex not worth keeping is cleared. Seeds that are not
 * vertices of the graph are answered by the descriptor lookup, which appends
 * `{v}` at the back of the same list when singletons are wanted. At the end
 * the working group in front is dropped, so the list holds the kept groups,
 * the last one first, followed by the singletons of the absent seeds in seed
 * order.
 */
module Grouping {
  import opened Graphs
  import opened Colors
  import opened Events
  import opened Visitors
  import opened Walks
  import opened DfsFacts
  import opened UndirectedDfs
  import opened Reachability

  datatype Option<T> = None | Some(value: T)

  // ---- what the walks of the seeds produce ----

  /** The coloured vertices, the kept groups (newest first) and the singletons of absent seeds. */
  datatype Sweep = Sweep(covered: set<Vertex>, groups: seq<set<Vertex>>, singles: seq<set<Vertex>>)

  /** What one seed adds. */
  ghost function SweepStep(g: Graph, view: View, withSingletons: bool, st: Sweep, x: Vertex): Sweep
  {
    if x !in g.vertices then st.(singles := st.singles + (if withSingletons then [{x}] else []))
    else if x in st.covered then st
    else
      var c := Region(g, view, x, st.covered);
      Sweep(st.covered + c, if |c| > 1 || withSingletons then [c] + st.groups else st.groups, st.singles)
  }

  /** What the seeds add, one after the other. */
  ghost function SweepAll(g: Graph, view: View, withSingletons: bool, items: seq<Vertex>): Sweep
  {
    if items == [] then Sweep({}, [], [])
    else SweepStep(g, view, withSingletons, SweepAll(g, view, withSingletons, items[..|items| - 1]), items[|items| - 1])
  }

  /** The vertices of the graph reached from a seed that is a vertex. */
  ghost function ReachedFrom(g: Graph, view: View, items: seq<Vertex>): set<Vertex>
  {
    set w | w in g.vertices && ReachedBy(g, view, items, w)
  }

  /** `w` is reachable from one of the seeds that is a vertex. */
  ghost predicate ReachedBy(g: Graph, view: View, items: seq<Vertex>, w: Vertex)
  {
    exists x :: x in items && x in g.vertices && Reaches(g, view, x, w)
  }

  /** The singletons of the seeds that are not vertices, in seed order, when singletons are wanted. */
  function AbsentSingles(g: Graph, withSingletons: bool, items: seq<Vertex>): (r: seq<set<Vertex>>)
    ensures !withSingletons ==> r == []
    ensures withSingletons ==> forall s :: s in r <==> exists x :: x in items && x !in g.vertices && s == {x}
  {
    if items == [] then []
    else
      AbsentSingles(g, withSingletons, items[..|items| - 1])
      + (if withSingletons && items[|items| - 1] !in g.vertices then [{items[|items| - 1]}] else [])
  }

  /** A depth-first walk that never prunes discovers the region of its root outside what was coloured before. */
  lemma WalkRegion(run: Run, seg: seq<Step>)
    requires DfsWalk(run, seg) && RunOk(run) && run.term == Never
    ensures DiscoveredSet(seg) == Region(run.g, run.view, run.root, Avoid(run))
  {
    NeverPrunes(run, seg);
    Closure(run, seg);
    DiscoveredSetMeans(seg);
    DiscoveredInGraph(run, seg);
  }

  /** The region of a seed holds the seed. */
  lemma RegionHasSeed(g: Graph, view: View, x: Vertex, covered: set<Vertex>)
    requires x in g.vertices && x !in covered
    ensures x in Region(g, view, x, covered)
  {
    PathReaches(g, view, [x], covered);
  }

  /** Adding the region of a seed to a closed set of vertices keeps it closed. */
  lemma RegionClosed(g: Graph, view: View, x: Vertex, covered: set<Vertex>)
    requires g.Valid() && Closed(g, view, covered)
    ensures Closed(g, view, covered + Region(g, view, x, covered))
  {
    var c := Region(g, view, x, covered);
    forall u, y | u in c && y in Successors(g, view, u) && y !in covered
      ensures y in c
    {
      ReachesStep(g, view, x, u, y, covered);
      var a :| a in OutArcs(g, view, u) && a.target == y;
      ArcFacts(g, view, u, a);
    }
  }

  /**
   * What the coloured vertices and the kept groups satisfy after any number
   * of seeds: the coloured vertices are vertices of the graph, closed under
   * the view's arcs; every group lies among them, has more than one vertex
   * unless singletons are wanted, and shares no vertex with any other group;
   * when singletons are wanted every coloured vertex is in a group.
   */
  ghost predicate Tidy(g: Graph, view: View, withSingletons: bool, st: Sweep)
  {
    && Closed(g, view, st.covered) && (forall v :: v in st.covered ==> v in g.vertices)
    && (forall k :: 0 <= k < |st.groups| ==> st.groups[k] <= st.covered)
    && (forall k :: 0 <= k < |st.groups| ==> |st.groups[k]| > 1 || withSingletons)
    && (forall k, l :: 0 <= k < l < |st.groups| ==> st.groups[k] * st.groups[l] == {})
    && (withSingletons ==> forall v :: v in st.covered ==> InSomeGroup(st.groups, v))
  }

  ghost predicate InSomeGroup(groups: seq<set<Vertex>>, v: Vertex)
  {
    exists k :: 0 <= k < |groups| && v in groups[k]
  }

  /** A new region is made of vertices of the graph that were not coloured. */
  lemma RegionFresh(g: Graph, view: View, x: Vertex, covered: set<Vertex>)
    requires g.Valid() && x in g.vertices
    ensures forall w :: w in Region(g, view, x, covered) ==> w in g.vertices && w !in covered
  {
    forall w | w in Region(g, view, x, covered)
      ensures w !in covered
    {
      ReachedOutside(g, view, x, w, covered);
    }
  }

  /** Putting a new group in front keeps the groups pairwise disjoint. */
  lemma PushDisjoint(c: set<Vertex>, groups: seq<set<Vertex>>, covered: set<Vertex>)
    requires forall k, l :: 0 <= k < l < |groups| ==> groups[k] * groups[l] == {}
    requires forall k :: 0 <= k < |groups| ==> groups[k] <= covered
    requires c * covered == {}
    ensures forall k, l :: 0 <= k < l < |[c] + groups| ==> ([c] + groups)[k] * ([c] + groups)[l] == {}
  {
    var gs := [c] + groups;
    forall k, l | 0 <= k < l < |gs|
      ensures gs[k] * gs[l] == {}
    {
      assert gs[l] == groups[l - 1];
      if k > 0 {
        assert gs[k] == groups[k - 1];
      } else {
        assert gs[l] <= covered;
      }
    }
  }

  /** Putting a group in front keeps every old vertex in a group, and adds the new ones. */
  lemma PushCovers(c: set<Vertex>, groups: seq<set<Vertex>>, covered: set<Vertex>)
    requires forall v :: v in covered ==> InSomeGroup(groups, v)
    ensures forall v :: v in covered + c ==> InSomeGroup([c] + groups, v)
  {
    var gs := [c] + groups;
    forall v | v in covered + c
      ensures InSomeGroup(gs, v)
    {
      if v in covered {
        var k :| 0 <= k < |groups| && v in groups[k];
        assert gs[k + 1] == groups[k];
      } else {
        assert v in gs[0];
      }
    }
  }

  /** What a seed that is a white vertex adds, given its region. */
  lemma StepWalked(g: Graph, view: View, withSingletons: bool, st: Sweep, x: Vertex, c: set<Vertex>)
    requires x in g.vertices && x !in st.covered && c == Region(g, view, x, st.covered)
    ensures SweepStep(g, view, withSingletons, st, x)
            == Sweep(st.covered + c, if |c| > 1 || withSingletons then [c] + st.groups else st.groups, st.singles)
  {
  }

  /** Colouring a new closed set of vertices and keeping it as a group keeps the sweep tidy. */
  lemma TidyPush(g: Graph, view: View, withSingletons: bool, st: Sweep, c: set<Vertex>)
    requires Tidy(g, view, withSingletons, st) && Closed(g, view, st.covered + c)
    requires forall w :: w in c ==> w in g.vertices && w !in st.covered
    requires |c| > 1 || withSingletons
    ensures Tidy(g, view, withSingletons, Sweep(st.covered + c, [c] + st.groups, st.singles))
  {
    var gs := [c] + st.groups;
    forall k | 0 <= k < |gs|
      ensures gs[k] <= st.covered + c && (|gs[k]| > 1 || withSingletons)
    {
      if k > 0 {
        assert gs[k] == st.groups[k - 1];
      }
    }
    PushDisjoint(c, st.groups, st.covered);
    if withSingletons {
      PushCovers(c, st.groups, st.covered);
    }
  }

  /** Colouring a new closed set of vertices without keeping it keeps the sweep tidy when no singleton is wanted. */
  lemma TidyDrop(g: Graph, view: View, withSingletons: bool, st: Sweep, c: set<Vertex>)
    requires Tidy(g, view, withSingletons, st) && Closed(g, view, st.covered + c)
    requires forall w :: w in c ==> w in g.vertices
    requires !withSingletons
    ensures Tidy(g, view, withSingletons, Sweep(st.covered + c, st.groups, st.singles))
  {
  }

  /** One more seed keeps the sweep tidy. */
  lemma StepTidy(g: Graph, view: View, withSingletons: bool, st: Sweep, x: Vertex)
    requires g.Valid() && Tidy(g, view, withSingletons, st)
    ensures Tidy(g, view, withSingletons, SweepStep(g, view, withSingletons, st, x))
  {
    if x in g.vertices && x !in st.covered {
      var c := Region(g, view, x, st.covered);
      StepWalked(g, view, withSingletons, st, x, c);
      RegionClosed(g, view, x, st.covered);
      RegionFresh(g, view, x, st.covered);
      if |c| > 1 || withSingletons {
        TidyPush(g, view, withSingletons, st, c);
      } else {
        TidyDrop(g, view, withSingletons, st, c);
      }
    }
  }

  /**
   * Every sweep is tidy: the groups are disjoint pieces of the coloured
   * vertices, which no arc leaves, and with singletons wanted they cover them.
   */
  lemma {:induction false} SweepTidy(g: Graph, view: View, withSingletons: bool, items: seq<Vertex>)
    requires g.Valid()
    ensures Tidy(g, view, withSingletons, SweepAll(g, view, withSingletons, items))
    decreases |items|
  {
    if items != [] {
      SweepTidy(g, view, withSingletons, items[..|items| - 1]);
      StepTidy(g, view, withSingletons, SweepAll(g, view, withSingletons, items[..|items| - 1]), items[|items| - 1]);
    }
  }

  /** The group holds one of the seeds. */
  ghost predicate HasSeed(group: set<Vertex>, items: seq<Vertex>)
  {
    exists x :: x in items && x in group
  }

  /** The sweep of one more seed of a list. */
  lemma SweepPrefix(g: Graph, view: View, withSingletons: bool, items: seq<Vertex>, i: nat)
    requires i < |items|
    ensures SweepAll(g, view, withSingletons, items[..i + 1])
            == SweepStep(g, view, withSingletons, SweepAll(g, view, withSingletons, items[..i]), items[i])
  {
    assert items[..i + 1][..i] == items[..i];
  }

  /** Every group holds one of the seeds. */
  ghost predicate Seeded(groups: seq<set<Vertex>>, items: seq<Vertex>)
  {
    forall k :: 0 <= k < |groups| ==> HasSeed(groups[k], items)
  }

  /** Groups seeded by some seeds stay seeded when one more seed follows. */
  lemma SeededMore(groups: seq<set<Vertex>>, init: seq<Vertex>, x: Vertex)
    requires Seeded(groups, init)
    ensures Seeded(groups, init + [x])
  {
    forall k | 0 <= k < |groups|
      ensures HasSeed(groups[k], init + [x])
    {
      assert HasSeed(groups[k], init);
      var y :| y in init && y in groups[k];
      assert y in init + [x];
    }
  }

  /** A group holding the new seed may join groups seeded by the earlier ones. */
  lemma SeededPush(groups: seq<set<Vertex>>, items: seq<Vertex>, x: Vertex, c: set<Vertex>)
    requires Seeded(groups, items) && x in items && x in c
    ensures Seeded([c] + groups, items)
  {
    var after := [c] + groups;
    forall k | 0 <= k < |after|
      ensures HasSeed(after[k], items)
    {
      if k > 0 {
        assert after[k] == groups[k - 1];
      }
    }
  }

  /** Every kept group holds one of the seeds: a seed already coloured starts no group. */
  lemma {:induction false} SweepSeeds(g: Graph, view: View, withSingletons: bool, items: seq<Vertex>)
    requires g.Valid()
    ensures Seeded(SweepAll(g, view, withSingletons, items).groups, items)
    decreases |items|
  {
    if items != [] {
      var init := items[..|items| - 1];
      var x := items[|items| - 1];
      SweepSeeds(g, view, withSingletons, init);
      var st := SweepAll(g, view, withSingletons, init);
      var c := Region(g, view, x, st.covered);
      var pushed := x in g.vertices && x !in st.covered && (|c| > 1 || withSingletons);
      if pushed {
        RegionHasSeed(g, view, x, st.covered);
      }
      SeededMore(st.groups, init, x);
      if pushed {
        SeededPush(st.groups, init + [x], x, c);
      }
      assert init + [x] == items;
    }
  }

  /** The singletons at the back are those of the absent seeds, in seed order. */
  lemma {:induction false} SweepSingles(g: Graph, view: View, withSingletons: bool, items: seq<Vertex>)
    ensures SweepAll(g, view, withSingletons, items).singles == AbsentSingles(g, withSingletons, items)
    decreases |items|
  {
    if items != [] {
      SweepSingles(g, view, withSingletons, items[..|items| - 1]);
    }
  }

  /** One more seed colours `w` exactly when `w` is reached from it or from an earlier seed. */
  lemma CoverStepAt(g: Graph, view: View, withSingletons: bool, st: Sweep, init: seq<Vertex>, x: Vertex, w: Vertex)
    requires g.Valid() && Closed(g, view, st.covered)
    requires w in st.covered <==> w in g.vertices && ReachedBy(g, view, init, w)
    ensures w in SweepStep(g, view, withSingletons, st, x).covered <==> w in g.vertices && ReachedBy(g, view, init + [x], w)
  {
    var items := init + [x];
    if ReachedBy(g, view, init, w) {
      var y :| y in init && y in g.vertices && Reaches(g, view, y, w);
      assert y in items;
    }
    if ReachedBy(g, view, items, w) && !ReachedBy(g, view, init, w) {
      var y :| y in items && y in g.vertices && Reaches(g, view, y, w);
      assert y == x;
      if x in st.covered {
        ClosedKeeps(g, view, st.covered, x, w);
      }
    }
    if x in g.vertices && x !in st.covered {
      RegionOfClosed(g, view, x, st.covered, w);
      if Reaches(g, view, x, w) {
        assert ReachedBy(g, view, items, w);
      }
    }
  }

  /** The coloured vertices are exactly those reached from a seed that is a vertex of the graph. */
  lemma {:induction false} SweepCovers(g: Graph, view: View, withSingletons: bool, items: seq<Vertex>)
    requires g.Valid()
    ensures SweepAll(g, view, withSingletons, items).covered == ReachedFrom(g, view, items)
    decreases |items|
  {
    if items != [] {
      var init := items[..|items| - 1];
      var x := items[|items| - 1];
      SweepCovers(g, view, withSingletons, init);
      SweepTidy(g, view, withSingletons, init);
      var st := SweepAll(g, view, withSingletons, init);
      assert init + [x] == items;
      forall w
        ensures w in SweepAll(g, view, withSingletons, items).covered <==> w in ReachedFrom(g, view, items)
      {
        assert w in st.covered <==> w in ReachedFrom(g, view, init);
        CoverStepAt(g, view, withSingletons, st, init, x, w);
      }
    }
  }

  // ---- the query ----

  /**
   * `graph_components_root_descriptor`: the descriptor of `v` when it is a
   * vertex; otherwise null, after appending `{v}` at the back of the result
   * when singletons are wanted.
   */
  method RootDescriptor(g: Graph, result: seq<set<Vertex>>, v: Vertex, withSingletons: bool)
    returns (result': seq<set<Vertex>>, d: Option<Vertex>)
    ensures v in g.vertices ==> d == Some(v) && result' == result
    ensures v !in g.vertices ==> d == None && result' == result + (if withSingletons then [{v}] else [])
  {
    result' := result;
    if v !in g.vertices {
      if withSingletons {
        result' := result' + [{v}];
      }
      return result', None;
    }
    d := Some(v);
  }

  /**
   * A depth-first walk with the vertex recorder from a white seed, the other
   * vertices black or white: it records the region of the seed outside the
   * black vertices, and paints that region black.
   */
  method WalkSeed(g: Graph, view: View, colors: ColorMap, x: Vertex, ghost covered: set<Vertex>)
    returns (component: set<Vertex>)
    requires g.Valid() && x in g.vertices && x !in covered
    requires forall v :: colors.At(v) == if v in covered then Black else White
    modifies colors
    ensures component == Region(g, view, x, covered)
    ensures forall v :: colors.At(v) == if v in covered + component then Black else White
  {
    var rec := new Visitor(Record, false);
    ghost var run := RunOf(g, view, x, rec, Never, colors, null);
    assert Avoid(run) == covered;
    var seg := DepthFirstVisit(g, view, x, rec, Never, colors, null);
    ReplayRecord(Record, Never, run.s0, seg);
    WalkRegion(run, seg);
    DiscoveredSetMeans(seg);
    component := rec.component;
  }

  /** How the result list is rearranged: the front, a new group, the groups, the singletons and new singletons. */
  lemma Regroup<T>(front: T, c: seq<T>, groups: seq<T>, singles: seq<T>, more: seq<T>)
    ensures ([front] + groups + singles)[1..] == groups + singles
    ensures [front] + groups + singles + more == [front] + groups + (singles + more)
    ensures [front] + c + (groups + singles) == [front] + (c + groups) + singles
  {
  }

  /**
   * One round of `graph_components_i`: a seed that is absent or already
   * coloured adds nothing to the front; otherwise a depth-first walk from it
   * records its region into the front group, which is kept when it has more
   * than one vertex or singletons are wanted.
   */
  method VisitSeed(g: Graph, view: View, colors: ColorMap, result: seq<set<Vertex>>, x: Vertex,
                   lookup: bool, withSingletons: bool, ghost st: Sweep)
    returns (result': seq<set<Vertex>>)
    requires g.Valid() && (lookup || x in g.vertices)
    requires result == [{}] + st.groups + st.singles
    requires forall v :: colors.At(v) == if v in st.covered then Black else White
    modifies colors
    ensures result' == [{}] + SweepStep(g, view, withSingletons, st, x).groups + SweepStep(g, view, withSingletons, st, x).singles
    ensures forall v :: colors.At(v) == if v in SweepStep(g, view, withSingletons, st, x).covered then Black else White
  {
    var d: Option<Vertex>;
    result' := result;
    if lookup {
      result', d := RootDescriptor(g, result', x, withSingletons);
    } else {
      d := Some(x);
    }
    if d.None? {
      Regroup({}, [], st.groups, st.singles, if withSingletons then [{x}] else []);
      return;
    }
    var c := colors.Lookup(x);
    if c != White {
      return;
    }
    var component := WalkSeed(g, view, colors, x, st.covered);
    StepWalked(g, view, withSingletons, st, x, component);
    if |component| > 1 || withSingletons {
      Regroup({}, [component], st.groups, st.singles, []);
      result' := [{}] + [component] + result'[1..];
    }
  }

  /**
   * `graph_components_i`: one depth-first walk from each seed still white,
   * recording what it discovers into the group in front. When `lookup` is
   * set the seeds go through the descriptor lookup first; otherwise they
   * are vertices already.
   */
  method GraphComponentsI(g: Graph, view: View, items: seq<Vertex>, lookup: bool, withSingletons: bool)
    returns (result: seq<set<Vertex>>)
    requires g.Valid()
    requires !lookup ==> forall x :: x in items ==> x in g.vertices
    ensures result == SweepAll(g, view, withSingletons, items).groups + SweepAll(g, view, withSingletons, items).singles
  {
    var colors := new ColorMap();
    result := [{}];
    var i: nat := 0;
    while i < |items|
      invariant i <= |items|
      invariant result == [{}] + SweepAll(g, view, withSingletons, items[..i]).groups + SweepAll(g, view, withSingletons, items[..i]).singles
      invariant forall v :: colors.At(v) == if v in SweepAll(g, view, withSingletons, items[..i]).covered then Black else White
    {
      SweepPrefix(g, view, withSingletons, items, i);
      result := VisitSeed(g, view, colors, result, items[i], lookup, withSingletons, SweepAll(g, view, withSingletons, items[..i]));
      i := i + 1;
    }
    assert items[..i] == items;
    Regroup({}, [], SweepAll(g, view, withSingletons, items).groups, SweepAll(g, view, withSingletons, items).singles, []);
    result := result[1..];
  }

  /** The vertices of the view no arc enters, in vertex order: the default seeds. */
  function Roots(g: Graph, view: View, vs: seq<Vertex>): (r: seq<Vertex>)
    ensures forall v :: v in r <==> v in vs && IsRoot(g, view, v)
  {
    if vs == [] then []
    else (if IsRoot(g, view, vs[0]) then [vs[0]] else []) + Roots(g, view, vs[1..])
  }

  /** The seeds a call walks from: the given ones, or the roots of the view. */
  function Seeds(g: Graph, view: View, roots: Option<seq<Vertex>>): seq<Vertex>
  {
    if roots.None? then Roots(g, view, g.vertices) else roots.value
  }

  /**
   * `graph_do_generated_subgraphs` on the Direct or Reverse view: without
   * seeds, the roots of the view are the seeds and need no lookup;
   * otherwise each seed is looked up.
   */
  method GeneratedSubgraphs(g: Graph, view: View, roots: Option<seq<Vertex>>, withSingletons: bool)
    returns (groups: seq<set<Vertex>>)
    requires g.Valid() && view != Undirected && (roots.Some? ==> Distinct(roots.value))
    ensures groups == SweepAll(g, view, withSingletons, Seeds(g, view, roots)).groups
                      + SweepAll(g, view, withSingletons, Seeds(g, view, roots)).singles
  {
    if roots.None? {
      var items := Roots(g, view, g.vertices);
      groups := GraphComponentsI(g, view, items, false, withSingletons);
    } else {
      groups := GraphComponentsI(g, view, roots.value, true, withSingletons);
    }
  }
}
