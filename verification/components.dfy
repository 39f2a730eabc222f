/**
 * `graph_components`: the connected components of the graph seen as
 * undirected, all of them or those holding a seed.
 *
 * The component numbering comes from `connected_components`, modelled as the
 * standard algorithm: one recorder walk of the Undirected view from every
 * vertex still white, in vertex order, all walks sharing one colour map; the
 * vertices of the n-th walk form class n.
 */
module Components {
  import opened Graphs
  import opened Colors
  import opened Reachability
  import opened Grouping

  // ---- connected_components ----

  /** The vertices a component map puts in class `i`. */
  ghost function ClassOf(comp: map<Vertex, nat>, i: nat): set<Vertex>
  {
    set v | v in comp && comp[v] == i
  }

  /** Class `i` has a member. */
  ghost predicate Used(comp: map<Vertex, nat>, i: nat)
  {
    exists v :: v in comp && comp[v] == i
  }

  /**
   * A numbering of components: classes 0 to `count - 1`, none of them empty,
   * each the set of vertices an undirected path joins to any of its members.
   */
  ghost predicate Classes(g: Graph, comp: map<Vertex, nat>, count: nat)
  {
    && (forall v :: v in comp ==> v in g.vertices && comp[v] < count)
    && (forall i :: 0 <= i < count ==> Used(comp, i))
    && (forall v :: v in comp ==> ClassOf(comp, comp[v]) == ReachSet(g, Undirected, v))
  }

  /** `comp` with every vertex of `c` numbered `n`. */
  function Number(comp: map<Vertex, nat>, c: set<Vertex>, n: nat): (r: map<Vertex, nat>)
    ensures r.Keys == comp.Keys + c
    ensures forall v :: v in r ==> r[v] == if v in c then n else comp[v]
  {
    comp + map w | w in c :: n
  }

  /** Two vertices joined by an undirected path have the same component. */
  lemma SameComponent(g: Graph, v: Vertex, w: Vertex)
    requires Reaches(g, Undirected, v, w)
    ensures ReachSet(g, Undirected, v) == ReachSet(g, Undirected, w)
  {
    ReachesSymmetric(g, v, w);
    forall u | u in ReachSet(g, Undirected, v)
      ensures u in ReachSet(g, Undirected, w)
    {
      ReachesTrans(g, Undirected, w, v, u);
    }
    forall u | u in ReachSet(g, Undirected, w)
      ensures u in ReachSet(g, Undirected, v)
    {
      ReachesTrans(g, Undirected, v, w, u);
    }
  }

  /** Outside a closed set of vertices, the region of a vertex of the Undirected view is its whole component. */
  lemma RegionIsComponent(g: Graph, x: Vertex, covered: set<Vertex>)
    requires g.Valid() && Closed(g, Undirected, covered) && x !in covered
    ensures Region(g, Undirected, x, covered) == ReachSet(g, Undirected, x)
  {
    forall w
      ensures w in Region(g, Undirected, x, covered) <==> w in ReachSet(g, Undirected, x)
    {
      RegionOfClosed(g, Undirected, x, covered, w);
      if Reaches(g, Undirected, x, w) && w in covered {
        ReachesSymmetric(g, x, w);
        ClosedKeeps(g, Undirected, covered, w, x);
      }
    }
  }

  /** Numbering a set of vertices not yet numbered as the next class keeps every class non-empty when the set holds `x`. */
  lemma AddClassUsed(comp: map<Vertex, nat>, count: nat, x: Vertex, c: set<Vertex>)
    requires (forall i :: 0 <= i < count ==> Used(comp, i)) && x in c
    requires forall v :: v in comp ==> v !in c
    ensures forall i :: 0 <= i < count + 1 ==> Used(Number(comp, c, count), i)
  {
    var comp' := Number(comp, c, count);
    forall i | 0 <= i < count + 1
      ensures Used(comp', i)
    {
      if i < count {
        assert Used(comp, i);
        var v :| v in comp && comp[v] == i;
        assert comp'[v] == i;
      } else {
        assert comp'[x] == count;
      }
    }
  }

  /** Numbering the component of `x` as the next class makes each of its members' class that component. */
  lemma AddClassSets(g: Graph, comp: map<Vertex, nat>, count: nat, x: Vertex, c: set<Vertex>)
    requires forall v :: v in comp ==> comp[v] < count && v !in c
    requires forall v :: v in comp ==> ClassOf(comp, comp[v]) == ReachSet(g, Undirected, v)
    requires c == ReachSet(g, Undirected, x)
    ensures forall v :: v in Number(comp, c, count) ==>
              ClassOf(Number(comp, c, count), Number(comp, c, count)[v]) == ReachSet(g, Undirected, v)
  {
    var comp' := Number(comp, c, count);
    assert ClassOf(comp', count) == c;
    forall v | v in comp'
      ensures ClassOf(comp', comp'[v]) == ReachSet(g, Undirected, v)
    {
      if v in c {
        SameComponent(g, x, v);
      } else {
        assert ClassOf(comp', comp[v]) == ClassOf(comp, comp[v]);
      }
    }
  }

  /** Numbering the component of a vertex not yet numbered as the next class keeps a numbering of components. */
  lemma AddClass(g: Graph, comp: map<Vertex, nat>, count: nat, x: Vertex, c: set<Vertex>)
    requires g.Valid() && Classes(g, comp, count) && Closed(g, Undirected, comp.Keys)
    requires x in g.vertices && x !in comp && c == Region(g, Undirected, x, comp.Keys)
    ensures c == ReachSet(g, Undirected, x)
    ensures Classes(g, Number(comp, c, count), count + 1)
    ensures Closed(g, Undirected, comp.Keys + c)
    ensures x in c
  {
    RegionIsComponent(g, x, comp.Keys);
    RegionClosed(g, Undirected, x, comp.Keys);
    RegionFresh(g, Undirected, x, comp.Keys);
    RegionHasSeed(g, Undirected, x, comp.Keys);
    AddClassUsed(comp, count, x, c);
    AddClassSets(g, comp, count, x, c);
  }

  /**
   * One round of `connected_components`: a vertex still white starts a walk
   * whose vertices become the next class and turn black.
   */
  method NumberFrom(g: Graph, colors: ColorMap, comp: map<Vertex, nat>, count: nat, v: Vertex)
    returns (comp': map<Vertex, nat>, count': nat)
    requires g.Valid() && v in g.vertices
    requires Classes(g, comp, count) && Closed(g, Undirected, comp.Keys)
    requires forall u :: colors.At(u) == if u in comp then Black else White
    modifies colors
    ensures Classes(g, comp', count') && Closed(g, Undirected, comp'.Keys)
    ensures comp.Keys <= comp'.Keys && v in comp'
    ensures forall u :: colors.At(u) == if u in comp' then Black else White
  {
    var c := colors.Lookup(v);
    if c != White {
      return comp, count;
    }
    var component := WalkSeed(g, Undirected, colors, v, comp.Keys);
    AddClass(g, comp, count, v, component);
    comp' := Number(comp, component, count);
    count' := count + 1;
  }

  /**
   * `connected_components` on the undirected view: numbers the components
   * 0, 1, ... in the order of their first vertex, and gives every vertex the
   * number of its component.
   */
  method ConnectedComponents(g: Graph) returns (comp: map<Vertex, nat>, count: nat)
    requires g.Valid()
    ensures Classes(g, comp, count)
    ensures forall v :: v in comp <==> v in g.vertices
  {
    var colors := new ColorMap();
    comp := map[];
    count := 0;
    var i := 0;
    while i < |g.vertices|
      invariant i <= |g.vertices|
      invariant Classes(g, comp, count) && Closed(g, Undirected, comp.Keys)
      invariant forall v :: v in g.vertices[..i] ==> v in comp
      invariant forall v :: colors.At(v) == if v in comp then Black else White
    {
      assert g.vertices[..i + 1] == g.vertices[..i] + [g.vertices[i]];
      comp, count := NumberFrom(g, colors, comp, count, g.vertices[i]);
      i := i + 1;
    }
    assert g.vertices[..i] == g.vertices;
  }

  // ---- graph_components ----

  /** The set is the undirected component of one of the vertices. */
  ghost predicate IsComponent(g: Graph, c: set<Vertex>)
  {
    exists v :: v in g.vertices && c == ReachSet(g, Undirected, v)
  }

  /** The singletons a call reports for its absent seeds, in seed order. */
  function Singles(g: Graph, seeds: Option<seq<Vertex>>, withSingletons: bool): seq<set<Vertex>>
  {
    if seeds.None? then [] else AbsentSingles(g, withSingletons, seeds.value)
  }

  /**
   * The components a call reports: every component without seeds; with
   * seeds, those holding one, and only those of more than one vertex when
   * singletons are not wanted.
   */
  ghost predicate Picked(g: Graph, seeds: Option<seq<Vertex>>, withSingletons: bool, c: set<Vertex>)
  {
    && IsComponent(g, c)
    && (seeds.Some? ==> HasSeed(c, seeds.value) && (withSingletons || |c| > 1))
  }

  /** Class `i` is enabled: always without seeds, otherwise when it holds a seed. */
  ghost predicate Wanted(comp: map<Vertex, nat>, seeds: Option<seq<Vertex>>, i: nat)
  {
    seeds.None? || HasSeed(ClassOf(comp, i), seeds.value)
  }

  /** One more seed is in a set exactly when it or an earlier one is. */
  lemma HasSeedAppend(c: set<Vertex>, items: seq<Vertex>, v: Vertex)
    ensures HasSeed(c, items + [v]) <==> HasSeed(c, items) || v in c
  {
    if HasSeed(c, items) {
      var y :| y in items && y in c;
      assert y in items + [v];
    }
    if v in c {
      assert v in items + [v];
    }
  }

  /** No set is reported twice. */
  ghost predicate NoTwice(cs: seq<set<Vertex>>)
  {
    forall a, b :: 0 <= a < b < |cs| ==> cs[a] != cs[b]
  }

  /** Distinct seeds, the members of a set, report each absent seed's singleton once. */
  lemma {:induction false} SinglesDistinct(g: Graph, withSingletons: bool, seeds: seq<Vertex>)
    requires Distinct(seeds)
    ensures NoTwice(AbsentSingles(g, withSingletons, seeds))
  {
    if seeds != [] {
      var n := |seeds| - 1;
      var init := seeds[..n];
      assert Distinct(init) by {
        forall a, b | 0 <= a < b < |init|
          ensures init[a] != init[b]
        {
          assert init[a] == seeds[a] && init[b] == seeds[b];
        }
      }
      SinglesDistinct(g, withSingletons, init);
      var prev := AbsentSingles(g, withSingletons, init);
      if withSingletons && seeds[n] !in g.vertices {
        forall c | c in prev
          ensures c != {seeds[n]}
        {
          var x :| x in init && x !in g.vertices && c == {x};
          var k :| 0 <= k < n && init[k] == x;
          assert seeds[k] == x && seeds[n] !in c;
        }
        var r := prev + [{seeds[n]}];
        forall a, b | 0 <= a < b < |r|
          ensures r[a] != r[b]
        {
          assert r[a] == prev[a] && r[a] in prev;
          if b < |prev| {
            assert r[b] == prev[b];
          } else {
            assert r[b] == {seeds[n]};
          }
        }
        assert AbsentSingles(g, withSingletons, seeds) == r;
      } else {
        assert AbsentSingles(g, withSingletons, seeds) == prev + [];
      }
    }
  }

  /**
   * The seed loop of `graph_components`: a seed that is a vertex enables its
   * class; an absent seed is reported as a singleton when singletons are
   * wanted.
   */
  method EnableSeeds(g: Graph, comp: map<Vertex, nat>, enabled: array<bool>, seeds: seq<Vertex>, withSingletons: bool)
    returns (ret: seq<set<Vertex>>)
    requires forall v :: v in comp <==> v in g.vertices
    requires forall v :: v in comp ==> comp[v] < enabled.Length
    requires forall i :: 0 <= i < enabled.Length ==> !enabled[i]
    requires Distinct(seeds)
    modifies enabled
    ensures ret == AbsentSingles(g, withSingletons, seeds)
    ensures forall i :: 0 <= i < enabled.Length ==> (enabled[i] <==> HasSeed(ClassOf(comp, i), seeds))
  {
    ret := [];
    var j := 0;
    while j < |seeds|
      invariant j <= |seeds|
      invariant ret == AbsentSingles(g, withSingletons, seeds[..j])
      invariant forall i :: 0 <= i < enabled.Length ==> (enabled[i] <==> HasSeed(ClassOf(comp, i), seeds[..j]))
    {
      var v := seeds[j];
      assert seeds[..j + 1] == seeds[..j] + [v];
      assert seeds[..j + 1][..j] == seeds[..j];
      forall i | 0 <= i < enabled.Length {
        HasSeedAppend(ClassOf(comp, i), seeds[..j], v);
      }
      if v in g.vertices {
        enabled[comp[v]] := true;
      } else if withSingletons {
        ret := ret + [{v}];
      }
      j := j + 1;
    }
    assert seeds[..j] == seeds;
  }

  /** Taking one more vertex off the to-do set adds it to its own class only. */
  lemma ClassOfStep(comp: map<Vertex, nat>, todo: set<Vertex>, v: Vertex, i: nat)
    requires v in todo && todo <= comp.Keys
    ensures ClassOf(comp, i) - (todo - {v}) == (ClassOf(comp, i) - todo) + (if comp[v] == i then {v} else {})
  {
  }

  /** The member sets hold, for each enabled class, the members already taken off the to-do set. */
  ghost predicate FilledSoFar(comp: map<Vertex, nat>, enabled: seq<bool>, ms: seq<set<Vertex>>, todo: set<Vertex>)
  {
    |ms| == |enabled| && forall i :: 0 <= i < |ms| ==> ms[i] == if enabled[i] then ClassOf(comp, i) - todo else {}
  }

  /** One round of the member loop keeps every enabled class filled with its members already done. */
  lemma FillStep(comp: map<Vertex, nat>, enabled: seq<bool>, before: seq<set<Vertex>>, after: seq<set<Vertex>>,
                 todo: set<Vertex>, v: Vertex)
    requires v in todo && todo <= comp.Keys && comp[v] < |before|
    requires FilledSoFar(comp, enabled, before, todo)
    requires after == if enabled[comp[v]] then before[comp[v] := before[comp[v]] + {v}] else before
    ensures FilledSoFar(comp, enabled, after, todo - {v})
  {
    forall i | 0 <= i < |after|
      ensures after[i] == if enabled[i] then ClassOf(comp, i) - (todo - {v}) else {}
    {
      ClassOfStep(comp, todo, v, i);
    }
  }

  /**
   * The member loop of `graph_components`: every numbered vertex, in no
   * particular order, joins the member set of its class when the class is
   * enabled.
   */
  method FillMembers(comp: map<Vertex, nat>, enabled: array<bool>, members: array<set<Vertex>>)
    requires members.Length == enabled.Length
    requires forall v :: v in comp ==> comp[v] < enabled.Length
    requires forall i :: 0 <= i < members.Length ==> members[i] == {}
    modifies members
    ensures forall i :: 0 <= i < members.Length ==> members[i] == if enabled[i] then ClassOf(comp, i) else {}
  {
    var todo := comp.Keys;
    assert FilledSoFar(comp, enabled[..], members[..], todo);
    while todo != {}
      invariant todo <= comp.Keys
      invariant FilledSoFar(comp, enabled[..], members[..], todo)
      decreases |todo|
    {
      var v :| v in todo;
      var c := comp[v];
      ghost var before := members[..];
      if enabled[c] {
        members[c] := members[c] + {v};
      }
      FillStep(comp, enabled[..], before, members[..], todo, v);
      todo := todo - {v};
    }
    assert forall i :: 0 <= i < members.Length ==> members[i] == members[..][i];
  }

  /** Class `i` stays in the answer: it is enabled, and not a singleton about to be removed. */
  predicate Keeps(members: seq<set<Vertex>>, enabled: seq<bool>, dropSingles: bool, i: nat)
    requires i < |members| && i < |enabled|
  {
    enabled[i] && !(dropSingles && |members[i]| == 1)
  }

  /** The member sets of the classes below `n` that stay, in class order. */
  function KeptUpTo(members: seq<set<Vertex>>, enabled: seq<bool>, dropSingles: bool, n: nat): seq<set<Vertex>>
    requires n <= |members| && n <= |enabled|
  {
    if n == 0 then []
    else
      KeptUpTo(members, enabled, dropSingles, n - 1)
      + (if Keeps(members, enabled, dropSingles, n - 1) then [members[n - 1]] else [])
  }

  /** Every set that stays is the member set of a class that stays. */
  lemma {:induction false} KeptIndex(members: seq<set<Vertex>>, enabled: seq<bool>, dropSingles: bool, n: nat, c: set<Vertex>)
    returns (i: nat)
    requires n <= |members| && n <= |enabled| && c in KeptUpTo(members, enabled, dropSingles, n)
    ensures i < n && Keeps(members, enabled, dropSingles, i) && c == members[i]
  {
    if c in KeptUpTo(members, enabled, dropSingles, n - 1) {
      i := KeptIndex(members, enabled, dropSingles, n - 1, c);
    } else {
      i := n - 1;
    }
  }

  /** The member set of every class that stays is in the answer. */
  lemma {:induction false} KeptContains(members: seq<set<Vertex>>, enabled: seq<bool>, dropSingles: bool, n: nat, i: nat)
    requires n <= |members| && n <= |enabled| && i < n && Keeps(members, enabled, dropSingles, i)
    ensures members[i] in KeptUpTo(members, enabled, dropSingles, n)
  {
    if i < n - 1 {
      KeptContains(members, enabled, dropSingles, n - 1, i);
    }
  }

  /** No two of the sets share a vertex. */
  ghost predicate Apart(cs: seq<set<Vertex>>)
  {
    forall k, l :: 0 <= k < l < |cs| ==> cs[k] * cs[l] == {}
  }

  /** Pairwise disjoint member sets stay pairwise disjoint in the answer. */
  lemma {:induction false} KeptDisjoint(members: seq<set<Vertex>>, enabled: seq<bool>, dropSingles: bool, n: nat)
    requires n <= |members| && n <= |enabled|
    requires Apart(members)
    ensures Apart(KeptUpTo(members, enabled, dropSingles, n))
  {
    if n > 0 {
      var prev := KeptUpTo(members, enabled, dropSingles, n - 1);
      var r := KeptUpTo(members, enabled, dropSingles, n);
      KeptDisjoint(members, enabled, dropSingles, n - 1);
      forall k, l | 0 <= k < l < |r|
        ensures r[k] * r[l] == {}
      {
        assert r[k] == prev[k];
        if l >= |prev| {
          var i := KeptIndex(members, enabled, dropSingles, n - 1, prev[k]);
          assert r[l] == members[n - 1];
        } else {
          assert r[l] == prev[l];
        }
      }
    }
  }

  /**
   * The store, blank and compact loops of `graph_components`, as intended:
   * the member sets of the enabled classes in class order, without the
   * singletons when they are to be removed.
   */
  method KeepClasses(members: array<set<Vertex>>, enabled: array<bool>, dropSingles: bool) returns (kept: seq<set<Vertex>>)
    requires members.Length == enabled.Length
    ensures kept == KeptUpTo(members[..], enabled[..], dropSingles, members.Length)
  {
    kept := [];
    var i := 0;
    while i < members.Length
      invariant i <= members.Length
      invariant kept == KeptUpTo(members[..], enabled[..], dropSingles, i)
    {
      if enabled[i] && !(dropSingles && |members[i]| == 1) {
        kept := kept + [members[i]];
      }
      i := i + 1;
    }
  }

  /** What the intended answer is made of: the member sets the classes hold once the loops are done. */
  ghost predicate Filled(g: Graph, comp: map<Vertex, nat>, count: nat, seeds: Option<seq<Vertex>>,
                         members: seq<set<Vertex>>, enabled: seq<bool>)
  {
    && Classes(g, comp, count) && (forall v :: v in comp <==> v in g.vertices)
    && |members| == count && |enabled| == count
    && (forall i :: 0 <= i < count ==> (enabled[i] <==> Wanted(comp, seeds, i)))
    && (forall i :: 0 <= i < count ==> members[i] == if enabled[i] then ClassOf(comp, i) else {})
  }

  /** Every set that stays is a component the call reports. */
  lemma KeptPicked(g: Graph, comp: map<Vertex, nat>, count: nat, seeds: Option<seq<Vertex>>, withSingletons: bool,
                   members: seq<set<Vertex>>, enabled: seq<bool>, c: set<Vertex>)
    requires Filled(g, comp, count, seeds, members, enabled)
    requires c in KeptUpTo(members, enabled, seeds.Some? && !withSingletons, count)
    ensures Picked(g, seeds, withSingletons, c)
  {
    var i := KeptIndex(members, enabled, seeds.Some? && !withSingletons, count, c);
    assert Used(comp, i);
    var v :| v in comp && comp[v] == i;
    assert c == ReachSet(g, Undirected, v);
    assert v in c;
  }

  /** Every component the call reports stays. */
  lemma PickedKept(g: Graph, comp: map<Vertex, nat>, count: nat, seeds: Option<seq<Vertex>>, withSingletons: bool,
                   members: seq<set<Vertex>>, enabled: seq<bool>, v: Vertex)
    requires Filled(g, comp, count, seeds, members, enabled)
    requires v in g.vertices && Picked(g, seeds, withSingletons, ReachSet(g, Undirected, v))
    ensures ReachSet(g, Undirected, v) in KeptUpTo(members, enabled, seeds.Some? && !withSingletons, count)
  {
    var i := comp[v];
    assert ClassOf(comp, i) == ReachSet(g, Undirected, v);
    assert Wanted(comp, seeds, i);
    KeptContains(members, enabled, seeds.Some? && !withSingletons, count, i);
  }

  /**
   * What the components part of the answer must be: components the call
   * reports, every one of them, and no two sharing a vertex (so each once).
   */
  ghost predicate Answer(g: Graph, seeds: Option<seq<Vertex>>, withSingletons: bool, cs: seq<set<Vertex>>)
  {
    && (forall k :: 0 <= k < |cs| ==> Picked(g, seeds, withSingletons, cs[k]))
    && (forall v :: v in g.vertices && Picked(g, seeds, withSingletons, ReachSet(g, Undirected, v)) ==>
          ReachSet(g, Undirected, v) in cs)
    && Apart(cs)
  }

  /** The member sets that stay are the answer. */
  lemma KeptAnswer(g: Graph, comp: map<Vertex, nat>, count: nat, seeds: Option<seq<Vertex>>, withSingletons: bool,
                   members: seq<set<Vertex>>, enabled: seq<bool>)
    requires Filled(g, comp, count, seeds, members, enabled)
    ensures Answer(g, seeds, withSingletons, KeptUpTo(members, enabled, seeds.Some? && !withSingletons, count))
  {
    var kept := KeptUpTo(members, enabled, seeds.Some? && !withSingletons, count);
    forall k | 0 <= k < |kept|
      ensures Picked(g, seeds, withSingletons, kept[k])
    {
      KeptPicked(g, comp, count, seeds, withSingletons, members, enabled, kept[k]);
    }
    forall v | v in g.vertices && Picked(g, seeds, withSingletons, ReachSet(g, Undirected, v))
      ensures ReachSet(g, Undirected, v) in kept
    {
      PickedKept(g, comp, count, seeds, withSingletons, members, enabled, v);
    }
    forall i, j | 0 <= i < j < |members|
      ensures members[i] * members[j] == {}
    {
      assert members[i] <= ClassOf(comp, i) && members[j] <= ClassOf(comp, j);
    }
    KeptDisjoint(members, enabled, seeds.Some? && !withSingletons, count);
  }

  /**
   * The loops of `graph_components` after the numbering, as intended: the
   * singletons of the absent seeds, and the member sets of the enabled
   * classes in class order, less the single vertices when seeds are given
   * and singletons are not wanted.
   */
  method SelectClasses(g: Graph, comp: map<Vertex, nat>, count: nat, seeds: Option<seq<Vertex>>, withSingletons: bool)
    returns (ret: seq<set<Vertex>>, kept: seq<set<Vertex>>)
    requires Classes(g, comp, count) && forall v :: v in comp <==> v in g.vertices
    requires seeds.Some? ==> Distinct(seeds.value)
    ensures ret == Singles(g, seeds, withSingletons)
    ensures Answer(g, seeds, withSingletons, kept)
  {
    var enabled := new bool[count](_ => seeds.None?);
    ret := [];
    if seeds.Some? {
      ret := EnableSeeds(g, comp, enabled, seeds.value, withSingletons);
    }
    var members := new set<Vertex>[count](_ => {});
    FillMembers(comp, enabled, members);
    kept := KeepClasses(members, enabled, seeds.Some? && !withSingletons);
    assert Filled(g, comp, count, seeds, members[..], enabled[..]);
    KeptAnswer(g, comp, count, seeds, withSingletons, members[..], enabled[..]);
  }

  /**
   * `graph_components` as its documentation describes it: the singletons
   * of the absent seeds in seed order when singletons are wanted, then,
   * each once, the components the call reports.
   */
  method Components(g: Graph, seeds: Option<seq<Vertex>>, withSingletons: bool) returns (r: seq<set<Vertex>>)
    requires g.Valid() && (seeds.Some? ==> Distinct(seeds.value))
    ensures |Singles(g, seeds, withSingletons)| <= |r|
    ensures r[..|Singles(g, seeds, withSingletons)|] == Singles(g, seeds, withSingletons)
    ensures NoTwice(r[..|Singles(g, seeds, withSingletons)|])
    ensures Answer(g, seeds, withSingletons, r[|Singles(g, seeds, withSingletons)|..])
  {
    var comp, count := ConnectedComponents(g);
    var ret, kept := SelectClasses(g, comp, count, seeds, withSingletons);
    r := ret + kept;
    assert r[..|ret|] == ret && r[|ret|..] == kept;
    if seeds.Some? {
      SinglesDistinct(g, withSingletons, seeds.value);
    }
  }

  // ---- the store loop as written ----

  /** A slot of the answer array: nil, or a set. */
  datatype Slot = Nil | Group(members: set<Vertex>)

  /** `rb_ary_store`: writes slot `i`, padding the array with nil up to `i` when it is shorter. */
  function Store(slots: seq<Slot>, i: nat, x: Slot): (r: seq<Slot>)
    ensures |r| == if i < |slots| then |slots| else i + 1
    ensures r[i] == x
    ensures forall k :: 0 <= k < |r| && k != i ==> r[k] == if k < |slots| then slots[k] else Nil
  {
    if i < |slots| then slots[i := x] else slots + seq(i - |slots|, _ => Nil) + [x]
  }

  /** `compact!`: drops the nil slots and keeps the others in order. */
  function Compact(slots: seq<Slot>): (r: seq<set<Vertex>>)
    ensures forall c :: c in r <==> Group(c) in slots
  {
    if slots == [] then []
    else
      Compact(slots[..|slots| - 1])
      + (if slots[|slots| - 1].Group? then [slots[|slots| - 1].members] else [])
  }

  /** The store loop: the slot of every enabled class below `n` receives its member set. */
  function StoreClasses(slots: seq<Slot>, members: seq<set<Vertex>>, enabled: seq<bool>, n: nat): seq<Slot>
    requires n <= |members| && n <= |enabled|
  {
    if n == 0 then slots
    else
      var s := StoreClasses(slots, members, enabled, n - 1);
      if enabled[n - 1] then Store(s, n - 1, Group(members[n - 1])) else s
  }

  /** The blank loop: the slot of every enabled class below `n` with a single member becomes nil. */
  function BlankSingles(slots: seq<Slot>, members: seq<set<Vertex>>, enabled: seq<bool>, n: nat): seq<Slot>
    requires n <= |members| && n <= |enabled|
  {
    if n == 0 then slots
    else
      var s := BlankSingles(slots, members, enabled, n - 1);
      if enabled[n - 1] && |members[n - 1]| == 1 then Store(s, n - 1, Nil) else s
  }

  /** The answer array after the seed loop: one slot per pushed singleton. */
  function Pushed(singles: seq<set<Vertex>>): (r: seq<Slot>)
    ensures |r| == |singles| && forall k :: 0 <= k < |r| ==> r[k] == Group(singles[k])
  {
    seq(|singles|, k requires 0 <= k < |singles| => Group(singles[k]))
  }

  /**
   * The last loops of `graph_components` as written: the seed loop has
   * pushed the singletons of the absent seeds at the front of the answer
   * array, and the store loop then writes class `i` to slot `i`, over
   * whatever singleton is there.
   */
  function ComponentsAsWritten(singles: seq<set<Vertex>>, members: seq<set<Vertex>>, enabled: seq<bool>,
                               dropSingles: bool): (r: seq<set<Vertex>>)
    requires |members| == |enabled|
    ensures forall c :: c in r ==> c in singles || c in members
  {
    var slots := Pushed(singles);
    var stored := StoreClasses(slots, members, enabled, |members|);
    StoreOnly(slots, members, enabled, |members|);
    var blanked := if dropSingles then BlankSingles(stored, members, enabled, |members|) else stored;
    BlankOnly(stored, members, enabled, |members|);
    forall c | Group(c) in blanked
      ensures c in singles || c in members
    {
      var k :| 0 <= k < |blanked| && blanked[k] == Group(c);
      if Group(c) in slots {
        var j :| 0 <= j < |slots| && slots[j] == Group(c);
      }
    }
    Compact(blanked)
  }

  /** The store loop writes nothing but member sets over the slots it is given, and nil padding. */
  lemma {:induction false} StoreOnly(slots: seq<Slot>, members: seq<set<Vertex>>, enabled: seq<bool>, n: nat)
    requires n <= |members| && n <= |enabled|
    ensures forall x :: x in StoreClasses(slots, members, enabled, n) ==> x == Nil || x in slots || (x.Group? && x.members in members)
  {
    if n > 0 {
      StoreOnly(slots, members, enabled, n - 1);
      var s := StoreClasses(slots, members, enabled, n - 1);
      if enabled[n - 1] {
        var r := Store(s, n - 1, Group(members[n - 1]));
        forall x | x in r
          ensures x == Nil || x in slots || (x.Group? && x.members in members)
        {
          var k :| 0 <= k < |r| && r[k] == x;
          if k != n - 1 && k < |s| {
            assert s[k] in s;
          }
        }
      }
    }
  }

  /** The blank loop only writes nil. */
  lemma {:induction false} BlankOnly(slots: seq<Slot>, members: seq<set<Vertex>>, enabled: seq<bool>, n: nat)
    requires n <= |members| && n <= |enabled|
    ensures forall x :: x in BlankSingles(slots, members, enabled, n) ==> x == Nil || x in slots
  {
    if n > 0 {
      BlankOnly(slots, members, enabled, n - 1);
      var s := BlankSingles(slots, members, enabled, n - 1);
      if enabled[n - 1] && |members[n - 1]| == 1 {
        var r := Store(s, n - 1, Nil);
        forall x | x in r
          ensures x == Nil || x in slots
        {
          var k :| 0 <= k < |r| && r[k] == x;
          if k != n - 1 && k < |s| {
            assert s[k] in s;
          }
        }
      }
    }
  }

  /**
   * The store loop loses an absent seed's singleton: in the graph whose one
   * vertex is 1, with seeds 5 (absent) then 1 and singletons wanted, the
   * seed loop reports `{5}` and enables the class `{1}`, whose store into
   * slot 0 overwrites `{5}`. The answer is `[{1}]`, where `Components`
   * answers `{5}` first.
   */
  lemma AbsentSingletonOverwritten()
    ensures Classes(Graph([1], []), map[1 := 0], 1)
    ensures Singles(Graph([1], []), Some([5, 1]), true) == [{5}]
    ensures Filled(Graph([1], []), map[1 := 0], 1, Some([5, 1]), [{1}], [true])
    ensures ComponentsAsWritten([{5}], [{1}], [true], false) == [{1}]
  {
    var g := Graph([1], []);
    var comp := map[1 := 0];
    PathReaches(g, Undirected, [1], {});
    assert ReachSet(g, Undirected, 1) == {1};
    assert ClassOf(comp, 0) == {1};
    assert Used(comp, 0);
    assert HasSeed(ClassOf(comp, 0), [5, 1]) by {
      assert 1 in [5, 1];
    }
    assert AbsentSingles(g, true, [5]) == [{5}] by {
      assert [5][..0] == [];
    }
    assert [5, 1][..1] == [5];
    assert Pushed([{5}]) == [Group({5})];
    assert StoreClasses(Pushed([{5}]), [{1}], [true], 1) == [Group({1})];
    assert Compact([Group({1})]) == [{1}] by {
      assert [Group({1})][..0] == [];
    }
  }

  /** The slots the loops are meant to leave: slot `i` holds class `i`'s member set when it stays, nil otherwise. */
  function Intended(members: seq<set<Vertex>>, enabled: seq<bool>, dropSingles: bool, n: nat): seq<Slot>
    requires n <= |members| && n <= |enabled|
  {
    seq(n, k requires 0 <= k < n => if Keeps(members, enabled, dropSingles, k) then Group(members[k]) else Nil)
  }

  /** Compacting the intended slots gives the member sets that stay. */
  lemma {:induction false} CompactIntended(members: seq<set<Vertex>>, enabled: seq<bool>, dropSingles: bool, n: nat)
    requires n <= |members| && n <= |enabled|
    ensures Compact(Intended(members, enabled, dropSingles, n)) == KeptUpTo(members, enabled, dropSingles, n)
  {
    if n > 0 {
      CompactIntended(members, enabled, dropSingles, n - 1);
      assert Intended(members, enabled, dropSingles, n)[..n - 1] == Intended(members, enabled, dropSingles, n - 1);
    }
  }

  /** Trailing nil slots vanish in the compaction. */
  lemma {:induction false} CompactNils(slots: seq<Slot>, j: nat)
    ensures Compact(slots + seq(j, _ => Nil)) == Compact(slots)
  {
    if j > 0 {
      CompactNils(slots, j - 1);
      var t := slots + seq(j, _ => Nil);
      assert t[..|t| - 1] == slots + seq(j - 1, _ => Nil);
    } else {
      assert slots + seq(j, _ => Nil) == slots;
    }
  }

  /**
   * Started on an empty array, the store loop leaves slot `k` holding class
   * `k`'s member set when it is enabled and nil otherwise, up to the last
   * enabled class.
   */
  lemma {:induction false} StoreShape(members: seq<set<Vertex>>, enabled: seq<bool>, n: nat)
    requires n <= |members| && n <= |enabled|
    ensures |StoreClasses([], members, enabled, n)| <= n
    ensures forall k :: 0 <= k < |StoreClasses([], members, enabled, n)| ==>
              StoreClasses([], members, enabled, n)[k] == if enabled[k] then Group(members[k]) else Nil
    ensures forall k :: |StoreClasses([], members, enabled, n)| <= k < n ==> !enabled[k]
  {
    if n > 0 {
      StoreShape(members, enabled, n - 1);
    }
  }

  /** The blank loop turns the slots of enabled single-vertex classes below `m` to nil, and nothing else. */
  lemma {:induction false} BlankShape(slots: seq<Slot>, members: seq<set<Vertex>>, enabled: seq<bool>, m: nat)
    requires m <= |members| && m <= |enabled|
    requires forall k :: |slots| <= k < m ==> !enabled[k]
    ensures |BlankSingles(slots, members, enabled, m)| == |slots|
    ensures forall k :: 0 <= k < |slots| ==>
              BlankSingles(slots, members, enabled, m)[k]
              == if k < m && enabled[k] && |members[k]| == 1 then Nil else slots[k]
  {
    if m > 0 {
      BlankShape(slots, members, enabled, m - 1);
    }
  }

  /**
   * With no absent seed to report, the loops as written give the intended
   * answer: the overwrite is the only way they go wrong.
   */
  lemma AsWrittenWithoutSingles(members: seq<set<Vertex>>, enabled: seq<bool>, dropSingles: bool)
    requires |members| == |enabled|
    ensures ComponentsAsWritten([], members, enabled, dropSingles) == KeptUpTo(members, enabled, dropSingles, |members|)
  {
    var n := |members|;
    var stored := StoreClasses([], members, enabled, n);
    StoreShape(members, enabled, n);
    BlankShape(stored, members, enabled, n);
    assert Pushed([]) == [];
    var blanked := if dropSingles then BlankSingles(stored, members, enabled, n) else stored;
    assert blanked + seq(n - |blanked|, _ => Nil) == Intended(members, enabled, dropSingles, n);
    CompactNils(blanked, n - |blanked|);
    CompactIntended(members, enabled, dropSingles, n);
  }
}
