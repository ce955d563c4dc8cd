/** The critical-path computation of the collector (`compute_critical_path`
    and its memoised helper `longest`, src/cargo_ops/build.rs:160-244).

    An edge `from -> to` means that `from` depends on `to`.  The cost of a
    crate is its own duration plus the largest cost among the crates that
    depend on it, so the crate with the largest cost starts the longest
    chain, and following the recorded best dependent from it walks that
    chain.

    The source recursion has no guard against cycles; the model therefore
    takes, as a ghost witness of acyclicity, a rank that is lower at every
    edge's `from` than at its `to`.  The order in which the source visits
    the keys of its node HashMap is unspecified; the model takes it as an
    explicit sequence `order` of the node keys. */
module CriticalPath {
  import opened Wrappers
  import opened Model

  // ----- Reverse adjacency -----------------------------------------------

  /** The crates that depend on `id`, in edge order: the `from` of every
      edge whose `to` is `id`. */
  function Dependents(edges: seq<DepEdge>, id: CrateId): seq<CrateId>
  {
    if edges == [] then []
    else
      var e := edges[|edges| - 1];
      Dependents(edges[..|edges| - 1], id) + (if e.to == id then [e.from] else [])
  }

  /** Some edge says that `from` depends on `to`. */
  ghost predicate EdgeBetween(edges: seq<DepEdge>, from: CrateId, to: CrateId)
  {
    exists i :: 0 <= i < |edges| && edges[i].from == from && edges[i].to == to
  }

  /** `d` is listed as a dependent of `id` exactly when an edge `d -> id` exists. */
  lemma {:induction false} DependentsAreEdges(edges: seq<DepEdge>, id: CrateId, d: CrateId)
    ensures d in Dependents(edges, id) <==> EdgeBetween(edges, d, id)
    decreases |edges|
  {
    if edges != [] {
      var n := |edges| - 1;
      DependentsAreEdges(edges[..n], id, d);
      assert forall i :: 0 <= i < n ==> edges[..n][i] == edges[i];
      if d in Dependents(edges, id) && d !in Dependents(edges[..n], id) {
        assert edges[n].to == id && edges[n].from == d;
      }
      if EdgeBetween(edges, d, id) && !EdgeBetween(edges[..n], d, id) {
        var i :| 0 <= i < |edges| && edges[i].from == d && edges[i].to == id;
        assert i == n;
      }
    }
  }

  /** The reverse adjacency map, where a missing entry means no dependents. */
  function DependentsIn(index: map<CrateId, seq<CrateId>>, id: CrateId): seq<CrateId>
  {
    if id in index then index[id] else []
  }

  ghost predicate IndexesDependents(index: map<CrateId, seq<CrateId>>, edges: seq<DepEdge>)
  {
    forall id :: DependentsIn(index, id) == Dependents(edges, id)
  }

  /** The loop that builds `dependents` from the edge list. */
  method BuildDependents(edges: seq<DepEdge>) returns (index: map<CrateId, seq<CrateId>>)
    ensures IndexesDependents(index, edges)
  {
    index := map[];
    for i := 0 to |edges|
      invariant IndexesDependents(index, edges[..i])
    {
      var e := edges[i];
      index := index[e.to := DependentsIn(index, e.to) + [e.from]];
      assert edges[..i + 1][..i] == edges[..i];
    }
    assert edges[..|edges|] == edges;
  }

  // ----- Acyclicity ------------------------------------------------------

  function RankOf(rank: map<CrateId, nat>, id: CrateId): nat
  {
    if id in rank then rank[id] else 0
  }

  /** `rank` witnesses that the edges have no cycle: every crate ranks
      strictly below each crate it depends on. */
  ghost predicate Acyclic(edges: seq<DepEdge>, rank: map<CrateId, nat>)
  {
    forall i :: 0 <= i < |edges| ==> RankOf(rank, edges[i].from) < RankOf(rank, edges[i].to)
  }

  /** Two crates that depend on each other, as a dev-dependency cycle in
      the resolve can make them: each is a dependent of the other, so
      `longest` on one reaches the other and then the first again before
      either has a cost entry, and no rank makes the edges acyclic. */
  lemma MutualDependencyHasNoRank(a: CrateId, b: CrateId)
    requires a != b
    ensures var edges := [DepEdge(a, b, []), DepEdge(b, a, [])];
            && Dependents(edges, a) == [b]
            && Dependents(edges, b) == [a]
            && forall rank :: !Acyclic(edges, rank)
  {
    var edges := [DepEdge(a, b, []), DepEdge(b, a, [])];
    var first := edges[..1];
    assert first == [DepEdge(a, b, [])] && first[..0] == [];
    assert Dependents(first, a) == Dependents(first[..0], a) + [] == [];
    assert Dependents(first, b) == Dependents(first[..0], b) + [a] == [a];
    assert Dependents(edges, a) == Dependents(first, a) + [b];
    assert Dependents(edges, b) == Dependents(first, b) + [];
    forall rank ensures !Acyclic(edges, rank) {
      assert edges[0] == DepEdge(a, b, []) && edges[1] == DepEdge(b, a, []);
    }
  }

  lemma DependentsRankBelow(edges: seq<DepEdge>, rank: map<CrateId, nat>, id: CrateId)
    requires Acyclic(edges, rank)
    ensures forall j :: 0 <= j < |Dependents(edges, id)| ==>
              RankOf(rank, Dependents(edges, id)[j]) < RankOf(rank, id)
  {
    forall j | 0 <= j < |Dependents(edges, id)|
      ensures RankOf(rank, Dependents(edges, id)[j]) < RankOf(rank, id)
    {
      DependentsAreEdges(edges, id, Dependents(edges, id)[j]);
      var i :| 0 <= i < |edges| && edges[i].from == Dependents(edges, id)[j] && edges[i].to == id;
    }
  }

  // ----- The cost recursion, as equations --------------------------------

  /** A crate's own duration, 0 when it is not a node or was not timed. */
  function SelfDuration(nodes: map<CrateId, CrateNode>, id: CrateId): real
  {
    if id in nodes && nodes[id].durationMs.Some? then nodes[id].durationMs.value else 0.0
  }

  /** The running best of `longest`'s loop: the best child cost so far and
      the child that reached it. */
  datatype Choice = Choice(cost: real, next: Option<CrateId>)

  /** The cost `longest` returns for `id`. */
  ghost function Cost(g: BuildGraph, rank: map<CrateId, nat>, id: CrateId): real
    requires Acyclic(g.edges, rank)
    decreases RankOf(rank, id), 1, 0
  {
    DependentsRankBelow(g.edges, rank, id);
    SelfDuration(g.nodes, id) + Best(g, rank, id, Dependents(g.edges, id)).cost
  }

  /** The loop of `longest` over the dependents `ds` of `id`: a child
      replaces the current best only when its cost is strictly greater,
      starting from cost 0 and no child. */
  ghost function Best(g: BuildGraph, rank: map<CrateId, nat>, id: CrateId, ds: seq<CrateId>): Choice
    requires Acyclic(g.edges, rank)
    requires forall j :: 0 <= j < |ds| ==> RankOf(rank, ds[j]) < RankOf(rank, id)
    decreases RankOf(rank, id), 0, |ds|
  {
    if ds == [] then Choice(0.0, None)
    else
      var prev := Best(g, rank, id, ds[..|ds| - 1]);
      var d := ds[|ds| - 1];
      var c := Cost(g, rank, d);
      if c > prev.cost then Choice(c, Some(d)) else prev
  }

  /** The entry `longest` records in `next_on_path` for `id`, if any. */
  ghost function NextOnPath(g: BuildGraph, rank: map<CrateId, nat>, id: CrateId): Option<CrateId>
    requires Acyclic(g.edges, rank)
  {
    DependentsRankBelow(g.edges, rank, id);
    Best(g, rank, id, Dependents(g.edges, id)).next
  }

  /** The costs of `xs`, in order. */
  ghost function Costs(g: BuildGraph, rank: map<CrateId, nat>, xs: seq<CrateId>): (r: seq<real>)
    requires Acyclic(g.edges, rank)
    ensures |r| == |xs|
  {
    if xs == [] then [] else Costs(g, rank, xs[..|xs| - 1]) + [Cost(g, rank, xs[|xs| - 1])]
  }

  lemma {:induction false} CostsAt(g: BuildGraph, rank: map<CrateId, nat>, xs: seq<CrateId>, j: int)
    requires Acyclic(g.edges, rank)
    requires 0 <= j < |xs|
    ensures Costs(g, rank, xs)[j] == Cost(g, rank, xs[j])
    decreases |xs|
  {
    if j < |xs| - 1 {
      var pre := xs[..|xs| - 1];
      CostsAt(g, rank, pre, j);
      assert pre[j] == xs[j];
    }
  }

  /** A running best over values: starting from 0 and no position, a value
      replaces the best only when strictly greater. */
  datatype Pick = Pick(value: real, at: Option<nat>)

  function FirstMax(cs: seq<real>): (r: Pick)
    ensures r.at.Some? ==> r.at.value < |cs|
  {
    if cs == [] then Pick(0.0, None)
    else
      var prev := FirstMax(cs[..|cs| - 1]);
      if cs[|cs| - 1] > prev.value then Pick(cs[|cs| - 1], Some(|cs| - 1)) else prev
  }

  /** The running best is max(0, every value), and its position is the
      first one holding it, present only when the best is positive. */
  lemma {:induction false} FirstMaxIsFirstMaximum(cs: seq<real>)
    ensures var r := FirstMax(cs);
            && r.value >= 0.0
            && (forall j :: 0 <= j < |cs| ==> cs[j] <= r.value)
            && (r.at.None? <==> r.value == 0.0)
            && (r.at.Some? ==> cs[r.at.value] == r.value && forall j :: 0 <= j < r.at.value ==> cs[j] < r.value)
    decreases |cs|
  {
    if cs != [] {
      var pre := cs[..|cs| - 1];
      FirstMaxIsFirstMaximum(pre);
      assert forall j :: 0 <= j < |pre| ==> pre[j] == cs[j];
    }
  }

  /** `Best` is the running best over the dependents' costs. */
  lemma {:induction false} BestIsFirstMax(g: BuildGraph, rank: map<CrateId, nat>, id: CrateId, ds: seq<CrateId>)
    requires Acyclic(g.edges, rank)
    requires forall j :: 0 <= j < |ds| ==> RankOf(rank, ds[j]) < RankOf(rank, id)
    ensures var b := Best(g, rank, id, ds);
            var r := FirstMax(Costs(g, rank, ds));
            && b.cost == r.value
            && (b.next.None? <==> r.at.None?)
            && (r.at.Some? ==> b.next == Some(ds[r.at.value]))
    decreases |ds|
  {
    if ds != [] {
      var n := |ds| - 1;
      var pre := ds[..n];
      assert forall j :: 0 <= j < n ==> pre[j] == ds[j];
      BestIsFirstMax(g, rank, id, pre);
      assert Costs(g, rank, ds)[..n] == Costs(g, rank, pre);
    }
  }

  /** The best child is the first child of maximal cost, and only when that
      cost is positive; the best cost is max(0, every child's cost). */
  lemma BestIsFirstMaximum(g: BuildGraph, rank: map<CrateId, nat>, id: CrateId, ds: seq<CrateId>)
    requires Acyclic(g.edges, rank)
    requires forall j :: 0 <= j < |ds| ==> RankOf(rank, ds[j]) < RankOf(rank, id)
    ensures var b := Best(g, rank, id, ds);
            && b.cost >= 0.0
            && (forall j :: 0 <= j < |ds| ==> Cost(g, rank, ds[j]) <= b.cost)
            && (b.next.None? <==> b.cost == 0.0)
            && (b.next.Some? ==>
                  exists k :: 0 <= k < |ds| && ds[k] == b.next.value && Cost(g, rank, ds[k]) == b.cost
                              && forall j :: 0 <= j < k ==> Cost(g, rank, ds[j]) < b.cost)
  {
    var cs := Costs(g, rank, ds);
    BestIsFirstMax(g, rank, id, ds);
    FirstMaxIsFirstMaximum(cs);
    forall j | 0 <= j < |ds| ensures cs[j] == Cost(g, rank, ds[j]) {
      CostsAt(g, rank, ds, j);
    }
  }

  /** The cost equation: a crate's cost is its own duration plus the
      largest of 0 and its dependents' costs. */
  lemma CostEquation(g: BuildGraph, rank: map<CrateId, nat>, id: CrateId)
    requires Acyclic(g.edges, rank)
    ensures var own := SelfDuration(g.nodes, id);
            && own <= Cost(g, rank, id)
            && (forall d :: d in Dependents(g.edges, id) ==> own + Cost(g, rank, d) <= Cost(g, rank, id))
            && (Cost(g, rank, id) == own ||
                exists d :: d in Dependents(g.edges, id) && Cost(g, rank, id) == own + Cost(g, rank, d))
  {
    var ds := Dependents(g.edges, id);
    DependentsRankBelow(g.edges, rank, id);
    BestIsFirstMaximum(g, rank, id, ds);
    forall d | d in ds ensures SelfDuration(g.nodes, id) + Cost(g, rank, d) <= Cost(g, rank, id) {
      var j :| 0 <= j < |ds| && ds[j] == d;
    }
  }

  /** `next_on_path(id)` is the first dependent of strictly greatest cost,
      present only if that cost is positive; then the cost of `id` is its
      own duration plus the cost of that dependent, else just its own. */
  lemma NextOnPathIsFirstMaximum(g: BuildGraph, rank: map<CrateId, nat>, id: CrateId)
    requires Acyclic(g.edges, rank)
    ensures var ds := Dependents(g.edges, id);
            match NextOnPath(g, rank, id)
            case None =>
              && Cost(g, rank, id) == SelfDuration(g.nodes, id)
              && forall j :: 0 <= j < |ds| ==> Cost(g, rank, ds[j]) <= 0.0
            case Some(n) =>
              && Cost(g, rank, id) == SelfDuration(g.nodes, id) + Cost(g, rank, n)
              && 0.0 < Cost(g, rank, n)
              && exists k :: 0 <= k < |ds| && ds[k] == n
                             && (forall j :: 0 <= j < k ==> Cost(g, rank, ds[j]) < Cost(g, rank, n))
                             && (forall j :: 0 <= j < |ds| ==> Cost(g, rank, ds[j]) <= Cost(g, rank, n))
  {
    var ds := Dependents(g.edges, id);
    DependentsRankBelow(g.edges, rank, id);
    BestIsFirstMaximum(g, rank, id, ds);
    assert NextOnPath(g, rank, id) == Best(g, rank, id, ds).next;
    assert Cost(g, rank, id) == SelfDuration(g.nodes, id) + Best(g, rank, id, ds).cost;
  }

  lemma NextRankBelow(g: BuildGraph, rank: map<CrateId, nat>, id: CrateId)
    requires Acyclic(g.edges, rank)
    ensures NextOnPath(g, rank, id).Some? ==>
              NextOnPath(g, rank, id).value in Dependents(g.edges, id) &&
              RankOf(rank, NextOnPath(g, rank, id).value) < RankOf(rank, id)
  {
    NextOnPathIsFirstMaximum(g, rank, id);
    DependentsRankBelow(g.edges, rank, id);
  }

  // ----- The path --------------------------------------------------------

  /** The chain the path loop produces from `id` by following `next_on_path`. */
  ghost function Walk(g: BuildGraph, rank: map<CrateId, nat>, id: CrateId): seq<CrateId>
    requires Acyclic(g.edges, rank)
    decreases RankOf(rank, id)
  {
    match NextOnPath(g, rank, id)
    case None => [id]
    case Some(n) => NextRankBelow(g, rank, id); [id] + Walk(g, rank, n)
  }

  /** The sum of the own durations of the crates on `p`. */
  function PathDuration(nodes: map<CrateId, CrateNode>, p: seq<CrateId>): real
  {
    if p == [] then 0.0 else SelfDuration(nodes, p[0]) + PathDuration(nodes, p[1..])
  }

  /** A walk starts at its crate, each step moves to a dependent of the
      previous crate, and the durations along it add up to the cost of its
      first crate. */
  lemma {:induction false} WalkIsCostlyChain(g: BuildGraph, rank: map<CrateId, nat>, id: CrateId)
    requires Acyclic(g.edges, rank)
    ensures var p := Walk(g, rank, id);
            && |p| > 0 && p[0] == id
            && (forall i :: 0 <= i < |p| - 1 ==> p[i + 1] in Dependents(g.edges, p[i]))
            && PathDuration(g.nodes, p) == Cost(g, rank, id)
    decreases RankOf(rank, id)
  {
    NextOnPathIsFirstMaximum(g, rank, id);
    match NextOnPath(g, rank, id)
    case None =>
    case Some(n) =>
      NextRankBelow(g, rank, id);
      WalkIsCostlyChain(g, rank, n);
      var q := Walk(g, rank, n);
      var p := [id] + q;
      assert p[1..] == q;
      assert forall i :: 1 <= i < |p| ==> p[i] == q[i - 1];
  }

  // ----- Choosing the start ----------------------------------------------

  /** Rust's `max_by` over a sequence of values: a later value replaces
      the current one unless the current one is strictly greater, so the
      result is the index of the last maximum. */
  function LastMaxIndex(cs: seq<real>): (r: nat)
    requires |cs| > 0
    ensures r < |cs|
  {
    if |cs| == 1 then 0
    else
      var a := LastMaxIndex(cs[..|cs| - 1]);
      if cs[|cs| - 1] >= cs[a] then |cs| - 1 else a
  }

  /** Position `i` holds a maximal value and every later position a smaller one. */
  predicate IsLastMaxAt(cs: seq<real>, i: int)
  {
    && 0 <= i < |cs|
    && (forall j :: 0 <= j < |cs| ==> cs[j] <= cs[i])
    && (forall j :: i < j < |cs| ==> cs[j] < cs[i])
  }

  lemma {:induction false} LastMaxIndexIsLastMaximum(cs: seq<real>)
    requires |cs| > 0
    ensures IsLastMaxAt(cs, LastMaxIndex(cs))
    decreases |cs|
  {
    if |cs| > 1 {
      var pre := cs[..|cs| - 1];
      LastMaxIndexIsLastMaximum(pre);
      assert forall j :: 0 <= j < |pre| ==> pre[j] == cs[j];
    }
  }

  /** A sequence has one last maximum. */
  lemma LastMaxUnique(cs: seq<real>, i: int, j: int)
    requires IsLastMaxAt(cs, i) && IsLastMaxAt(cs, j)
    ensures i == j
  {
    assert cs[i] <= cs[j] <= cs[i];
  }

  /** The crate `max_by` picks from `xs` when comparing by cost. */
  ghost function LastMaxCost(g: BuildGraph, rank: map<CrateId, nat>, xs: seq<CrateId>): (r: CrateId)
    requires Acyclic(g.edges, rank)
    requires |xs| > 0
    ensures r in xs
  {
    xs[LastMaxIndex(Costs(g, rank, xs))]
  }

  /** One more round of the `max_by` fold. */
  lemma LastMaxStep(g: BuildGraph, rank: map<CrateId, nat>, xs: seq<CrateId>, i: nat)
    requires Acyclic(g.edges, rank)
    requires 1 <= i < |xs|
    ensures LastMaxCost(g, rank, xs[..i + 1]) ==
            var a := LastMaxCost(g, rank, xs[..i]);
            if Cost(g, rank, xs[i]) >= Cost(g, rank, a) then xs[i] else a
  {
    var pre := xs[..i];
    assert xs[..i + 1][..i] == pre;
    var cs := Costs(g, rank, xs[..i + 1]);
    assert cs[..i] == Costs(g, rank, pre);
    CostsAt(g, rank, pre, LastMaxIndex(Costs(g, rank, pre)));
  }

  /** The crate `max_by` picks is the last one of maximal cost. */
  lemma LastMaxCostIsLastMaximum(g: BuildGraph, rank: map<CrateId, nat>, xs: seq<CrateId>)
    requires Acyclic(g.edges, rank)
    requires |xs| > 0
    ensures exists i :: && 0 <= i < |xs| && xs[i] == LastMaxCost(g, rank, xs)
                        && (forall j :: 0 <= j < |xs| ==> Cost(g, rank, xs[j]) <= Cost(g, rank, xs[i]))
                        && (forall j :: i < j < |xs| ==> Cost(g, rank, xs[j]) < Cost(g, rank, xs[i]))
  {
    var cs := Costs(g, rank, xs);
    var i := LastMaxIndex(cs);
    LastMaxIndexIsLastMaximum(cs);
    forall j | 0 <= j < |xs| ensures cs[j] == Cost(g, rank, xs[j]) {
      CostsAt(g, rank, xs, j);
    }
  }

  /** Values in front that each also occur later do not move the last
      maximum out of the rest. */
  lemma LastMaxIndexIgnoresPrefix(pre: seq<real>, cs: seq<real>)
    requires |cs| > 0
    requires forall i :: 0 <= i < |pre| ==> pre[i] in cs
    ensures LastMaxIndex(pre + cs) == |pre| + LastMaxIndex(cs)
  {
    var all := pre + cs;
    var i := LastMaxIndex(all);
    LastMaxIndexIsLastMaximum(all);
    LastMaxIndexIsLastMaximum(cs);
    assert forall j :: 0 <= j < |cs| ==> all[|pre| + j] == cs[j];
    assert IsLastMaxAt(cs, i - |pre|);
    LastMaxUnique(cs, i - |pre|, LastMaxIndex(cs));
  }

  lemma {:induction false} CostsAppend(g: BuildGraph, rank: map<CrateId, nat>, ls: seq<CrateId>, xs: seq<CrateId>)
    requires Acyclic(g.edges, rank)
    ensures Costs(g, rank, ls + xs) == Costs(g, rank, ls) + Costs(g, rank, xs)
    decreases |xs|
  {
    if xs == [] {
      assert ls + xs == ls;
    } else {
      var n := |xs| - 1;
      assert (ls + xs)[..|ls| + n] == ls + xs[..n];
      CostsAppend(g, rank, ls, xs[..n]);
    }
  }

  /** Putting elements that also occur in `xs` in front of `xs` does not
      change the winner: the last maximum still lies in `xs`. */
  lemma LastMaxCostIgnoresPrefix(g: BuildGraph, rank: map<CrateId, nat>, ls: seq<CrateId>, xs: seq<CrateId>)
    requires Acyclic(g.edges, rank)
    requires |xs| > 0
    requires forall x :: x in ls ==> x in xs
    ensures LastMaxCost(g, rank, ls + xs) == LastMaxCost(g, rank, xs)
  {
    var cl := Costs(g, rank, ls);
    var cx := Costs(g, rank, xs);
    CostsAppend(g, rank, ls, xs);
    forall i | 0 <= i < |cl| ensures cl[i] in cx {
      assert ls[i] in ls;
      var m :| 0 <= m < |xs| && xs[m] == ls[i];
      CostsAt(g, rank, ls, i);
      CostsAt(g, rank, xs, m);
      assert cx[m] == cl[i];
    }
    LastMaxIndexIgnoresPrefix(cl, cx);
    assert (ls + xs)[|ls| + LastMaxIndex(cx)] == xs[LastMaxIndex(cx)];
  }

  // ----- The whole computation -------------------------------------------

  /** `order` lists every node key exactly once. */
  ghost predicate IsKeyOrder(order: seq<CrateId>, nodes: map<CrateId, CrateNode>)
  {
    && (forall i :: 0 <= i < |order| ==> order[i] in nodes)
    && (forall k :: k in nodes ==> k in order)
    && (forall i, j :: 0 <= i < j < |order| ==> order[i] != order[j])
  }

  /** The crates that have dependencies (`has_deps`). */
  function Froms(edges: seq<DepEdge>): set<CrateId>
  {
    set i | 0 <= i < |edges| :: edges[i].from
  }

  /** The keys, in `order`, that have no dependencies (`leaves`). */
  function Leaves(order: seq<CrateId>, hasDeps: set<CrateId>): (r: seq<CrateId>)
    ensures forall x :: x in r ==> x in order && x !in hasDeps
  {
    if order == [] then []
    else (if order[0] in hasDeps then [] else [order[0]]) + Leaves(order[1..], hasDeps)
  }

  /** The path `compute_critical_path` stores: the walk from the maximum
      of `leaves` followed by all keys. */
  ghost function CriticalPathOf(g: BuildGraph, order: seq<CrateId>, rank: map<CrateId, nat>): seq<CrateId>
    requires Acyclic(g.edges, rank)
  {
    var candidates := Leaves(order, Froms(g.edges)) + order;
    if candidates == [] then [] else Walk(g, rank, LastMaxCost(g, rank, candidates))
  }

  lemma CriticalPathIsWalkFromLastMaximum(g: BuildGraph, order: seq<CrateId>, rank: map<CrateId, nat>)
    requires Acyclic(g.edges, rank)
    ensures CriticalPathOf(g, order, rank) ==
            if order == [] then [] else Walk(g, rank, LastMaxCost(g, rank, order))
  {
    var ls := Leaves(order, Froms(g.edges));
    if order == [] {
      assert ls == [];
    } else {
      LastMaxCostIgnoresPrefix(g, rank, ls, order);
    }
  }

  /** The path is empty exactly when the graph has no nodes. */
  lemma CriticalPathEmptyIffNoNodes(g: BuildGraph, order: seq<CrateId>, rank: map<CrateId, nat>)
    requires Acyclic(g.edges, rank)
    requires IsKeyOrder(order, g.nodes)
    ensures CriticalPathOf(g, order, rank) == [] <==> |g.nodes| == 0
  {
    CriticalPathIsWalkFromLastMaximum(g, order, rank);
    if order != [] {
      assert order[0] in g.nodes;
      WalkIsCostlyChain(g, rank, LastMaxCost(g, rank, order));
    }
  }

  /** The path starts at a node of maximal cost, and at the last such node
      in key order. */
  lemma CriticalPathStartsAtLastMaximum(g: BuildGraph, order: seq<CrateId>, rank: map<CrateId, nat>)
    requires Acyclic(g.edges, rank)
    requires IsKeyOrder(order, g.nodes)
    requires |g.nodes| > 0
    ensures var p := CriticalPathOf(g, order, rank);
            && |p| > 0 && p[0] in g.nodes
            && (forall k :: k in g.nodes ==> Cost(g, rank, k) <= Cost(g, rank, p[0]))
            && exists i :: 0 <= i < |order| && order[i] == p[0]
                           && forall j :: i < j < |order| ==> Cost(g, rank, order[j]) < Cost(g, rank, p[0])
  {
    var k0 :| k0 in g.nodes;
    assert k0 in order;
    CriticalPathIsWalkFromLastMaximum(g, order, rank);
    var start := LastMaxCost(g, rank, order);
    WalkIsCostlyChain(g, rank, start);
    LastMaxCostIsLastMaximum(g, rank, order);
    forall k | k in g.nodes ensures Cost(g, rank, k) <= Cost(g, rank, start) {
      assert k in order;
      var j :| 0 <= j < |order| && order[j] == k;
    }
  }

  /** Each element after the first depends on the one before it: an edge
      `p[i+1] -> p[i]` exists. */
  lemma CriticalPathFollowsEdges(g: BuildGraph, order: seq<CrateId>, rank: map<CrateId, nat>)
    requires Acyclic(g.edges, rank)
    ensures var p := CriticalPathOf(g, order, rank);
            forall i :: 0 <= i < |p| - 1 ==> EdgeBetween(g.edges, p[i + 1], p[i])
  {
    var p := CriticalPathOf(g, order, rank);
    CriticalPathIsWalkFromLastMaximum(g, order, rank);
    if order != [] {
      WalkIsCostlyChain(g, rank, LastMaxCost(g, rank, order));
      forall i | 0 <= i < |p| - 1 ensures EdgeBetween(g.edges, p[i + 1], p[i]) {
        DependentsAreEdges(g.edges, p[i], p[i + 1]);
      }
    }
  }

  /** The durations along the path add up to the cost of its first crate. */
  lemma CriticalPathDuration(g: BuildGraph, order: seq<CrateId>, rank: map<CrateId, nat>)
    requires Acyclic(g.edges, rank)
    ensures var p := CriticalPathOf(g, order, rank);
            |p| > 0 ==> PathDuration(g.nodes, p) == Cost(g, rank, p[0])
  {
    CriticalPathIsWalkFromLastMaximum(g, order, rank);
    if order != [] {
      WalkIsCostlyChain(g, rank, LastMaxCost(g, rank, order));
    }
  }

  /** When every edge starts at a node and every key is listed, the path
      holds node ids only. */
  lemma CriticalPathNamesNodes(g: BuildGraph, order: seq<CrateId>, rank: map<CrateId, nat>)
    requires Acyclic(g.edges, rank)
    requires IsKeyOrder(order, g.nodes)
    requires forall i :: 0 <= i < |g.edges| ==> g.edges[i].from in g.nodes
    ensures var p := CriticalPathOf(g, order, rank);
            forall i :: 0 <= i < |p| ==> p[i] in g.nodes
  {
    var p := CriticalPathOf(g, order, rank);
    CriticalPathIsWalkFromLastMaximum(g, order, rank);
    if order != [] {
      WalkIsCostlyChain(g, rank, LastMaxCost(g, rank, order));
      assert p[0] in g.nodes;
      forall i | 1 <= i < |p| ensures p[i] in g.nodes {
        DependentsAreEdges(g.edges, p[i - 1], p[i]);
        var e :| 0 <= e < |g.edges| && g.edges[e].from == p[i] && g.edges[e].to == p[i - 1];
      }
    }
  }

  // ----- The imperative computation --------------------------------------

  /** The memo tables agree with the equations: every `cost` entry is the
      crate's cost, and `next_on_path` has an entry exactly for the crates
      whose best dependent exists, pointing at that dependent. */
  ghost predicate Memo(g: BuildGraph, rank: map<CrateId, nat>, cost: map<CrateId, real>, next: map<CrateId, CrateId>)
    requires Acyclic(g.edges, rank)
  {
    && (forall k :: k in cost ==>
          cost[k] == Cost(g, rank, k) && (k in next <==> NextOnPath(g, rank, k).Some?))
    && (forall k :: k in next ==>
          k in cost && NextOnPath(g, rank, k) == Some(next[k]) && next[k] in cost)
  }

  /** One more round of `longest`'s loop over the dependents. */
  lemma BestStep(g: BuildGraph, rank: map<CrateId, nat>, id: CrateId, ds: seq<CrateId>, i: nat)
    requires Acyclic(g.edges, rank)
    requires forall j :: 0 <= j < |ds| ==> RankOf(rank, ds[j]) < RankOf(rank, id)
    requires i < |ds|
    ensures Best(g, rank, id, ds[..i + 1]) ==
            var prev := Best(g, rank, id, ds[..i]);
            if Cost(g, rank, ds[i]) > prev.cost then Choice(Cost(g, rank, ds[i]), Some(ds[i])) else prev
  {
    assert ds[..i + 1][..i] == ds[..i];
  }

  /** Recording a crate's cost and best dependent keeps the tables in line
      with the equations. */
  lemma MemoRecord(g: BuildGraph, rank: map<CrateId, nat>, cost: map<CrateId, real>,
                   next: map<CrateId, CrateId>, id: CrateId, c: real, best: Option<CrateId>)
    requires Acyclic(g.edges, rank)
    requires Memo(g, rank, cost, next)
    requires c == Cost(g, rank, id) && best == NextOnPath(g, rank, id)
    requires best.Some? ==> best.value in cost
    ensures Memo(g, rank, cost[id := c], if best.Some? then next[id := best.value] else next)
  {
    var cost' := cost[id := c];
    var next' := if best.Some? then next[id := best.value] else next;
    forall k | k in cost'
      ensures cost'[k] == Cost(g, rank, k) && (k in next' <==> NextOnPath(g, rank, k).Some?)
    {
      if k != id {
        assert cost'[k] == cost[k] && (k in next' <==> k in next);
      }
    }
    forall k | k in next'
      ensures k in cost' && NextOnPath(g, rank, k) == Some(next'[k]) && next'[k] in cost'
    {
      if k != id {
        assert next'[k] == next[k];
      }
    }
  }

  /** `longest`: the memoised cost of `id`, filling `cost` and
      `next_on_path` for every crate it reaches.  A crate already in `cost`
      is answered from the table, which is then left unchanged. */
  method Longest(id: CrateId, g: BuildGraph, index: map<CrateId, seq<CrateId>>,
                 ghost rank: map<CrateId, nat>, cost: map<CrateId, real>, next: map<CrateId, CrateId>)
    returns (c: real, cost': map<CrateId, real>, next': map<CrateId, CrateId>)
    requires Acyclic(g.edges, rank)
    requires IndexesDependents(index, g.edges)
    requires Memo(g, rank, cost, next)
    ensures c == Cost(g, rank, id)
    ensures Memo(g, rank, cost', next') && id in cost' && cost.Keys <= cost'.Keys
    ensures id in cost ==> c == cost[id] && cost' == cost && next' == next
    decreases RankOf(rank, id)
  {
    if id in cost {
      return cost[id], cost, next;
    }
    var selfDur := SelfDuration(g.nodes, id);
    var bestChildCost := 0.0;
    var bestChild: Option<CrateId> := None;
    var deps := DependentsIn(index, id);
    assert deps == Dependents(g.edges, id);
    DependentsRankBelow(g.edges, rank, id);
    cost', next' := cost, next;
    for i := 0 to |deps|
      invariant Memo(g, rank, cost', next')
      invariant cost.Keys <= cost'.Keys
      invariant Choice(bestChildCost, bestChild) == Best(g, rank, id, deps[..i])
      invariant bestChild.Some? ==> bestChild.value in cost'
    {
      var d := deps[i];
      var dc;
      dc, cost', next' := Longest(d, g, index, rank, cost', next');
      BestStep(g, rank, id, deps, i);
      if dc > bestChildCost {
        bestChildCost, bestChild := dc, Some(d);
      }
    }
    assert deps[..|deps|] == deps;
    c := selfDur + bestChildCost;
    assert c == Cost(g, rank, id) && bestChild == NextOnPath(g, rank, id);
    MemoRecord(g, rank, cost', next', id, c, bestChild);
    cost' := cost'[id := c];
    if bestChild.Some? {
      next' := next'[id := bestChild.value];
    }
  }

  /** `cost.get(id).unwrap_or(0.0)` */
  function CostOr(cost: map<CrateId, real>, id: CrateId): real
  {
    if id in cost then cost[id] else 0.0
  }

  /** The loop of `compute_critical_path` that runs `longest` on every key. */
  method FillCosts(g: BuildGraph, order: seq<CrateId>, index: map<CrateId, seq<CrateId>>,
                   ghost rank: map<CrateId, nat>)
    returns (cost: map<CrateId, real>, next: map<CrateId, CrateId>)
    requires Acyclic(g.edges, rank)
    requires IndexesDependents(index, g.edges)
    ensures Memo(g, rank, cost, next)
    ensures forall x :: x in order ==> x in cost
  {
    cost, next := map[], map[];
    for i := 0 to |order|
      invariant Memo(g, rank, cost, next)
      invariant forall j :: 0 <= j < i ==> order[j] in cost
    {
      var c, cost', next' := Longest(order[i], g, index, rank, cost, next);
      cost, next := cost', next';
    }
  }

  /** The `max_by` that picks the start of the path: the last candidate of
      maximal cost. */
  method MaxByCost(candidates: seq<CrateId>, cost: map<CrateId, real>, next: map<CrateId, CrateId>,
                   g: BuildGraph, ghost rank: map<CrateId, nat>)
    returns (start: CrateId)
    requires Acyclic(g.edges, rank)
    requires Memo(g, rank, cost, next)
    requires |candidates| > 0
    requires forall x :: x in candidates ==> x in cost
    ensures start == LastMaxCost(g, rank, candidates)
  {
    start := candidates[0];
    for i := 1 to |candidates|
      invariant start == LastMaxCost(g, rank, candidates[..i])
    {
      LastMaxStep(g, rank, candidates, i);
      assert start in candidates && candidates[i] in cost;
      assert CostOr(cost, start) == Cost(g, rank, start);
      assert CostOr(cost, candidates[i]) == Cost(g, rank, candidates[i]);
      if CostOr(cost, candidates[i]) >= CostOr(cost, start) {
        start := candidates[i];
      }
    }
    assert candidates[..|candidates|] == candidates;
  }

  /** The loop that pushes `cur` and follows `next_on_path` until it has no entry. */
  method TracePath(start: CrateId, cost: map<CrateId, real>, next: map<CrateId, CrateId>,
                   g: BuildGraph, ghost rank: map<CrateId, nat>)
    returns (path: seq<CrateId>)
    requires Acyclic(g.edges, rank)
    requires Memo(g, rank, cost, next)
    requires start in cost
    ensures path == Walk(g, rank, start)
  {
    path := [];
    var cur := start;
    while true
      invariant cur in cost
      invariant path + Walk(g, rank, cur) == Walk(g, rank, start)
      decreases RankOf(rank, cur)
    {
      NextRankBelow(g, rank, cur);
      ghost var before := path;
      path := path + [cur];
      if cur in next {
        assert Walk(g, rank, cur) == [cur] + Walk(g, rank, next[cur]);
        assert path + Walk(g, rank, next[cur]) == before + Walk(g, rank, cur);
        cur := next[cur];
      } else {
        assert Walk(g, rank, cur) == [cur];
        break;
      }
    }
  }

  /** `compute_critical_path`: fills `critical_path` and changes nothing else. */
  method ComputeCriticalPath(g: BuildGraph, order: seq<CrateId>, ghost rank: map<CrateId, nat>)
    returns (r: BuildGraph)
    requires Acyclic(g.edges, rank)
    requires IsKeyOrder(order, g.nodes)
    ensures r == g.(criticalPath := CriticalPathOf(g, order, rank))
  {
    var index := BuildDependents(g.edges);
    var cost, next := FillCosts(g, order, index, rank);
    var leaves := Leaves(order, Froms(g.edges));
    var candidates := leaves + order;
    var path: seq<CrateId> := [];
    if |candidates| > 0 {
      var start := MaxByCost(candidates, cost, next, g, rank);
      path := TracePath(start, cost, next, g, rank);
    }
    r := g.(criticalPath := path);
  }

  /** Computing the critical path keeps a well-formed graph well formed. */
  lemma ComputeCriticalPathKeepsWellFormed(g: BuildGraph, order: seq<CrateId>, rank: map<CrateId, nat>)
    requires Acyclic(g.edges, rank)
    requires IsKeyOrder(order, g.nodes)
    requires WellFormed(g)
    ensures WellFormed(g.(criticalPath := CriticalPathOf(g, order, rank)))
  {
    CriticalPathNamesNodes(g, order, rank);
  }
}
