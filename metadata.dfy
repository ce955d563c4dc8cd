/** Graph construction from cargo's metadata (`load_dependency_graph`,
    src/cargo_ops/metadata.rs:6-80).  Running `cargo metadata` is outside
    the model: its output comes in as a value, with package ids as their
    string form, versions already rendered and dependency kinds already
    formatted. */
module Metadata {
  import opened Wrappers
  import opened Model

  /** A cargo package id, by its string representation. */
  type PackageId = string

  datatype NodeDep = NodeDep(pkg: PackageId, depKinds: seq<string>)

  /** A node of the dependency resolution: a package and its resolved deps. */
  datatype ResolveNode = ResolveNode(id: PackageId, deps: seq<NodeDep>, features: seq<string>)

  datatype Package = Package(id: PackageId, name: string, version: string)

  /** The parts of `cargo metadata` output the collector reads. */
  datatype CargoMetadata = CargoMetadata(
    packages: seq<Package>,
    workspaceMembers: seq<PackageId>,
    resolve: Option<seq<ResolveNode>>)

  const NoResolve: string := "no dependency resolution found"

  /** `pkg_map`: packages by id; a later package with the same id wins, as
      when collecting into a HashMap. */
  function PackageMap(packages: seq<Package>): (m: map<PackageId, Package>)
    ensures forall i :: 0 <= i < |packages| ==> packages[i].id in m
    ensures forall id :: id in m ==> m[id].id == id && m[id] in packages
  {
    if packages == [] then map[]
    else
      var p := packages[|packages| - 1];
      PackageMap(packages[..|packages| - 1])[p.id := p]
  }

  /** `ws_members` */
  function WorkspaceSet(meta: CargoMetadata): set<PackageId>
  {
    set i | 0 <= i < |meta.workspaceMembers| :: meta.workspaceMembers[i]
  }

  /** A resolve node becomes a graph node: it passes the membership filter
      and has a package record. */
  predicate Admitted(meta: CargoMetadata, includeDeps: bool, n: ResolveNode)
  {
    (includeDeps || n.id in WorkspaceSet(meta)) && n.id in PackageMap(meta.packages)
  }

  /** A dependency gets an edge: all do with `include_deps`, otherwise only
      workspace members. */
  predicate DepIncluded(meta: CargoMetadata, includeDeps: bool, dep: NodeDep)
  {
    includeDeps || dep.pkg in WorkspaceSet(meta)
  }

  /** The node inserted for an admitted resolve node: untimed, not fresh. */
  function NewNode(meta: CargoMetadata, n: ResolveNode): CrateNode
    requires n.id in PackageMap(meta.packages)
  {
    var pkg := PackageMap(meta.packages)[n.id];
    CrateNode(n.id, pkg.name, pkg.version, n.id in WorkspaceSet(meta), None, None, false, n.features)
  }

  /** The node table after the loop has seen `rs`. */
  function NodeTable(meta: CargoMetadata, includeDeps: bool, rs: seq<ResolveNode>): map<CrateId, CrateNode>
  {
    if rs == [] then map[]
    else
      var prev := NodeTable(meta, includeDeps, rs[..|rs| - 1]);
      var n := rs[|rs| - 1];
      if Admitted(meta, includeDeps, n) then prev[n.id := NewNode(meta, n)] else prev
  }

  /** The edges the inner loop emits for `deps` of the crate `from`. */
  function NodeEdges(meta: CargoMetadata, includeDeps: bool, from: CrateId, deps: seq<NodeDep>): seq<DepEdge>
  {
    if deps == [] then []
    else
      var d := deps[|deps| - 1];
      NodeEdges(meta, includeDeps, from, deps[..|deps| - 1]) +
      (if DepIncluded(meta, includeDeps, d) then [DepEdge(from, d.pkg, d.depKinds)] else [])
  }

  /** The edge list after the loop has seen `rs`. */
  function EdgeList(meta: CargoMetadata, includeDeps: bool, rs: seq<ResolveNode>): seq<DepEdge>
  {
    if rs == [] then []
    else
      var n := rs[|rs| - 1];
      EdgeList(meta, includeDeps, rs[..|rs| - 1]) +
      (if Admitted(meta, includeDeps, n) then NodeEdges(meta, includeDeps, n.id, n.deps) else [])
  }

  /** `load_dependency_graph` after `cargo metadata` has run. */
  method LoadDependencyGraph(meta: CargoMetadata, includeDeps: bool) returns (r: Result<BuildGraph>)
    ensures meta.resolve.None? ==> r == Err(NoResolve)
    ensures meta.resolve.Some? ==>
              r == Ok(BuildGraph(NodeTable(meta, includeDeps, meta.resolve.value),
                                 EdgeList(meta, includeDeps, meta.resolve.value),
                                 meta.workspaceMembers, []))
  {
    if meta.resolve.None? {
      return Err(NoResolve);
    }
    var resolve := meta.resolve.value;
    var pkgMap := PackageMap(meta.packages);
    var wsMembers := WorkspaceSet(meta);
    var nodes: map<CrateId, CrateNode> := map[];
    var edges: seq<DepEdge> := [];
    for i := 0 to |resolve|
      invariant nodes == NodeTable(meta, includeDeps, resolve[..i])
      invariant edges == EdgeList(meta, includeDeps, resolve[..i])
    {
      var node := resolve[i];
      assert resolve[..i + 1][..i] == resolve[..i];
      var isWs := node.id in wsMembers;
      if !includeDeps && !isWs {
        continue;
      }
      if node.id !in pkgMap {
        continue;
      }
      var pkg := pkgMap[node.id];
      var crateId := node.id;
      nodes := nodes[crateId := CrateNode(crateId, pkg.name, pkg.version, isWs, None, None, false, node.features)];
      for j := 0 to |node.deps|
        invariant edges == EdgeList(meta, includeDeps, resolve[..i]) + NodeEdges(meta, includeDeps, crateId, node.deps[..j])
      {
        var dep := node.deps[j];
        assert node.deps[..j + 1][..j] == node.deps[..j];
        var depIncluded := includeDeps || dep.pkg in wsMembers;
        if depIncluded {
          edges := edges + [DepEdge(crateId, dep.pkg, dep.depKinds)];
        }
      }
      assert node.deps[..|node.deps|] == node.deps;
    }
    assert resolve[..|resolve|] == resolve;
    return Ok(BuildGraph(nodes, edges, meta.workspaceMembers, []));
  }

  /** A crate is a node exactly when some resolve node with its id passes
      the membership filter and has a package record. */
  lemma {:induction false} NodeTableKeys(meta: CargoMetadata, includeDeps: bool, rs: seq<ResolveNode>, k: CrateId)
    ensures k in NodeTable(meta, includeDeps, rs) <==>
            exists i :: 0 <= i < |rs| && rs[i].id == k && Admitted(meta, includeDeps, rs[i])
    decreases |rs|
  {
    if rs != [] {
      var n := |rs| - 1;
      NodeTableKeys(meta, includeDeps, rs[..n], k);
      assert forall i :: 0 <= i < n ==> rs[..n][i] == rs[i];
      if k in NodeTable(meta, includeDeps, rs) && k !in NodeTable(meta, includeDeps, rs[..n]) {
        assert rs[n].id == k && Admitted(meta, includeDeps, rs[n]);
      }
    }
  }

  /** Every inserted node is stored under its id, is untimed and not fresh,
      carries its package's name and version, and records membership
      (its features are stated by `NodeTableFeatures`); without `include_deps` every node is a workspace member. */
  lemma {:induction false} NodeTableFields(meta: CargoMetadata, includeDeps: bool, rs: seq<ResolveNode>, k: CrateId)
    requires k in NodeTable(meta, includeDeps, rs)
    ensures var n := NodeTable(meta, includeDeps, rs)[k];
            && n.id == k
            && n.durationMs.None? && n.startMs.None? && !n.isFresh
            && k in PackageMap(meta.packages)
            && n.name == PackageMap(meta.packages)[k].name
            && n.version == PackageMap(meta.packages)[k].version
            && (n.isWorkspaceMember <==> k in meta.workspaceMembers)
            && (!includeDeps ==> n.isWorkspaceMember)
    decreases |rs|
  {
    var n := |rs| - 1;
    var last := rs[n];
    if !(Admitted(meta, includeDeps, last) && last.id == k) {
      NodeTableFields(meta, includeDeps, rs[..n], k);
    }
  }

  /** Resolve entry `r` is admitted and has id `k`. */
  ghost predicate EntryFor(meta: CargoMetadata, includeDeps: bool, r: ResolveNode, k: CrateId)
  {
    r.id == k && Admitted(meta, includeDeps, r)
  }

  /** `rs[i]` is the last admitted entry with id `k`. */
  ghost predicate LastEntryFor(meta: CargoMetadata, includeDeps: bool, rs: seq<ResolveNode>, k: CrateId, i: int)
  {
    && 0 <= i < |rs| && EntryFor(meta, includeDeps, rs[i], k)
    && forall j :: i < j < |rs| ==> !EntryFor(meta, includeDeps, rs[j], k)
  }

  /** A node carries the features of the last admitted resolve entry with
      its id: a later entry for the same id replaces the node. */
  lemma {:induction false} NodeTableFeatures(meta: CargoMetadata, includeDeps: bool, rs: seq<ResolveNode>, k: CrateId)
    requires k in NodeTable(meta, includeDeps, rs)
    ensures exists i :: LastEntryFor(meta, includeDeps, rs, k, i)
                        && NodeTable(meta, includeDeps, rs)[k].features == rs[i].features
    decreases |rs|
  {
    var n := |rs| - 1;
    var prefix := rs[..n];
    if EntryFor(meta, includeDeps, rs[n], k) {
      assert LastEntryFor(meta, includeDeps, rs, k, n);
    } else {
      NodeTableFeatures(meta, includeDeps, prefix, k);
      var i :| LastEntryFor(meta, includeDeps, prefix, k, i)
               && NodeTable(meta, includeDeps, prefix)[k].features == prefix[i].features;
      assert forall j :: 0 <= j < n ==> prefix[j] == rs[j];
      assert LastEntryFor(meta, includeDeps, rs, k, i);
    }
  }

  /** An edge is emitted for crate `n` and one of its included deps. */
  ghost predicate Emits(meta: CargoMetadata, includeDeps: bool, n: ResolveNode, e: DepEdge)
  {
    && Admitted(meta, includeDeps, n)
    && exists j :: 0 <= j < |n.deps| && DepIncluded(meta, includeDeps, n.deps[j])
                   && e == DepEdge(n.id, n.deps[j].pkg, n.deps[j].depKinds)
  }

  lemma {:induction false} NodeEdgesMembers(meta: CargoMetadata, includeDeps: bool, from: CrateId, deps: seq<NodeDep>, e: DepEdge)
    ensures e in NodeEdges(meta, includeDeps, from, deps) <==>
            exists j :: 0 <= j < |deps| && DepIncluded(meta, includeDeps, deps[j])
                        && e == DepEdge(from, deps[j].pkg, deps[j].depKinds)
    decreases |deps|
  {
    if deps != [] {
      var n := |deps| - 1;
      NodeEdgesMembers(meta, includeDeps, from, deps[..n], e);
      assert forall j :: 0 <= j < n ==> deps[..n][j] == deps[j];
    }
  }

  /** An edge is in the edge list iff an admitted crate emits it for one of
      its included deps; a crate without a package record contributes no
      edge.  Multiplicity and order are those of the `EdgeList` fold, which
      `LoadDependencyGraph` returns. */
  lemma {:induction false} EdgeListMembers(meta: CargoMetadata, includeDeps: bool, rs: seq<ResolveNode>, e: DepEdge)
    ensures e in EdgeList(meta, includeDeps, rs) <==>
            exists i :: 0 <= i < |rs| && Emits(meta, includeDeps, rs[i], e)
    decreases |rs|
  {
    if rs != [] {
      var n := |rs| - 1;
      var last := rs[n];
      EdgeListMembers(meta, includeDeps, rs[..n], e);
      NodeEdgesMembers(meta, includeDeps, last.id, last.deps, e);
      assert forall i :: 0 <= i < n ==> rs[..n][i] == rs[i];
      if e in EdgeList(meta, includeDeps, rs) && e !in EdgeList(meta, includeDeps, rs[..n]) {
        assert Emits(meta, includeDeps, last, e);
      }
    }
  }

  /** Every edge starts at a node; without `include_deps` it also ends at a
      workspace member (an edge's target need not be a node). */
  lemma EdgesStartAtNodes(meta: CargoMetadata, includeDeps: bool, rs: seq<ResolveNode>)
    ensures var edges := EdgeList(meta, includeDeps, rs);
            forall i :: 0 <= i < |edges| ==>
              edges[i].from in NodeTable(meta, includeDeps, rs) &&
              (includeDeps || edges[i].to in meta.workspaceMembers)
  {
    var edges := EdgeList(meta, includeDeps, rs);
    forall i | 0 <= i < |edges|
      ensures edges[i].from in NodeTable(meta, includeDeps, rs)
      ensures includeDeps || edges[i].to in meta.workspaceMembers
    {
      var e := edges[i];
      EdgeListMembers(meta, includeDeps, rs, e);
      var m :| 0 <= m < |rs| && Emits(meta, includeDeps, rs[m], e);
      NodeTableKeys(meta, includeDeps, rs, e.from);
      var j :| 0 <= j < |rs[m].deps| && DepIncluded(meta, includeDeps, rs[m].deps[j])
               && e == DepEdge(rs[m].id, rs[m].deps[j].pkg, rs[m].deps[j].depKinds);
    }
  }

  /** A loaded graph is well formed, its roots are the workspace members in
      order and its critical path starts empty. */
  lemma LoadedGraphWellFormed(meta: CargoMetadata, includeDeps: bool)
    requires meta.resolve.Some?
    ensures var g := BuildGraph(NodeTable(meta, includeDeps, meta.resolve.value),
                                EdgeList(meta, includeDeps, meta.resolve.value),
                                meta.workspaceMembers, []);
            WellFormed(g)
  {
    var rs := meta.resolve.value;
    EdgesStartAtNodes(meta, includeDeps, rs);
    forall k | k in NodeTable(meta, includeDeps, rs) ensures NodeTable(meta, includeDeps, rs)[k].id == k {
      NodeTableFields(meta, includeDeps, rs, k);
    }
  }
}
