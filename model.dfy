/** The data the collector produces and the browser front end consumes:
    crates, dependency edges and the build graph (src/model.rs). */
module Model {
  import opened Wrappers

  /** A crate is identified by cargo's package id string. */
  type CrateId = string

  /** One compiled crate.  `durationMs` and `startMs` stay `None` until the
      crate has been timed; `isFresh` (the source's `fresh`, a reserved word here) says the artifact came from cache in the
      last build (its duration was effectively zero). */
  datatype CrateNode = CrateNode(
    id: CrateId,
    name: string,
    version: string,
    isWorkspaceMember: bool,
    durationMs: Option<real>,
    startMs: Option<real>,
    isFresh: bool,
    features: seq<string>)

  /** `from` depends on `to`: `to` must be built before `from` starts. */
  datatype DepEdge = DepEdge(from: CrateId, to: CrateId, depKinds: seq<string>)

  /** The graph handed to the front end.  `criticalPath` holds node ids. */
  datatype BuildGraph = BuildGraph(
    nodes: map<CrateId, CrateNode>,
    edges: seq<DepEdge>,
    roots: seq<CrateId>,
    criticalPath: seq<CrateId>)

  /** The shape the collector maintains: every node is stored under its own
      id, every edge starts at a node, and the critical path names nodes. */
  ghost predicate WellFormed(g: BuildGraph)
  {
    && (forall k :: k in g.nodes ==> g.nodes[k].id == k)
    && (forall i :: 0 <= i < |g.edges| ==> g.edges[i].from in g.nodes)
    && (forall i :: 0 <= i < |g.criticalPath| ==> g.criticalPath[i] in g.nodes)
  }
}
