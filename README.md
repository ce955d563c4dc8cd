# cargo-goodtimes collector, modelled in Dafny

cargo-goodtimes shows where a Cargo build spends its time. Its Rust
collector works in four steps:

1. It loads the dependency graph from `cargo metadata`.
2. It runs `cargo check --timings` with the user's profile and feature flags.
3. It reads per-unit compile times from cargo's timing report, folds them
   into per-crate start times and durations, and marks the critical path.
   The critical path is the chain of dependents with the longest
   accumulated compile time.
4. It embeds the graph as JSON in a self-contained HTML page.

This project models that core:

- `model.dfy` (module `Model`): the graph datatypes, `CrateNode`, `DepEdge`
  and `BuildGraph`, and what it means for a graph to be well formed.
- `critical_path.dfy` (module `CriticalPath`): `compute_critical_path`
  with its memoised recursion `longest`.
  - The cost of a crate and the `next_on_path` entry for it are given as
    recursive equations (`Cost`, `Best`, `NextOnPath`).
  - The path is the walk along `next_on_path` (`Walk`) from the crate
    Rust's `max_by` picks (`LastMaxCost`).
  - The memo tables, the fill loop, the `max_by` loop and the path loop
    are methods proved against these definitions.
- `build.rs`'s other core parts, in `build.dfy` (module `Build`):
  - the `cargo check` arguments, appended to a `Command` object;
  - the extraction of the `UNIT_DATA` array from the timing report;
  - the two timing tables `apply_timings` folds (all units, and all units
    except build scripts);
  - the matching of those tables onto nodes by name and version.
- `metadata.dfy` (module `Metadata`): the loop of `load_dependency_graph`.
  It builds the node table and the edge list from the resolve, the package
  records and the workspace members.
- `output.dfy` (module `Output`): `generate_html`.
  - The script and stylesheet are picked by file-name suffix.
  - `</script` is escaped in the graph JSON.
  - The fixed page template is filled in.
- `strings.dfy` and `wrappers.dfy`: the few `str` operations the collector
  uses (`find`, `contains`, `ends_with`, `replace`, `join`, a split), and
  `Option`/`Result`.

The collector's `HashMap` has no fixed iteration order. `compute_critical_path`
therefore takes the order in which `graph.nodes.keys()` enumerates the keys
as an explicit `order` argument. The `values_mut` loop of `apply_timings`
visits the nodes in any order, because its result does not depend on it.

`longest` has no guard against cycles. The model therefore takes a ghost
`rank` map, under which every crate ranks below the crates it depends on,
and the recursion descends in rank.

Times are `real`. The scaling of seconds to milliseconds (`* 1000.0`) and the
test `duration < 0.001` for a cached crate are kept as written.

## Model

| member | source | states |
|---|---|---|
| `Strings.Find` | src/cargo_ops/build.rs:147-149 | `str::find` returns the first index at which the pattern occurs, or nothing when it occurs nowhere |
| `Strings.ReplaceAbsent` | src/output.rs:51 | replacing a pattern that does not occur returns the string unchanged |
| `Strings.SplitJoin` | src/cargo_ops/build.rs:35 | a nonempty list whose parts contain no comma is recovered by splitting its comma join |
| `CriticalPath.DependentsAreEdges` | src/cargo_ops/build.rs:163-166 | `d` is listed among the dependents of `id` exactly when some edge runs `d -> id` |
| `CriticalPath.BuildDependents` | src/cargo_ops/build.rs:163-166 | the reverse-adjacency loop gives, for every crate, the `from` of each edge into it, in edge order |
| `CriticalPath.FirstMaxIsFirstMaximum` | src/cargo_ops/build.rs:187-197 | a loop that starts at 0 and takes only strictly greater values ends at max(0, every value); it holds a position only when that maximum is positive, and that position is the first one holding the maximum |
| `CriticalPath.BestIsFirstMax` | src/cargo_ops/build.rs:187-197 | `longest`'s loop over the dependents is that running best over their costs, in dependents order |
| `CriticalPath.BestIsFirstMaximum` | src/cargo_ops/build.rs:187-200 | the best child cost is non-negative and at least every dependent's cost; the best child exists iff that cost is not 0, and then it is the first dependent of that cost |
| `CriticalPath.CostEquation` | src/cargo_ops/build.rs:182-201 | a crate's cost is its own duration (0 when absent or untimed) plus max(0, its dependents' costs): at least its own duration, at least its own duration plus each dependent's cost, and equal to one of these |
| `CriticalPath.NextOnPathIsFirstMaximum` | src/cargo_ops/build.rs:187-204 | without a `next_on_path` entry the cost is the crate's own duration and no dependent costs more than 0; with one, the cost is the own duration plus the entry's cost, which is positive and belongs to the first dependent of greatest cost |
| `CriticalPath.NextRankBelow` | src/cargo_ops/build.rs:190-204 | a `next_on_path` entry is a dependent of the crate and ranks below it, so following entries terminates |
| `CriticalPath.MutualDependencyHasNoRank` | src/cargo_ops/build.rs:178-201 | two crates with edges each way are dependents of each other, and no rank makes those edges acyclic: `longest` reaches the first crate again before its cost is stored |
| `CriticalPath.WalkIsCostlyChain` | src/cargo_ops/build.rs:231-241 | the walk along `next_on_path` from a crate starts at it, each step goes to a dependent of the previous crate, and its durations sum to the start's cost |
| `CriticalPath.LastMaxIndexIsLastMaximum` | src/cargo_ops/build.rs:221-229 | `max_by` over values, where a later value wins ties, returns a position holding a maximal value after which every value is strictly smaller |
| `CriticalPath.LastMaxIndex` | src/cargo_ops/build.rs:221-229 | the `max_by` fold returns a position inside the sequence |
| `CriticalPath.LastMaxCost` | src/cargo_ops/build.rs:221-229 | the crate `max_by` picks by cost is one of the candidates |
| `CriticalPath.LastMaxCostIsLastMaximum` | src/cargo_ops/build.rs:221-229 | the crate `max_by` picks has maximal cost among the candidates, and every later candidate costs strictly less |
| `CriticalPath.LastMaxIndexIgnoresPrefix` | src/cargo_ops/build.rs:221-223 | values in front that also occur later do not change which position of the rest wins |
| `CriticalPath.LastMaxCostIgnoresPrefix` | src/cargo_ops/build.rs:209-223 | chaining the leaves, which are all keys, in front of all keys does not change the crate `max_by` picks |
| `CriticalPath.Leaves` | src/cargo_ops/build.rs:208-214 | every leaf is a node key with no outgoing edge |
| `CriticalPath.CriticalPathIsWalkFromLastMaximum` | src/cargo_ops/build.rs:208-241 | the stored path is the walk from the last key of maximal cost in key order, or empty when there are no keys |
| `CriticalPath.CriticalPathEmptyIffNoNodes` | src/cargo_ops/build.rs:221-241 | the critical path is empty iff the graph has no nodes |
| `CriticalPath.CriticalPathStartsAtLastMaximum` | src/cargo_ops/build.rs:216-229 | the path starts at a node whose cost is at least every node's cost, and every key after it in key order costs strictly less |
| `CriticalPath.CriticalPathFollowsEdges` | src/cargo_ops/build.rs:231-241 | for each step `c` then `n` along the path, an edge `n -> c` exists: `n` depends on `c` |
| `CriticalPath.CriticalPathDuration` | src/cargo_ops/build.rs:231-243 | the durations along the path sum to the cost of its first element |
| `CriticalPath.CriticalPathNamesNodes` | src/model.rs:33-34 | when every edge starts at a node, every element of the critical path is a node key |
| `CriticalPath.Longest` | src/cargo_ops/build.rs:171-206 | `longest` returns the crate's cost and leaves tables that agree with `Cost` and `NextOnPath` and now hold the crate; a crate already in the table is answered from it, and the tables are returned unchanged |
| `CriticalPath.FillCosts` | src/cargo_ops/build.rs:216-219 | calling `longest` on every key fills the cost table for every key, consistent with `Cost` and `NextOnPath` |
| `CriticalPath.MaxByCost` | src/cargo_ops/build.rs:221-229 | the `max_by` loop over table costs returns the last candidate of maximal cost |
| `CriticalPath.TracePath` | src/cargo_ops/build.rs:231-241 | the push-and-follow loop returns the walk along `next_on_path` from the start |
| `CriticalPath.ComputeCriticalPath` | src/cargo_ops/build.rs:161-244 | the result is the input graph with only `critical_path` replaced, by the walk from the last key of maximal cost |
| `CriticalPath.ComputeCriticalPathKeepsWellFormed` | src/cargo_ops/build.rs:243 | storing the critical path keeps a well-formed graph well formed |
| `Build.Command.constructor` | src/cargo_ops/build.rs:46 | a new command has the given program and no arguments |
| `Build.Command.Arg` | src/cargo_ops/build.rs:22-24 | `arg` appends exactly one argument |
| `Build.ProfileArgs` | src/cargo_ops/build.rs:26-30 | `--release` iff the profile is `release`; `--profile <name>` iff it is neither `release` nor `dev`; nothing iff it is `dev` |
| `Build.FeatureArgs` | src/cargo_ops/build.rs:32-36 | nothing iff neither all features nor any feature is asked for; just `--all-features` when all features are asked for; otherwise, for a nonempty list, exactly `--features` and the comma-joined list |
| `Build.FeatureArgsSplitBack` | src/cargo_ops/build.rs:35 | the `--features` value splits back into the features when none holds a comma |
| `Build.CommonArgs` | src/cargo_ops/build.rs:21-37 | exactly `check --manifest-path <path>`, then the profile flags, then the feature flags, with nothing in between; the fourth is `--release` iff the profile is `release`, and `--profile <name>` follows iff the profile is neither `release` nor `dev` |
| `Build.ApplyCommonArgs` | src/cargo_ops/build.rs:21-37 | the command's arguments grow by exactly the common arguments |
| `Build.ApplyProfileArgs` | src/cargo_ops/build.rs:26-30 | the command's arguments grow by exactly the profile flags |
| `Build.ApplyFeatureArgs` | src/cargo_ops/build.rs:32-36 | the command's arguments grow by exactly the feature flags |
| `Build.ParseUnitData` | src/cargo_ops/build.rs:144-154 | a successful extraction is nonempty and ends with the closing `]` |
| `Build.ParseUnitDataWithoutMarker` | src/cargo_ops/build.rs:147-149 | without `const UNIT_DATA = ` the extraction fails with the marker error |
| `Build.ParseUnitDataWithoutEnd` | src/cargo_ops/build.rs:151-153 | with the marker but no `];` after its first occurrence, the extraction fails with the end error |
| `Build.ParseUnitDataExtracts` | src/cargo_ops/build.rs:150-154 | with the marker first at `a` and the first following `];` at `e`, the result is the text from just after the marker up to and including the `]` at `e` |
| `Build.AggregateKeys` | src/cargo_ops/build.rs:102-118 | a (name, version) pair has a table entry exactly when one of its units is counted: any unit in the all-units table, a unit whose target does not contain `build script` in the lib table |
| `Build.AggregateIsMinStartAndSum` | src/cargo_ops/build.rs:104-117 | an entry's start is the earliest start among the crate's counted units, and its duration is the sum of their durations |
| `Build.AggregateTimings` | src/cargo_ops/build.rs:102-118 | the aggregation loop builds exactly the lib table and the all-units table |
| `Build.Retimed` | src/cargo_ops/build.rs:121-128 | a node takes the lib entry if there is one, else the all-units entry, else stays unchanged; start and duration become milliseconds; a timed node is fresh iff its duration is under 1 ms; nothing else changes |
| `Build.MatchTimings` | src/cargo_ops/build.rs:121-129 | the loop over the node values, in any order, retimes every node and keeps the keys |
| `Build.ApplyTimings` | src/cargo_ops/build.rs:102-132 | the result is the retimed graph, with the critical path recomputed from the new durations |
| `Build.ApplyTimingsKeepsWellFormed` | src/cargo_ops/build.rs:131 | applying timings keeps a well-formed graph well formed |
| `Metadata.PackageMap` | src/cargo_ops/metadata.rs:19-20 | every package's id is a key, and each key maps to a package with that id |
| `Metadata.LoadDependencyGraph` | src/cargo_ops/metadata.rs:6-80 | without a resolve it fails with "no dependency resolution found"; otherwise the graph is the node table and edge list of the resolve loop, the workspace members in order as roots, and an empty critical path |
| `Metadata.NodeTableKeys` | src/cargo_ops/metadata.rs:27-37 | a crate is a node exactly when a resolve node with its id is a workspace member (or dependencies are included) and has a package record |
| `Metadata.NodeTableFields` | src/cargo_ops/metadata.rs:35-48 | every node has its key as id, its package's name and version, no duration or start, is not fresh, and is marked a workspace member iff it is one; without dependencies every node is a member |
| `Metadata.NodeTableFeatures` | src/cargo_ops/metadata.rs:35-48 | a node carries the features of the last admitted resolve entry with its id |
| `Metadata.EdgeListMembers` | src/cargo_ops/metadata.rs:51-64 | an edge is emitted exactly for an admitted crate and one of its deps that is a workspace member or when dependencies are included; a crate without a package record emits none |
| `Metadata.EdgesStartAtNodes` | src/cargo_ops/metadata.rs:51-64 | every edge starts at a node; without dependencies it also ends at a workspace member |
| `Metadata.LoadedGraphWellFormed` | src/cargo_ops/metadata.rs:68-79 | the loaded graph is well formed |
| `Output.LastWith` | src/output.rs:32-42 | the picked asset is the last one whose name ends with the suffix; none is picked iff no name does |
| `Output.ScriptIsNotStylesheet` | src/output.rs:33-37 | a name ending `.js` never ends `.css`, so the `else` never hides a stylesheet |
| `Output.GenerateHtml` | src/output.rs:27-68 | fails with the `.js` error when no script asset exists, else with the `.css` error when no stylesheet exists; otherwise returns the template filled with the last stylesheet, the escaped JSON and the last script |
| `Output.EscapedHasNoScriptClose` | src/output.rs:49-51 | after escaping, the graph JSON contains no `</script` |
| `Output.EscapeKeepsCleanJson` | src/output.rs:51 | JSON without `</script` is embedded unchanged |
| `Output.UnescapeEscape` | src/output.rs:51 | reading `<\/script` back as `</script` restores the JSON, which holds no `<\/script` of its own |
| `Output.DataScriptClosesAfterJson` | src/output.rs:53-67 | in the page, the first `</script` after `window.__GRAPH_DATA__ = ` is the one right after the JSON and its `;` |
| `Output.EscapeKeepsUpperCaseClose` | src/output.rs:51 | the escape is case sensitive: `</SCRIPT>` comes through unchanged |

## Findings

| source | as written | input that shows it | evidently intended | confidence | as-written member | corrected member |
|---|---|---|---|---|---|---|
| src/cargo_ops/build.rs:171-206 | `longest` stores a crate's cost only after visiting its dependents and keeps no visited set, so a cycle sends it back to a crate with no cost entry | two admitted crates `a` and `b` with edges `a -> b` and `b -> a` (a dev-dependency cycle in the resolve, with dependencies included) | the critical path is computed on an acyclic graph, or a cycle is reported instead of overflowing the stack | medium; not executed | `CriticalPath.MutualDependencyHasNoRank` | `CriticalPath.ComputeCriticalPath` |

## Left out

- Process and file I/O are not modelled:
  - spawning `cargo check` (`prebuild_deps`, `run_build`) and draining its message stream;
  - `find_target_dir`;
  - the existence check and read of the timing report in `apply_timings`;
  - `write_and_open` and `webbrowser`.
- `Build.ApplyTimings`: starts from the decoded unit list, so the missing-report, read and parse errors of `apply_timings` are not modelled.
- `Build.ParseUnitData`: returns the JSON text of the unit array. Decoding it with `serde_json` is a foreign library call.
- `Output.GenerateHtml`: takes the graph's JSON serialization as text, because `serde_json::to_string` is foreign.
  - The embedded assets come in as a sequence of (name, text) pairs, because `rust_embed` enumeration is foreign.
  - The missing-embedded-file and UTF-8 errors are not modelled.
- `Output.DataScriptClosesAfterJson` covers the lowercase `</script` only, as the escape in `src/output.rs:51` does. An HTML parser ends a script at `</SCRIPT` in any letter case, and `EscapeKeepsUpperCaseClose` shows such text passes the escape unchanged. Whether the graph JSON can hold one depends on package ids (a path dependency's directory name), which the model does not constrain.
- `Metadata.LoadDependencyGraph`: takes the `cargo metadata` output as a value.
  - Package ids are their string form, and versions are already rendered.
  - Dependency kinds are opaque strings in place of their Debug formatting.
  - `MetadataCommand::exec` and its errors are not modelled.
- `workspace_package_names` (src/cargo_ops/metadata.rs:83-96) is a wrapper around `cargo metadata` and is not modelled.
- `CriticalPath.ComputeCriticalPath` requires an acyclic edge list (a ghost rank). The source demands nothing: on a cycle `longest` recurses until the stack overflows (see "## Findings"), and a resolve whose dev-dependencies form a cycle could give one. The model does not describe that divergence.
- `CriticalPath.Longest` requires the same acyclicity as `ComputeCriticalPath`, for the same reason.
- `CriticalPath.ComputeCriticalPath` takes the `HashMap` key order as an argument. The source uses whatever order the map yields, so which of several equal-cost crates wins is only determined relative to that order.
- `Build.Retimed` uses exact real arithmetic: `f64` rounding of `* 1000.0` and of the freshness threshold is not modelled.
- `Build.AggregateTimings` omits the `f64::MAX` sentinel: a crate's first unit creates its entry, which agrees with `min` against the sentinel for finite starts. NaN starts or durations and their `min`/`partial_cmp` behaviour are not modelled.
- `src/main.rs` is not part of this model: orchestration, `cargo clean`, path resolution. It reads `args.include_deps`, which the argument declarations in `src/cli.rs` do not declare.
- `src/cli.rs` (argument declarations) is not part of this model.
- The top-level `build.rs` (running `bun` to build the frontend) is not part of this model.
- The browser-side what-if engine (edge overrides, its cycle check, start-time propagation) is frontend code. It is not among the modelled sources.
- The node field Rust calls `fresh` is `isFresh` here, because `fresh` is a Dafny keyword.
