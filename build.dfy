/** The timing half of the collector (src/cargo_ops/build.rs): the common
    `cargo check` arguments, the extraction of the unit table from cargo's
    timing report, and the folding of per-unit timings onto graph nodes
    before the critical path is computed. */
module Build {
  import opened Wrappers
  import opened Strings
  import opened Model
  import opened CriticalPath

  // ----- Command-line arguments ------------------------------------------

  /** The part of `std::process::Command` the collector uses: a program and
      an argument list that `arg` appends to. */
  class Command {
    const program: string
    var args: seq<string>

    constructor (program: string)
      ensures this.program == program && args == []
    {
      this.program := program;
      args := [];
    }

    method Arg(a: string)
      modifies this
      ensures args == old(args) + [a]
    {
      args := args + [a];
    }
  }

  /** The profile flags: `--release` for the release profile, nothing for
      dev, `--profile <name>` for any other profile. */
  function ProfileArgs(profile: string): (r: seq<string>)
    ensures r == ["--release"] <==> profile == "release"
    ensures r == ["--profile", profile] <==> profile != "release" && profile != "dev"
    ensures r == [] <==> profile == "dev"
  {
    if profile == "release" then ["--release"]
    else if profile != "dev" then ["--profile", profile]
    else []
  }

  /** The feature flags: `--all-features` wins; otherwise `--features` with
      the comma-joined list, and nothing for an empty list. */
  function FeatureArgs(features: seq<string>, allFeatures: bool): (r: seq<string>)
    ensures r == [] <==> !allFeatures && features == []
    ensures |r| > 0 ==> (r[0] == "--all-features" <==> allFeatures)
    ensures (|r| > 0 && r[0] == "--features") <==> !allFeatures && features != []
    ensures allFeatures ==> |r| == 1
    ensures !allFeatures && features != [] ==> |r| == 2 && r[1] == Join(features, ',')
  {
    if allFeatures then ["--all-features"]
    else if features != [] then ["--features", Join(features, ',')]
    else []
  }

  /** The `--features` value splits back into the features when no feature
      holds a comma, as clap's comma delimiter guarantees. */
  lemma FeatureArgsSplitBack(features: seq<string>)
    requires features != []
    requires forall i :: 0 <= i < |features| ==> ',' !in features[i]
    ensures var r := FeatureArgs(features, false);
            |r| == 2 && Split(r[1], ',') == features
  {
    SplitJoin(features, ',');
  }

  /** `apply_common_args`: `check --manifest-path <path>`, then the profile
      flags, then the feature flags. */
  function CommonArgs(manifestPath: string, profile: string, features: seq<string>, allFeatures: bool): (r: seq<string>)
    ensures |r| == 3 + |ProfileArgs(profile)| + |FeatureArgs(features, allFeatures)|
    ensures r[..3] == ["check", "--manifest-path", manifestPath]
    ensures r[3..3 + |ProfileArgs(profile)|] == ProfileArgs(profile)
    ensures (|r| > 3 && r[3] == "--release") <==> profile == "release"
    ensures (|r| > 4 && r[3] == "--profile" && r[4] == profile) <==> profile != "release" && profile != "dev"
    ensures r[|r| - |FeatureArgs(features, allFeatures)|..] == FeatureArgs(features, allFeatures)
  {
    ["check", "--manifest-path", manifestPath] + ProfileArgs(profile) + FeatureArgs(features, allFeatures)
  }

  /** `apply_common_args` as the source runs it, appending to a command. */
  method ApplyCommonArgs(cmd: Command, manifestPath: string, profile: string,
                         features: seq<string>, allFeatures: bool)
    modifies cmd
    ensures cmd.args == old(cmd.args) + CommonArgs(manifestPath, profile, features, allFeatures)
  {
    cmd.Arg("check");
    cmd.Arg("--manifest-path");
    cmd.Arg(manifestPath);
    ApplyProfileArgs(cmd, profile);
    ApplyFeatureArgs(cmd, features, allFeatures);
  }

  /** The profile block of `apply_common_args`. */
  method ApplyProfileArgs(cmd: Command, profile: string)
    modifies cmd
    ensures cmd.args == old(cmd.args) + ProfileArgs(profile)
  {
    if profile == "release" {
      cmd.Arg("--release");
    } else if profile != "dev" {
      cmd.Arg("--profile");
      cmd.Arg(profile);
    }
  }

  /** The feature block of `apply_common_args`. */
  method ApplyFeatureArgs(cmd: Command, features: seq<string>, allFeatures: bool)
    modifies cmd
    ensures cmd.args == old(cmd.args) + FeatureArgs(features, allFeatures)
  {
    if allFeatures {
      cmd.Arg("--all-features");
    } else if features != [] {
      cmd.Arg("--features");
      cmd.Arg(Join(features, ','));
    }
  }

  // ----- The unit table in the timing report -----------------------------

  const UnitDataMarker: string := "const UNIT_DATA = "
  const UnitDataEnd: string := "];"
  const MarkerNotFound: string := "UNIT_DATA not found in timing HTML"
  const EndNotFound: string := "UNIT_DATA end not found"

  /** `parse_unit_data` up to the JSON decoding: the text from just after
      the first marker up to and including the `]` of the first `];` that
      follows it. */
  function ParseUnitData(html: string): (r: Result<string>)
    ensures r.Ok? ==> |r.value| > 0 && r.value[|r.value| - 1] == ']'
  {
    match Find(html, UnitDataMarker)
    case None => Err(MarkerNotFound)
    case Some(startIdx) =>
      var rest := html[startIdx + |UnitDataMarker|..];
      match Find(rest, UnitDataEnd)
      case None => Err(EndNotFound)
      case Some(endIdx) =>
        assert rest[endIdx..endIdx + |UnitDataEnd|][0] == rest[endIdx] == ']';
        Ok(rest[..endIdx + 1])
  }

  /** Without the marker the extraction fails. */
  lemma ParseUnitDataWithoutMarker(html: string)
    requires Absent(html, UnitDataMarker)
    ensures ParseUnitData(html) == Err(MarkerNotFound)
  {
  }

  /** With the marker first at `a` but no `];` after it, the extraction fails. */
  lemma ParseUnitDataWithoutEnd(html: string, a: nat)
    requires FirstAt(html, UnitDataMarker, a)
    requires forall j :: a + |UnitDataMarker| <= j ==> !OccursAt(html, UnitDataEnd, j)
    ensures ParseUnitData(html) == Err(EndNotFound)
  {
    var k := a + |UnitDataMarker|;
    var rest := html[k..];
    forall j: nat ensures !OccursAt(rest, UnitDataEnd, j) {
      OccursInSuffix(html, UnitDataEnd, k, j);
    }
  }

  /** With the marker first at `a` and the first `];` after it at `e`, the
      result is the text between them, closing `]` included. */
  lemma ParseUnitDataExtracts(html: string, a: nat, e: nat)
    requires FirstAt(html, UnitDataMarker, a)
    requires a + |UnitDataMarker| <= e && OccursAt(html, UnitDataEnd, e)
    requires forall j :: a + |UnitDataMarker| <= j < e ==> !OccursAt(html, UnitDataEnd, j)
    ensures ParseUnitData(html) == Ok(html[a + |UnitDataMarker|..e + 1])
  {
    var k := a + |UnitDataMarker|;
    var rest := html[k..];
    forall j: nat ensures OccursAt(rest, UnitDataEnd, j) <==> OccursAt(html, UnitDataEnd, k + j) {
      OccursInSuffix(html, UnitDataEnd, k, j);
    }
    assert FirstAt(rest, UnitDataEnd, e - k);
    assert rest[..e - k + 1] == html[k..e + 1];
  }

  // ----- Folding unit timings into crate timings -------------------------

  /** One compilation unit of the timing report; times in seconds. */
  datatype UnitTiming = UnitTiming(name: string, version: string, target: string, start: real, duration: real)

  /** Crates are matched by name and version. */
  type CrateKey = (string, string)

  function KeyOf(u: UnitTiming): CrateKey
  {
    (u.name, u.version)
  }

  predicate IsBuildScript(u: UnitTiming)
  {
    Contains(u.target, "build script")
  }

  /** The unit takes part in a table that skips build scripts or not. */
  predicate Counted(u: UnitTiming, skipBuildScripts: bool)
  {
    !(skipBuildScripts && IsBuildScript(u))
  }

  function Min(a: real, b: real): real
  {
    if a <= b then a else b
  }

  /** The table entry after one more unit: the earlier start and the summed
      duration (the source's `(f64::MAX, 0.0)` initial entry is the absence
      of an entry here). */
  function Absorb(table: map<CrateKey, (real, real)>, u: UnitTiming): map<CrateKey, (real, real)>
  {
    var key := KeyOf(u);
    if key in table then table[key := (Min(table[key].0, u.start), table[key].1 + u.duration)]
    else table[key := (u.start, u.duration)]
  }

  /** The table the aggregation loop builds over `units`: with
      `skipBuildScripts` it is `lib_timings`, without it `all_timings`. */
  function Aggregate(units: seq<UnitTiming>, skipBuildScripts: bool): map<CrateKey, (real, real)>
  {
    if units == [] then map[]
    else
      var prev := Aggregate(units[..|units| - 1], skipBuildScripts);
      var u := units[|units| - 1];
      if Counted(u, skipBuildScripts) then Absorb(prev, u) else prev
  }

  /** The total duration of the counted units of one crate. */
  function DurationSum(units: seq<UnitTiming>, key: CrateKey, skipBuildScripts: bool): real
  {
    if units == [] then 0.0
    else
      (if Counted(units[0], skipBuildScripts) && KeyOf(units[0]) == key then units[0].duration else 0.0)
      + DurationSum(units[1..], key, skipBuildScripts)
  }

  lemma {:induction false} DurationSumAppend(units: seq<UnitTiming>, u: UnitTiming, key: CrateKey, skip: bool)
    ensures DurationSum(units + [u], key, skip) ==
            DurationSum(units, key, skip) + (if Counted(u, skip) && KeyOf(u) == key then u.duration else 0.0)
    decreases |units|
  {
    if units == [] {
      assert [u][1..] == [];
    } else {
      assert (units + [u])[1..] == units[1..] + [u];
      DurationSumAppend(units[1..], u, key, skip);
    }
  }

  /** A crate has an entry exactly when one of its units is counted. */
  lemma {:induction false} AggregateKeys(units: seq<UnitTiming>, skip: bool, key: CrateKey)
    ensures key in Aggregate(units, skip) <==>
            exists i :: 0 <= i < |units| && Counted(units[i], skip) && KeyOf(units[i]) == key
    decreases |units|
  {
    if units != [] {
      var n := |units| - 1;
      AggregateKeys(units[..n], skip, key);
      assert forall i :: 0 <= i < n ==> units[..n][i] == units[i];
      if key in Aggregate(units, skip) && key !in Aggregate(units[..n], skip) {
        assert Counted(units[n], skip) && KeyOf(units[n]) == key;
      }
    }
  }

  /** An entry holds the earliest start and the summed duration of the
      crate's counted units. */
  lemma {:induction false} AggregateIsMinStartAndSum(units: seq<UnitTiming>, skip: bool, key: CrateKey)
    requires key in Aggregate(units, skip)
    ensures var entry := Aggregate(units, skip)[key];
            && (forall i :: 0 <= i < |units| && Counted(units[i], skip) && KeyOf(units[i]) == key ==>
                  entry.0 <= units[i].start)
            && (exists i :: 0 <= i < |units| && Counted(units[i], skip) && KeyOf(units[i]) == key &&
                  entry.0 == units[i].start)
            && entry.1 == DurationSum(units, key, skip)
    decreases |units|
  {
    var n := |units| - 1;
    var pre := units[..n];
    var u := units[n];
    assert pre + [u] == units;
    DurationSumAppend(pre, u, key, skip);
    assert forall i :: 0 <= i < n ==> pre[i] == units[i];
    if key in Aggregate(pre, skip) {
      AggregateIsMinStartAndSum(pre, skip, key);
      var i0 :| 0 <= i0 < |pre| && Counted(pre[i0], skip) && KeyOf(pre[i0]) == key &&
                Aggregate(pre, skip)[key].0 == pre[i0].start;
      if Counted(u, skip) && KeyOf(u) == key && u.start < Aggregate(pre, skip)[key].0 {
        assert Aggregate(units, skip)[key].0 == units[n].start;
      } else {
        assert Aggregate(units, skip)[key].0 == units[i0].start;
      }
    } else {
      AggregateKeys(pre, skip, key);
      assert Counted(u, skip) && KeyOf(u) == key;
      if n > 0 {
        assert forall i :: 0 <= i < n && Counted(units[i], skip) ==> KeyOf(units[i]) != key;
        DurationSumIsZero(pre, key, skip);
      }
    }
  }

  lemma {:induction false} DurationSumIsZero(units: seq<UnitTiming>, key: CrateKey, skip: bool)
    requires forall i :: 0 <= i < |units| && Counted(units[i], skip) ==> KeyOf(units[i]) != key
    ensures DurationSum(units, key, skip) == 0.0
    decreases |units|
  {
    if units != [] {
      DurationSumIsZero(units[1..], key, skip);
    }
  }

  /** The aggregation loop of `apply_timings`. */
  method AggregateTimings(units: seq<UnitTiming>)
    returns (libTimings: map<CrateKey, (real, real)>, allTimings: map<CrateKey, (real, real)>)
    ensures libTimings == Aggregate(units, true)
    ensures allTimings == Aggregate(units, false)
  {
    libTimings, allTimings := map[], map[];
    for i := 0 to |units|
      invariant libTimings == Aggregate(units[..i], true)
      invariant allTimings == Aggregate(units[..i], false)
    {
      var unit := units[i];
      var key := KeyOf(unit);
      var allEntry := if key in allTimings then allTimings[key] else (unit.start, 0.0);
      allTimings := allTimings[key := (Min(allEntry.0, unit.start), allEntry.1 + unit.duration)];
      if !IsBuildScript(unit) {
        var libEntry := if key in libTimings then libTimings[key] else (unit.start, 0.0);
        libTimings := libTimings[key := (Min(libEntry.0, unit.start), libEntry.1 + unit.duration)];
      }
      assert units[..i + 1][..i] == units[..i];
    }
    assert units[..|units|] == units;
  }

  // ----- Matching timings to nodes ---------------------------------------

  /** A node given a (start, duration) entry in seconds. */
  function Timed(n: CrateNode, entry: (real, real)): CrateNode
  {
    n.(startMs := Some(entry.0 * 1000.0), durationMs := Some(entry.1 * 1000.0), isFresh := entry.1 < 0.001)
  }

  /** The matching step for one node: the lib entry if there is one, else
      the all-units entry, else the node unchanged.  Only the timing fields
      change, and a matched node is fresh exactly when it took under a
      millisecond. */
  function Retimed(n: CrateNode, lib: map<CrateKey, (real, real)>, all: map<CrateKey, (real, real)>): (r: CrateNode)
    ensures r.id == n.id && r.name == n.name && r.version == n.version
    ensures r.isWorkspaceMember == n.isWorkspaceMember && r.features == n.features
    ensures (n.name, n.version) in lib ==>
              r.startMs == Some(lib[(n.name, n.version)].0 * 1000.0) &&
              r.durationMs == Some(lib[(n.name, n.version)].1 * 1000.0)
    ensures (n.name, n.version) !in lib && (n.name, n.version) in all ==>
              r.startMs == Some(all[(n.name, n.version)].0 * 1000.0) &&
              r.durationMs == Some(all[(n.name, n.version)].1 * 1000.0)
    ensures (n.name, n.version) !in lib && (n.name, n.version) !in all ==> r == n
    ensures ((n.name, n.version) in lib || (n.name, n.version) in all) ==>
              r.durationMs.Some? && (r.isFresh <==> r.durationMs.value < 1.0)
  {
    var key := (n.name, n.version);
    if key in lib then Timed(n, lib[key])
    else if key in all then Timed(n, all[key])
    else n
  }

  function RetimedNodes(nodes: map<CrateId, CrateNode>, lib: map<CrateKey, (real, real)>,
                        all: map<CrateKey, (real, real)>): map<CrateId, CrateNode>
  {
    map k | k in nodes :: Retimed(nodes[k], lib, all)
  }

  /** The `values_mut` loop; the HashMap visits its values in an
      unspecified order, modelled by picking any key not yet visited. */
  method MatchTimings(nodes: map<CrateId, CrateNode>, lib: map<CrateKey, (real, real)>,
                      all: map<CrateKey, (real, real)>)
    returns (r: map<CrateId, CrateNode>)
    ensures r == RetimedNodes(nodes, lib, all)
  {
    r := nodes;
    var todo := nodes.Keys;
    while todo != {}
      invariant todo <= nodes.Keys && r.Keys == nodes.Keys
      invariant forall k :: k in nodes ==> r[k] == if k in todo then nodes[k] else Retimed(nodes[k], lib, all)
      decreases todo
    {
      var k :| k in todo;
      r := r[k := Retimed(r[k], lib, all)];
      todo := todo - {k};
    }
  }

  /** The graph after timings are matched, before its path is recomputed. */
  function WithTimings(g: BuildGraph, units: seq<UnitTiming>): BuildGraph
  {
    g.(nodes := RetimedNodes(g.nodes, Aggregate(units, true), Aggregate(units, false)))
  }

  /** `apply_timings` from the parsed unit list on: aggregate, match, then
      recompute the critical path. */
  method ApplyTimings(g: BuildGraph, units: seq<UnitTiming>, order: seq<CrateId>, ghost rank: map<CrateId, nat>)
    returns (r: BuildGraph)
    requires Acyclic(g.edges, rank)
    requires IsKeyOrder(order, g.nodes)
    ensures var timed := WithTimings(g, units);
            r == timed.(criticalPath := CriticalPathOf(timed, order, rank))
  {
    var libTimings, allTimings := AggregateTimings(units);
    var nodes := MatchTimings(g.nodes, libTimings, allTimings);
    var timed := g.(nodes := nodes);
    assert timed.nodes.Keys == g.nodes.Keys;
    r := ComputeCriticalPath(timed, order, rank);
  }

  /** Applying timings keeps a well-formed graph well formed: node ids,
      edges and keys are untouched and the new path names nodes. */
  lemma ApplyTimingsKeepsWellFormed(g: BuildGraph, units: seq<UnitTiming>, order: seq<CrateId>, rank: map<CrateId, nat>)
    requires Acyclic(g.edges, rank)
    requires IsKeyOrder(order, g.nodes)
    requires WellFormed(g)
    ensures var timed := WithTimings(g, units);
            WellFormed(timed.(criticalPath := CriticalPathOf(timed, order, rank)))
  {
    var timed := WithTimings(g, units);
    assert timed.nodes.Keys == g.nodes.Keys;
    CriticalPathNamesNodes(timed, order, rank);
  }
}
