/**
 * The pipeline's stage graph: four declared stages, each naming the stages
 * it depends on, listed in declaration order; and a sequential run of that
 * list in which a stage is started only when every stage it depends on has
 * succeeded, and is otherwise skipped.
 *
 * The stage bodies (scraping, loading, the dbt build, the detector run) are
 * opaque here: the run takes their outcome as a parameter.
 */
module Assets {
  import opened Wrappers

  /** A declared stage: its name, optional group and compute kind, and its declared upstream. */
  datatype Stage = Stage(name: string, group: Option<string>, computeKind: Option<string>, deps: seq<string>)

  const TelegramRawFiles: Stage :=
    Stage("telegram_raw_files", Some("extraction"), Some("python"), [])
  const LoadedRawData: Stage :=
    Stage("loaded_raw_data_to_postgres", Some("extraction"), Some("python"), ["telegram_raw_files"])
  /** The dbt stage is declared without a group or compute kind. */
  const DbtTelegramAnalytics: Stage :=
    Stage("dbt_telegram_analytics", None, None, ["loaded_raw_data_to_postgres"])
  const YoloEnrichedData: Stage :=
    Stage("yolo_enriched_data", Some("enrichment"), Some("python"), ["dbt_telegram_analytics"])

  /** `all_assets`, in declaration order. */
  const AllAssets: seq<Stage> := [TelegramRawFiles, LoadedRawData, DbtTelegramAnalytics, YoloEnrichedData]

  // ---- Shape of a graph given as a list of stages ----

  function Names(g: seq<Stage>): (r: seq<string>)
    ensures |r| == |g| && forall i :: 0 <= i < |g| ==> r[i] == g[i].name
  {
    seq(|g|, i requires 0 <= i < |g| => g[i].name)
  }

  predicate UniqueNames(g: seq<Stage>) {
    forall i, j :: 0 <= i < j < |g| ==> g[i].name != g[j].name
  }

  /** Every upstream a stage names is declared somewhere in the list. */
  predicate DepsDeclared(g: seq<Stage>) {
    forall i, d :: 0 <= i < |g| && d in g[i].deps ==> d in Names(g)
  }

  /** Every upstream a stage names is declared earlier in the list. */
  predicate Topological(g: seq<Stage>) {
    forall i, d :: 0 <= i < |g| && d in g[i].deps ==> d in Names(g[..i])
  }

  /** Stage `b` is an upstream of stage `a` (both given by position). */
  predicate DependsOn(g: seq<Stage>, a: nat, b: nat)
    requires a < |g| && b < |g|
  {
    g[b].name in g[a].deps
  }

  /** A walk from each stage to one of its upstreams, given by positions. */
  predicate IsPath(g: seq<Stage>, p: seq<nat>) {
    && |p| > 0
    && (forall k :: 0 <= k < |p| ==> p[k] < |g|)
    && (forall k :: 0 <= k < |p| - 1 ==> DependsOn(g, p[k], p[k + 1]))
  }

  /** No stage reaches itself through its upstreams. */
  ghost predicate Acyclic(g: seq<Stage>) {
    forall p :: IsPath(g, p) && |p| > 1 ==> p[0] != p[|p| - 1]
  }

  /** A single chain: the first stage has no upstream, every later one exactly its predecessor. */
  predicate IsChain(g: seq<Stage>) {
    && (|g| > 0 ==> g[0].deps == [])
    && (forall i :: 0 < i < |g| ==> g[i].deps == [g[i - 1].name])
  }

  // ---- General facts about graphs ----

  /** With unique names and a topological order, every edge points strictly earlier. */
  lemma EdgePointsEarlier(g: seq<Stage>, a: nat, b: nat)
    requires UniqueNames(g) && Topological(g)
    requires a < |g| && b < |g| && DependsOn(g, a, b)
    ensures b < a
  {
    var d := g[b].name;
    assert d in Names(g[..a]);
    var j :| 0 <= j < a && Names(g[..a])[j] == d;
    assert g[j].name == d;
    assert j == b;
  }

  /** Along a path the positions strictly decrease. */
  lemma {:induction false} PathDescends(g: seq<Stage>, p: seq<nat>)
    requires UniqueNames(g) && Topological(g) && IsPath(g, p)
    ensures p[|p| - 1] <= p[0]
    ensures |p| > 1 ==> p[|p| - 1] < p[0]
  {
    if |p| > 1 {
      var q := p[1..];
      assert IsPath(g, q) by {
        forall k | 0 <= k < |q| - 1 ensures DependsOn(g, q[k], q[k + 1]) {
          assert q[k] == p[k + 1] && q[k + 1] == p[k + 2];
        }
      }
      PathDescends(g, q);
      EdgePointsEarlier(g, p[0], p[1]);
    }
  }

  /** A topological declaration order leaves no room for a cycle. */
  lemma TopologicalIsAcyclic(g: seq<Stage>)
    requires UniqueNames(g) && Topological(g)
    ensures Acyclic(g)
  {
    forall p | IsPath(g, p) && |p| > 1 ensures p[0] != p[|p| - 1] {
      PathDescends(g, p);
    }
  }

  /** A chain is declared in topological order. */
  lemma ChainIsTopological(g: seq<Stage>)
    requires IsChain(g)
    ensures Topological(g) && DepsDeclared(g)
  {
    forall i | 0 <= i < |g| ensures forall d :: d in g[i].deps ==> d in Names(g[..i]) && d in Names(g) {
      if i > 0 {
        var h := Names(g[..i]);
        assert h[i - 1] == g[i - 1].name;
        assert h[i - 1] in h;
        assert Names(g)[i - 1] in Names(g);
      }
    }
  }

  // ---- The declared graph ----

  /** Four stages with distinct names, forming the chain raw files, load, dbt, enrichment. */
  lemma AllAssetsShape()
    ensures |AllAssets| == 4 && UniqueNames(AllAssets) && IsChain(AllAssets)
    ensures Names(AllAssets) ==
      ["telegram_raw_files", "loaded_raw_data_to_postgres", "dbt_telegram_analytics", "yolo_enriched_data"]
    ensures AllAssets[0].group == AllAssets[1].group == Some("extraction")
    ensures AllAssets[2].group == None && AllAssets[3].group == Some("enrichment")
  {
    assert AllAssets[1].deps == [AllAssets[0].name];
    assert AllAssets[2].deps == [AllAssets[1].name];
    assert AllAssets[3].deps == [AllAssets[2].name];
  }

  /** The declaration order is topological and the graph is acyclic. */
  lemma AllAssetsAcyclic()
    ensures DepsDeclared(AllAssets) && Topological(AllAssets) && Acyclic(AllAssets)
  {
    AllAssetsShape();
    ChainIsTopological(AllAssets);
    TopologicalIsAcyclic(AllAssets);
  }

  // ---- A sequential run ----

  datatype Status = Succeeded | Failed | Skipped

  /** Every upstream of `s` has already run and succeeded. */
  predicate Ready(status: map<string, Status>, s: Stage) {
    forall d :: d in s.deps ==> d in status && status[d] == Succeeded
  }

  function Outcome(status: map<string, Status>, s: Stage, succeeds: string -> bool): Status {
    if !Ready(status, s) then Skipped
    else if succeeds(s.name) then Succeeded
    else Failed
  }

  /** The status of every stage after running the list in order. */
  function Statuses(g: seq<Stage>, succeeds: string -> bool): (r: map<string, Status>)
    ensures forall n :: n in r <==> n in Names(g)
  {
    if g == [] then map[]
    else
      var before := Statuses(g[..|g| - 1], succeeds);
      var s := g[|g| - 1];
      assert Names(g) == Names(g[..|g| - 1]) + [s.name];
      before[s.name := Outcome(before, s, succeeds)]
  }

  /** The stages whose body was started, in the order they were started. */
  function Started(g: seq<Stage>, succeeds: string -> bool): seq<string> {
    if g == [] then []
    else
      var before := Statuses(g[..|g| - 1], succeeds);
      var s := g[|g| - 1];
      Started(g[..|g| - 1], succeeds) + (if Ready(before, s) then [s.name] else [])
  }

  /**
   * Runs the stages in list order. `succeeds` says how the body of a stage
   * ends when it is started.
   */
  method Execute(g: seq<Stage>, succeeds: string -> bool) returns (status: map<string, Status>, started: seq<string>)
    ensures status == Statuses(g, succeeds)
    ensures started == Started(g, succeeds)
  {
    status := map[];
    started := [];
    for i := 0 to |g|
      invariant status == Statuses(g[..i], succeeds)
      invariant started == Started(g[..i], succeeds)
    {
      var s := g[i];
      assert g[..i + 1][..i] == g[..i];
      if Ready(status, s) {
        started := started + [s.name];
        if succeeds(s.name) {
          status := status[s.name := Succeeded];
        } else {
          status := status[s.name := Failed];
        }
      } else {
        status := status[s.name := Skipped];
      }
    }
    assert g[..|g|] == g;
  }

  // ---- What a run guarantees ----

  /** Once a stage has a status, later stages (with other names) leave it alone. */
  lemma {:induction false} StatusesStable(g: seq<Stage>, i: nat, succeeds: string -> bool)
    requires UniqueNames(g) && i < |g|
    ensures g[i].name in Statuses(g, succeeds)
    ensures Statuses(g, succeeds)[g[i].name] == Outcome(Statuses(g[..i], succeeds), g[i], succeeds)
  {
    var front := g[..|g| - 1];
    if i < |g| - 1 {
      assert UniqueNames(front);
      assert front[..i] == g[..i];
      StatusesStable(front, i, succeeds);
      assert g[|g| - 1].name != g[i].name;
    } else {
      assert front == g[..i];
    }
  }

  /** The started stages are exactly the stages that succeeded or failed. */
  lemma {:induction false} StartedIffRan(g: seq<Stage>, succeeds: string -> bool)
    requires UniqueNames(g)
    ensures forall i :: 0 <= i < |g| ==>
      (g[i].name in Started(g, succeeds) <==> Statuses(g, succeeds)[g[i].name] != Skipped)
  {
    if g != [] {
      var front := g[..|g| - 1];
      var last := g[|g| - 1];
      assert UniqueNames(front);
      StartedIffRan(front, succeeds);
      StartedNames(front, succeeds);
      forall i | 0 <= i < |g|
        ensures g[i].name in Started(g, succeeds) <==> Statuses(g, succeeds)[g[i].name] != Skipped
      {
        StatusesStable(g, i, succeeds);
        if i < |front| {
          assert front[i] == g[i];
          assert g[i].name != last.name;
          StatusesStable(front, i, succeeds);
          assert front[..i] == g[..i];
        } else {
          assert last.name !in Started(front, succeeds);
        }
      }
    }
  }

  /** Only declared stages are started. */
  lemma {:induction false} StartedNames(g: seq<Stage>, succeeds: string -> bool)
    ensures forall n :: n in Started(g, succeeds) ==> exists i :: 0 <= i < |g| && g[i].name == n
  {
    if g != [] {
      var front := g[..|g| - 1];
      StartedNames(front, succeeds);
      forall n | n in Started(g, succeeds) ensures exists i :: 0 <= i < |g| && g[i].name == n {
        if n in Started(front, succeeds) {
          var i :| 0 <= i < |front| && front[i].name == n;
          assert g[i].name == n;
        } else {
          assert g[|g| - 1].name == n;
        }
      }
    }
  }

  /** What was started before stage `i` is a prefix of everything started. */
  lemma {:induction false} StartedPrefix(g: seq<Stage>, i: nat, succeeds: string -> bool)
    requires i <= |g|
    ensures Started(g[..i], succeeds) <= Started(g, succeeds)
    decreases |g| - i
  {
    if i < |g| {
      StartedPrefix(g, i + 1, succeeds);
      assert g[..i + 1][..i] == g[..i];
    } else {
      assert g[..i] == g;
    }
  }

  /** A stage that succeeded was started. */
  lemma {:induction false} SucceededWasStarted(g: seq<Stage>, n: string, succeeds: string -> bool)
    requires n in Statuses(g, succeeds) && Statuses(g, succeeds)[n] == Succeeded
    ensures n in Started(g, succeeds)
  {
    var front := g[..|g| - 1];
    if n != g[|g| - 1].name {
      SucceededWasStarted(front, n, succeeds);
    }
  }

  /** The status a stage has after the first `i` stages is its final status. */
  lemma {:induction false} StatusesPrefixStable(g: seq<Stage>, i: nat, n: string, succeeds: string -> bool)
    requires UniqueNames(g) && i <= |g| && n in Names(g[..i])
    ensures n in Statuses(g, succeeds) && Statuses(g, succeeds)[n] == Statuses(g[..i], succeeds)[n]
  {
    if i < |g| {
      var front := g[..|g| - 1];
      var j :| 0 <= j < i && Names(g[..i])[j] == n;
      assert g[j].name == n && front[j] == g[j];
      assert front[..i] == g[..i];
      assert UniqueNames(front);
      StatusesPrefixStable(front, i, n, succeeds);
      assert g[|g| - 1].name != n;
    } else {
      assert g[..i] == g;
    }
  }

  /** An upstream of a ready stage was started before it and keeps its success to the end. */
  lemma ReadyUpstream(g: seq<Stage>, i: nat, d: string, succeeds: string -> bool)
    requires UniqueNames(g) && i < |g|
    requires Ready(Statuses(g[..i], succeeds), g[i]) && d in g[i].deps
    ensures d in Started(g[..i], succeeds) && Statuses(g, succeeds)[d] == Succeeded
  {
    SucceededWasStarted(g[..i], d, succeeds);
    StatusesPrefixStable(g, i, d, succeeds);
  }

  /**
   * A stage is started only after every stage it depends on was started,
   * earlier, and succeeded.
   */
  lemma RunsAfterUpstream(g: seq<Stage>, i: nat, succeeds: string -> bool)
    requires UniqueNames(g) && Topological(g) && i < |g|
    requires Statuses(g, succeeds)[g[i].name] != Skipped
    ensures forall d :: d in g[i].deps ==>
      d in Started(g[..i], succeeds) && Statuses(g, succeeds)[d] == Succeeded
    ensures Started(g[..i], succeeds) + [g[i].name] <= Started(g, succeeds)
  {
    StatusesStable(g, i, succeeds);
    assert Ready(Statuses(g[..i], succeeds), g[i]);
    forall d | d in g[i].deps ensures d in Started(g[..i], succeeds) && Statuses(g, succeeds)[d] == Succeeded {
      ReadyUpstream(g, i, d, succeeds);
    }
    StartedThrough(g, i, succeeds);
  }

  /** A started stage follows everything started before it. */
  lemma StartedThrough(g: seq<Stage>, i: nat, succeeds: string -> bool)
    requires i < |g| && Ready(Statuses(g[..i], succeeds), g[i])
    ensures Started(g[..i], succeeds) + [g[i].name] <= Started(g, succeeds)
  {
    StartedPrefix(g, i + 1, succeeds);
    assert g[..i + 1][..i] == g[..i];
  }

  /** A stage with an upstream that failed or was skipped is skipped. */
  lemma SkipCascades(g: seq<Stage>, i: nat, d: string, succeeds: string -> bool)
    requires UniqueNames(g) && Topological(g) && i < |g| && d in g[i].deps
    requires d in Statuses(g, succeeds) && Statuses(g, succeeds)[d] != Succeeded
    ensures Statuses(g, succeeds)[g[i].name] == Skipped
  {
    StatusesStable(g, i, succeeds);
    if Statuses(g, succeeds)[g[i].name] != Skipped {
      RunsAfterUpstream(g, i, succeeds);
    }
  }

  /** Skips cascade down every chain of dependencies: a stage reaching a failed or skipped stage is skipped. */
  lemma {:induction false} TransitiveSkip(g: seq<Stage>, p: seq<nat>, succeeds: string -> bool)
    requires UniqueNames(g) && Topological(g) && IsPath(g, p) && |p| > 1
    requires Statuses(g, succeeds)[g[p[|p| - 1]].name] != Succeeded
    ensures Statuses(g, succeeds)[g[p[0]].name] == Skipped
  {
    var q := p[1..];
    if |q| > 1 {
      assert IsPath(g, q) by {
        forall k | 0 <= k < |q| - 1 ensures DependsOn(g, q[k], q[k + 1]) {
          assert q[k] == p[k + 1] && q[k + 1] == p[k + 2];
        }
      }
      assert q[|q| - 1] == p[|p| - 1];
      TransitiveSkip(g, q, succeeds);
    }
    assert DependsOn(g, p[0], p[1]);
    SkipCascades(g, p[0], g[p[1]].name, succeeds);
  }

  /** When every body succeeds, every stage is started, in list order, and succeeds. */
  lemma {:induction false} AllSucceed(g: seq<Stage>, succeeds: string -> bool)
    requires Topological(g)
    requires forall i :: 0 <= i < |g| ==> succeeds(g[i].name)
    ensures Started(g, succeeds) == Names(g)
    ensures forall n :: n in Statuses(g, succeeds) ==> Statuses(g, succeeds)[n] == Succeeded
  {
    if g != [] {
      var front := g[..|g| - 1];
      var last := g[|g| - 1];
      assert Topological(front) by {
        forall i, d | 0 <= i < |front| && d in front[i].deps ensures d in Names(front[..i]) {
          assert front[..i] == g[..i];
        }
      }
      AllSucceed(front, succeeds);
      assert Ready(Statuses(front, succeeds), last);
      assert Names(g) == Names(front) + [last.name];
    }
  }

  /** A pipeline run in which every body succeeds starts the four stages in chain order. */
  lemma FullRun(succeeds: string -> bool)
    requires forall n :: succeeds(n)
    ensures Started(AllAssets, succeeds) ==
      ["telegram_raw_files", "loaded_raw_data_to_postgres", "dbt_telegram_analytics", "yolo_enriched_data"]
  {
    AllAssetsShape();
    ChainIsTopological(AllAssets);
    AllSucceed(AllAssets, succeeds);
  }

  /** If loading fails, the dbt build and the enrichment are skipped. */
  lemma LoadFailureSkipsRest(succeeds: string -> bool)
    requires succeeds("telegram_raw_files") && !succeeds("loaded_raw_data_to_postgres")
    ensures Started(AllAssets, succeeds) == ["telegram_raw_files", "loaded_raw_data_to_postgres"]
    ensures Statuses(AllAssets, succeeds) == map[
      "telegram_raw_files" := Succeeded, "loaded_raw_data_to_postgres" := Failed,
      "dbt_telegram_analytics" := Skipped, "yolo_enriched_data" := Skipped]
  {
    var g := AllAssets;
    assert g[..1] == [TelegramRawFiles];
    assert g[..2] == [TelegramRawFiles, LoadedRawData];
    assert g[..3] == [TelegramRawFiles, LoadedRawData, DbtTelegramAnalytics];
    assert g[..1][..0] == [];
    assert g[..2][..1] == g[..1];
    assert g[..3][..2] == g[..2];
    assert g[..|g| - 1] == g[..3];
    var s1 := map["telegram_raw_files" := Succeeded];
    assert Statuses(g[..1], succeeds) == s1;
    var s2 := s1["loaded_raw_data_to_postgres" := Failed];
    assert Statuses(g[..2], succeeds) == s2;
    var s3 := s2["dbt_telegram_analytics" := Skipped];
    assert DbtTelegramAnalytics.deps[0] == "loaded_raw_data_to_postgres";
    assert "loaded_raw_data_to_postgres" in DbtTelegramAnalytics.deps;
    assert s2["loaded_raw_data_to_postgres"] == Failed;
    assert !Ready(s2, DbtTelegramAnalytics);
    assert Statuses(g[..3], succeeds) == s3;
    assert "dbt_telegram_analytics" in YoloEnrichedData.deps;
    assert s3["dbt_telegram_analytics"] == Skipped;
    assert !Ready(s3, YoloEnrichedData);
    assert Ready(map[], TelegramRawFiles);
    assert Started(g[..1], succeeds) == ["telegram_raw_files"];
    assert "telegram_raw_files" in s1 && s1["telegram_raw_files"] == Succeeded;
    assert LoadedRawData.deps == ["telegram_raw_files"];
    assert Ready(s1, LoadedRawData);
    assert Started(g[..2], succeeds) == ["telegram_raw_files", "loaded_raw_data_to_postgres"];
  }
}
