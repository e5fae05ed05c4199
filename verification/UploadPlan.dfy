/** The preflight planner of packages/cli/src/commands.ts and the server verdicts it works on. */
module UploadPlan {
  import opened JsText

  datatype ArtifactType = SourceMap | MinifiedAsset

  datatype Artifact = Artifact(path: Text, kind: ArtifactType, hash: Text)

  /** Without a source map there is nothing to upload. */
  predicate HasMap(scanned: seq<Artifact>) { exists a <- scanned :: a.kind == SourceMap }

  datatype Verdict = Upload | Exists | Conflict

  datatype PreflightResult = PreflightResult(path: Text, verdict: Verdict)

  datatype Plan = Plan(toUpload: seq<Artifact>, alreadyPresent: seq<Artifact>, conflicts: seq<Artifact>)

  /** The verdict that counts for a path: the last one given, or "upload" when there is none. */
  function VerdictFor(results: seq<PreflightResult>, path: Text): Verdict {
    if results == [] then Upload
    else
      var last := results[|results| - 1];
      if last.path == path then last.verdict else VerdictFor(results[..|results| - 1], path)
  }

  /** The scanned artifacts with a given verdict, in scan order. */
  function WithVerdict(scanned: seq<Artifact>, results: seq<PreflightResult>, v: Verdict): seq<Artifact> {
    if scanned == [] then []
    else
      var rest, last := WithVerdict(scanned[..|scanned| - 1], results, v), scanned[|scanned| - 1];
      if VerdictFor(results, last.path) == v then rest + [last] else rest
  }

  function PlanFor(scanned: seq<Artifact>, results: seq<PreflightResult>): Plan {
    Plan(
      WithVerdict(scanned, results, Upload),
      WithVerdict(scanned, results, Exists),
      WithVerdict(scanned, results, Conflict))
  }

  method PlanUploads(scanned: seq<Artifact>, results: seq<PreflightResult>) returns (plan: Plan)
    ensures plan == PlanFor(scanned, results)
  {
    var byPath: map<Text, Verdict> := map[];
    for i := 0 to |results|
      invariant forall p :: VerdictFor(results[..i], p) == if p in byPath then byPath[p] else Upload
    {
      byPath := byPath[results[i].path := results[i].verdict];
      assert results[..i + 1][..i] == results[..i];
    }
    assert results[..|results|] == results;
    plan := Plan([], [], []);
    for i := 0 to |scanned|
      invariant plan == PlanFor(scanned[..i], results)
    {
      var artifact := scanned[i];
      var verdict := if artifact.path in byPath then byPath[artifact.path] else Upload;
      match verdict {
        case Exists => plan := plan.(alreadyPresent := plan.alreadyPresent + [artifact]);
        case Conflict => plan := plan.(conflicts := plan.conflicts + [artifact]);
        case Upload => plan := plan.(toUpload := plan.toUpload + [artifact]);
      }
      assert scanned[..i + 1][..i] == scanned[..i];
    }
    assert scanned[..|scanned|] == scanned;
  }

  lemma {:induction false} WithVerdictContains(
    scanned: seq<Artifact>, results: seq<PreflightResult>, v: Verdict, a: Artifact)
    ensures a in WithVerdict(scanned, results, v) <==> a in scanned && VerdictFor(results, a.path) == v
  {
    if scanned != [] {
      var init, last := scanned[..|scanned| - 1], scanned[|scanned| - 1];
      WithVerdictContains(init, results, v, a);
      assert scanned == init + [last];
    }
  }

  /** How often an artifact occurs. */
  function Count(artifacts: seq<Artifact>, a: Artifact): nat {
    if artifacts == [] then 0
    else Count(artifacts[..|artifacts| - 1], a) + (if artifacts[|artifacts| - 1] == a then 1 else 0)
  }

  lemma CountAppend(artifacts: seq<Artifact>, last: Artifact, a: Artifact)
    ensures Count(artifacts + [last], a) == Count(artifacts, a) + (if last == a then 1 else 0)
  {
    assert (artifacts + [last])[..|artifacts|] == artifacts;
  }

  lemma {:induction false} CountWithVerdict(
    scanned: seq<Artifact>, results: seq<PreflightResult>, v: Verdict, a: Artifact)
    ensures Count(WithVerdict(scanned, results, v), a) ==
      if VerdictFor(results, a.path) == v then Count(scanned, a) else 0
  {
    if scanned != [] {
      var init, last := scanned[..|scanned| - 1], scanned[|scanned| - 1];
      CountWithVerdict(init, results, v, a);
      CountAppend(WithVerdict(init, results, v), last, a);
      hide VerdictFor;
    }
  }

  /** Every scanned artifact goes into exactly one of the three lists, as often as it was scanned. */
  lemma PlanIsPartition(scanned: seq<Artifact>, results: seq<PreflightResult>, a: Artifact)
    ensures var p, n := PlanFor(scanned, results), Count(scanned, a);
      && Count(p.toUpload, a) + Count(p.alreadyPresent, a) + Count(p.conflicts, a) == n
      && n in {Count(p.toUpload, a), Count(p.alreadyPresent, a), Count(p.conflicts, a)}
  {
    CountWithVerdict(scanned, results, Upload, a);
    CountWithVerdict(scanned, results, Exists, a);
    CountWithVerdict(scanned, results, Conflict, a);
  }

  // ---------- how results decide ----------

  /** The last result for a path decides; without one the artifact is uploaded. */
  lemma {:induction false} LastResultDecides(results: seq<PreflightResult>, path: Text)
    ensures (forall r <- results :: r.path != path) ==> VerdictFor(results, path) == Upload
    ensures (exists r <- results :: r.path == path) ==>
      exists i | 0 <= i < |results| ::
        && results[i].path == path && VerdictFor(results, path) == results[i].verdict
        && forall j | i < j < |results| :: results[j].path != path
  {
    if results != [] {
      var init, last := results[..|results| - 1], results[|results| - 1];
      LastResultDecides(init, path);
      assert results == init + [last];
      if last.path == path {
        assert results[|results| - 1].path == path;
      } else {
        assert forall r :: r in results <==> r in init || r == last;
        if exists r <- init :: r.path == path {
          var i :| 0 <= i < |init| && init[i].path == path && VerdictFor(init, path) == init[i].verdict
            && forall j | i < j < |init| :: init[j].path != path;
          assert results[i] == init[i];
        }
      }
    }
  }

  /** One result for each artifact, under its own path. */
  ghost predicate AnswersEach(results: seq<PreflightResult>, scanned: seq<Artifact>) {
    |results| == |scanned| && forall i | 0 <= i < |scanned| :: results[i].path == scanned[i].path
  }

  /** Results that answer each artifact are followed for each if and only if equal paths have equal verdicts. */
  lemma WellPlannedIffConsistent(scanned: seq<Artifact>, results: seq<PreflightResult>)
    requires AnswersEach(results, scanned)
    ensures (forall i | 0 <= i < |scanned| :: VerdictFor(results, scanned[i].path) == results[i].verdict) <==>
      forall i, j | 0 <= i < |scanned| && 0 <= j < |scanned| && scanned[i].path == scanned[j].path ::
        results[i].verdict == results[j].verdict
  {
    hide VerdictFor;
    if forall i, j | 0 <= i < |scanned| && 0 <= j < |scanned| && scanned[i].path == scanned[j].path ::
        results[i].verdict == results[j].verdict
    {
      forall i | 0 <= i < |scanned| ensures VerdictFor(results, scanned[i].path) == results[i].verdict {
        assert results[i] in results;
        LastResultDecides(results, scanned[i].path);
        var k :| 0 <= k < |results| && results[k].path == scanned[i].path
          && VerdictFor(results, scanned[i].path) == results[k].verdict;
        assert scanned[k].path == scanned[i].path;
      }
    }
  }

  /** Two results for one path: both artifacts go by the last. */
  lemma InconsistentResultsMisplan(first: Artifact, second: Artifact, v: Verdict, w: Verdict)
    requires first.path == second.path
    ensures var results := [PreflightResult(first.path, v), PreflightResult(second.path, w)];
      forall u: Verdict :: WithVerdict([first, second], results, u) == if u == w then [first, second] else []
  {
    var results := [PreflightResult(first.path, v), PreflightResult(second.path, w)];
    assert [first, second][..1] == [first] && [first][..0] == [];
    forall u: Verdict ensures WithVerdict([first, second], results, u) == if u == w then [first, second] else [] {
      assert WithVerdict([first], results, u) == if u == w then [first] else [];
    }
  }
}
