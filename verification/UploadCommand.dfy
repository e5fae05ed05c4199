/**
 * One `sourcemaps upload` from start to end against a server that nobody else uses meanwhile
 * (packages/cli/src/commands.ts). Any request may fail, before or after the server has acted on it.
 */
module UploadCommand {
  import opened Wrappers
  import opened JsText
  import opened UploadPlan
  import opened UploadServer
  import ArtifactPaths

  /** The store with an artifact put at its place, if it has one and it is free. */
  function Put(stored: Stored, a: Artifact, locate: Locate): Stored {
    match locate(a.path)
    case None => stored
    case Some(place) => if place in stored then stored else stored[place := a.hash]
  }

  /** The store with every artifact put in it that it lacks. */
  function Added(stored: Stored, artifacts: seq<Artifact>, locate: Locate): Stored {
    if artifacts == [] then stored
    else Put(Added(stored, artifacts[..|artifacts| - 1], locate), artifacts[|artifacts| - 1], locate)
  }

  predicate IsIn(stored: Stored, a: Artifact, locate: Locate) {
    && locate(a.path).Some?
    && locate(a.path).value in stored && stored[locate(a.path).value] == a.hash
  }

  ghost predicate AreIn(stored: Stored, artifacts: seq<Artifact>, locate: Locate) {
    forall a <- artifacts :: IsIn(stored, a, locate)
  }

  lemma AddedAppend(stored: Stored, artifacts: seq<Artifact>, last: Artifact, locate: Locate)
    ensures Added(stored, artifacts + [last], locate) == Put(Added(stored, artifacts, locate), last, locate)
  {
    assert (artifacts + [last])[..|artifacts|] == artifacts;
  }

  /** What is stored stays; what is new belongs to an artifact. */
  lemma {:induction false} AddedContains(stored: Stored, artifacts: seq<Artifact>, locate: Locate, p: Text)
    ensures p in stored ==> p in Added(stored, artifacts, locate) && Added(stored, artifacts, locate)[p] == stored[p]
    ensures p in Added(stored, artifacts, locate) && p !in stored ==>
      exists a <- artifacts :: locate(a.path) == Some(p) && a.hash == Added(stored, artifacts, locate)[p]
  {
    if artifacts != [] {
      var init, last := artifacts[..|artifacts| - 1], artifacts[|artifacts| - 1];
      AddedContains(stored, init, locate, p);
      assert artifacts == init + [last];
      assert last in artifacts && forall a <- init :: a in artifacts;
    }
  }

  /** Putting in what is there changes nothing. */
  lemma {:induction false} AddedAgain(stored: Stored, artifacts: seq<Artifact>, locate: Locate)
    requires AreIn(stored, artifacts, locate)
    ensures Added(stored, artifacts, locate) == stored
  {
    if artifacts != [] {
      var init, last := artifacts[..|artifacts| - 1], artifacts[|artifacts| - 1];
      assert artifacts == init + [last] && last in artifacts && forall a <- init :: a in artifacts;
      AddedAgain(stored, init, locate);
    }
  }

  /** The paths that the server does not leave alone, in scan order. */
  function Unsettled(scanned: seq<Artifact>, locate: Locate): seq<Artifact> {
    if scanned == [] then []
    else
      var rest, last := Unsettled(scanned[..|scanned| - 1], locate), scanned[|scanned| - 1];
      if IsSettled(last, locate) then rest else rest + [last]
  }

  lemma {:induction false} UnsettledContains(scanned: seq<Artifact>, locate: Locate, a: Artifact)
    ensures a in Unsettled(scanned, locate) <==> a in scanned && !IsSettled(a, locate)
  {
    if scanned != [] {
      UnsettledContains(scanned[..|scanned| - 1], locate, a);
      assert scanned == scanned[..|scanned| - 1] + [scanned[|scanned| - 1]];
    }
  }

  function PlanOn(stored: Stored, scanned: seq<Artifact>, locate: Locate): Plan
    requires IsAccepted(scanned, locate)
  {
    PlanFor(scanned, Results(stored, scanned, locate))
  }

  /**
   * What is planned for an accepted manifest in which nothing is shadowed: unsettled paths are uploaded
   * whatever is stored, and of the others those that are missing; conflicts are the settled paths with
   * other content.
   */
  lemma PlanOfScan(stored: Stored, scanned: seq<Artifact>, locate: Locate, a: Artifact)
    requires IsAccepted(scanned, locate) && HasNoShadows(scanned, locate)
    ensures var plan := PlanOn(stored, scanned, locate);
      && (a in plan.toUpload <==> a in scanned && (!IsSettled(a, locate) || a.path !in stored))
      && (a in plan.conflicts <==> a in scanned && IsSettled(a, locate) && a.path in stored && stored[a.path] != a.hash)
      && (a in plan.alreadyPresent <==>
            a in scanned && IsSettled(a, locate) && a.path in stored && stored[a.path] == a.hash)
  {
    var results := Results(stored, scanned, locate);
    hide Results, VerdictFor, WithVerdict;
    WithVerdictContains(scanned, results, Upload, a);
    WithVerdictContains(scanned, results, Exists, a);
    WithVerdictContains(scanned, results, Conflict, a);
    if a in scanned {
      var i: nat :| i < |scanned| && scanned[i] == a;
      VerdictUnshadowed(stored, scanned, locate, i);
    }
  }

  /** Once everything is stored, exactly the unsettled paths are uploaded again. */
  lemma {:induction false} OnlyUnsettledAgain(stored: Stored, scanned: seq<Artifact>, locate: Locate, n: nat)
    requires IsAccepted(scanned, locate) && HasNoShadows(scanned, locate) && AreIn(stored, scanned, locate)
    requires n <= |scanned|
    ensures WithVerdict(scanned[..n], Results(stored, scanned, locate), Upload) == Unsettled(scanned[..n], locate)
  {
    if n > 0 {
      hide Results, VerdictFor;
      OnlyUnsettledAgain(stored, scanned, locate, n - 1);
      VerdictUnshadowed(stored, scanned, locate, n - 1);
      assert scanned[n - 1] in scanned;
      assert scanned[..n][..n - 1] == scanned[..n - 1];
    }
  }

  /** With no conflict planned, everything that nothing shadows is stored once the plan is carried out. */
  lemma StoredAfterPlan(stored: Stored, scanned: seq<Artifact>, locate: Locate, i: nat)
    requires IsAccepted(scanned, locate) && i < |scanned| && !IsShadowed(scanned, i, locate)
    requires var plan := PlanOn(stored, scanned, locate);
      plan.conflicts == [] && AreIn(Added(stored, plan.toUpload, locate), plan.toUpload, locate)
    ensures IsIn(Added(stored, PlanOn(stored, scanned, locate).toUpload, locate), scanned[i], locate)
  {
    var results, a := Results(stored, scanned, locate), scanned[i];
    hide Results, VerdictFor, WithVerdict;
    VerdictUnshadowed(stored, scanned, locate, i);
    WithVerdictContains(scanned, results, Upload, a);
    WithVerdictContains(scanned, results, Conflict, a);
    AddedContains(stored, WithVerdict(scanned, results, Upload), locate, a.path);
  }

  /** A plan without conflicts, carried out, leaves none to be planned. */
  lemma NoConflictAgain(stored: Stored, scanned: seq<Artifact>, locate: Locate)
    requires IsAccepted(scanned, locate) && PlanOn(stored, scanned, locate).conflicts == []
    ensures PlanOn(Added(stored, PlanOn(stored, scanned, locate).toUpload, locate), scanned, locate).conflicts == []
  {
    var uploads := PlanOn(stored, scanned, locate).toUpload;
    var later := Added(stored, uploads, locate);
    var conflicts := PlanOn(later, scanned, locate).conflicts;
    if conflicts != [] {
      var a := conflicts[0];
      assert a in conflicts;
      hide Results, VerdictFor, WithVerdict, Added;
      WithVerdictContains(scanned, Results(later, scanned, locate), Conflict, a);
      WithVerdictContains(scanned, Results(stored, scanned, locate), Conflict, a);
      FoundVerdict(later, scanned, locate, a.path);
      FoundVerdict(stored, scanned, locate, a.path);
      var l :| 0 <= l < |scanned| && locate(scanned[l].path) == Some(a.path);
      AddedContains(stored, uploads, locate, a.path);
      var b :| b in uploads && locate(b.path) == Some(a.path) && b.hash == later[a.path];
      WithVerdictContains(scanned, Results(stored, scanned, locate), Upload, b);
    }
  }

  /** An upload that the server refuses: at its place other content is stored. */
  predicate IsTaken(stored: Stored, a: Artifact, locate: Locate) {
    && locate(a.path).Some?
    && locate(a.path).value in stored && stored[locate(a.path).value] != a.hash
  }

  ghost predicate HasTaken(stored: Stored, artifacts: seq<Artifact>, locate: Locate) {
    exists a <- artifacts :: IsTaken(stored, a, locate)
  }

  /** A place that is taken on the way was taken before: no other entry has it. */
  lemma TakenBefore(stored: Stored, scanned: seq<Artifact>, uploads: seq<Artifact>, locate: Locate, a: Artifact)
    requires IsAccepted(scanned, locate) && a in scanned && forall b <- uploads :: b in scanned
    requires IsTaken(Added(stored, uploads, locate), a, locate)
    ensures IsTaken(stored, a, locate)
  {
    hide Added;
    AddedContains(stored, uploads, locate, locate(a.path).value);
  }

  lemma PlannedAreScanned(stored: Stored, scanned: seq<Artifact>, locate: Locate)
    requires IsAccepted(scanned, locate)
    ensures forall a <- PlanOn(stored, scanned, locate).toUpload :: a in scanned
  {
    hide WithVerdict, VerdictFor, Results;
    forall a | a in PlanOn(stored, scanned, locate).toUpload ensures a in scanned {
      WithVerdictContains(scanned, Results(stored, scanned, locate), Upload, a);
    }
  }

  /** What the preflight does not see: the plan has a taken artifact if and only if an unsettled one is taken. */
  lemma TakenIsPlannedIff(stored: Stored, scanned: seq<Artifact>, locate: Locate)
    requires IsAccepted(scanned, locate) && HasNoShadows(scanned, locate)
    ensures HasTaken(stored, PlanOn(stored, scanned, locate).toUpload, locate) <==>
      exists a <- scanned :: !IsSettled(a, locate) && IsTaken(stored, a, locate)
  {
    hide HasNoShadows, PlanFor, Results;
    forall a
      ensures a in PlanOn(stored, scanned, locate).toUpload && IsTaken(stored, a, locate) <==>
        a in scanned && !IsSettled(a, locate) && IsTaken(stored, a, locate)
    {
      PlanOfScan(stored, scanned, locate, a);
    }
  }

  /** A file with the path `%61.map` that differs from the stored `a.map` is planned, and then refused. */
  lemma UnseenConflict(upper: Text -> Text, hash: Text, other: Text)
    requires ArtifactPaths.UppersAscii(upper) && hash != other
    ensures var locate := Canonical(ArtifactPaths.DeviceName(upper));
      var scanned := [Artifact(ArtifactPaths.ENCODED_A, SourceMap, hash)];
      var stored: Stored := map[ArtifactPaths.A_MAP := other];
      && IsAccepted(scanned, locate)
      && PlanOn(stored, scanned, locate).conflicts == []
      && HasTaken(stored, PlanOn(stored, scanned, locate).toUpload, locate)
  {
    hide ArtifactPaths.Canonicalize, ArtifactPaths.DeviceName, Results, WithVerdict, VerdictFor;
    var locate := Canonical(ArtifactPaths.DeviceName(upper));
    var scanned := [Artifact(ArtifactPaths.ENCODED_A, SourceMap, hash)];
    var stored: Stored := map[ArtifactPaths.A_MAP := other];
    ArtifactPaths.UnsettledExample(upper);
    assert |ArtifactPaths.A_MAP| == 5 && |ArtifactPaths.ENCODED_A| == 7;
    assert locate(scanned[0].path) == Some(ArtifactPaths.A_MAP);
    assert HasNoShadows(scanned, locate);
    PlanOfScan(stored, scanned, locate, scanned[0]);
    var conflicts := PlanOn(stored, scanned, locate).conflicts;
    if conflicts != [] {
      assert conflicts[0] in conflicts;
      PlanOfScan(stored, scanned, locate, conflicts[0]);
    }
  }

  /** The three lists hold what was scanned, each artifact as often as it was. */
  lemma {:induction false} ListsTogether(scanned: seq<Artifact>, results: seq<PreflightResult>)
    ensures multiset(WithVerdict(scanned, results, Upload)) + multiset(WithVerdict(scanned, results, Exists))
      + multiset(WithVerdict(scanned, results, Conflict)) == multiset(scanned)
  {
    if scanned != [] {
      hide VerdictFor;
      ListsTogether(scanned[..|scanned| - 1], results);
      assert scanned == scanned[..|scanned| - 1] + [scanned[|scanned| - 1]];
    }
  }

  /** After a success nothing planned anew is refused. */
  lemma NothingTakenAgain(stored: Stored, scanned: seq<Artifact>, locate: Locate)
    requires IsAccepted(scanned, locate)
    requires var uploads := PlanOn(stored, scanned, locate).toUpload;
      AreIn(Added(stored, uploads, locate), uploads, locate)
    ensures var later := Added(stored, PlanOn(stored, scanned, locate).toUpload, locate);
      !HasTaken(later, PlanOn(later, scanned, locate).toUpload, locate)
  {
    hide Results, VerdictFor, WithVerdict, Added;
    var uploads := PlanOn(stored, scanned, locate).toUpload;
    var later := Added(stored, uploads, locate);
    forall a | a in PlanOn(later, scanned, locate).toUpload ensures a in uploads {
      WithVerdictContains(scanned, Results(later, scanned, locate), Upload, a);
      WithVerdictContains(scanned, Results(stored, scanned, locate), Upload, a);
      FoundVerdict(later, scanned, locate, a.path);
      FoundVerdict(stored, scanned, locate, a.path);
      AddedContains(stored, uploads, locate, a.path);
    }
  }

  // ---------- the server ----------

  datatype CreateOutcome = Release(created: bool) | VersionConflict | NoAnswer

  class Server {
    const locate: Locate
    var releases: set<Text>
    var stored: map<Text, Stored>
    // How many requests have failed: without an answer, or with one that does not depend on what is stored.
    ghost var failures: nat

    function StoredIn(version: Text): Stored
      reads this
    {
      if version in stored then stored[version] else map[]
    }

    /** An idempotent create; a release with other metadata is a conflict. */
    method CreateRelease(version: Text) returns (outcome: CreateOutcome)
      modifies this`releases, this`failures
      ensures failures == if outcome.NoAnswer? then old(failures) + 1 else old(failures)
      ensures outcome.Release? ==>
        outcome.created == (version !in old(releases)) && releases == old(releases) + {version}
      ensures outcome.VersionConflict? ==> version in old(releases) && releases == old(releases)
      ensures releases == old(releases) || releases == old(releases) + {version}
    {
      var reached: bool, answered: bool, conflict: bool := *, *, *;
      if !reached || !answered { failures := failures + 1; }
      if !reached { return NoAnswer; }
      if conflict && version in releases { return if answered then VersionConflict else NoAnswer; }
      outcome := if answered then Release(version !in releases) else NoAnswer;
      releases := releases + {version};
    }

    method ListReleases() returns (answered: bool, versions: set<Text>)
      modifies this`failures
      ensures answered ==> versions == releases
      ensures failures == if answered then old(failures) else old(failures) + 1
    {
      answered := *;
      if !answered { failures := failures + 1; }
      versions := releases;
    }

    method CheckArtifacts(version: Text, entries: seq<Artifact>) returns (answered: bool, results: seq<PreflightResult>)
      modifies this`failures
      ensures answered ==> CheckManifest(StoredIn(version), entries, locate) == Some(results)
      ensures answered ==> failures == old(failures)
      ensures !answered ==> failures == old(failures) + 1 || (failures == old(failures) && !IsAccepted(entries, locate))
    {
      answered := *;
      if !answered { failures := failures + 1; return false, []; }
      var answer := CheckArtifactPreflight(StoredIn(version), entries, locate);
      if answer == None { return false, []; }
      results := answer.value;
    }

    /** Put if absent, at the place of the path. */
    method UploadArtifact(version: Text, a: Artifact) returns (accepted: bool)
      modifies this`stored, this`failures
      ensures accepted ==> failures == old(failures)
      ensures !accepted ==>
        || failures == old(failures) + 1
        || (failures == old(failures) && (locate(a.path) == None || IsTaken(old(StoredIn(version)), a, locate)))
      ensures accepted ==>
        StoredIn(version) == Put(old(StoredIn(version)), a, locate) && IsIn(StoredIn(version), a, locate)
      ensures StoredIn(version) == old(StoredIn(version)) || StoredIn(version) == Put(old(StoredIn(version)), a, locate)
      ensures stored - {version} == old(stored) - {version}
    {
      var reached: bool, answered: bool := *, *;
      var place := locate(a.path);
      if !reached || !answered { failures := failures + 1; }
      if !reached || place == None { return false; }
      accepted := answered && VerdictOn(StoredIn(version), place.value, a.hash) != Conflict;
      if place.value !in StoredIn(version) {
        stored := stored[version := StoredIn(version)[place.value := a.hash]];
      }
    }
  }

  datatype Report =
    | NoMaps
    | RequestFailed
    | ConflictAbort(created: bool, conflicts: seq<Artifact>, present: seq<Artifact>)
    | Success(created: bool, uploaded: seq<Artifact>, present: seq<Artifact>)

  /**
   * Whether the release is known to exist afterwards, which fails only with a request, and whether it is
   * new; a version conflict means that it was there, and the list confirms it.
   */
  method CreateOrConfirmRelease(server: Server, version: Text) returns (confirmed: bool, created: bool)
    modifies server`releases, server`failures
    ensures confirmed <==> server.failures == old(server.failures)
    ensures old(server.failures) <= server.failures
    ensures confirmed ==> server.releases == old(server.releases) + {version}
    ensures confirmed ==> created == (version !in old(server.releases))
    ensures old(server.releases) <= server.releases <= old(server.releases) + {version}
  {
    var outcome := server.CreateRelease(version);
    match outcome
    case Release(isNew) => return true, isNew;
    case NoAnswer => return false, false;
    case VersionConflict =>
      var answered, versions := server.ListReleases();
      return answered && version in versions, false;
  }

  /**
   * A run fails only if a request fails, the server refuses the manifest, or, with nothing reported as a
   * conflict, an artifact is to be uploaded to a place that holds other content.
   * Success: the server took the manifest, so no path was scanned twice; exactly what was planned was
   * uploaded, and everything that no other entry shadows is in store, that is everything if nothing is
   * shadowed. A conflict uploads nothing and changes nothing; a failed request leaves some first part of
   * the plan; a refused manifest changes nothing.
   */
  method RunSourcemapsUpload(server: Server, version: Text, scanned: seq<Artifact>) returns (report: Report)
    modifies server
    ensures report == NoMaps <==> !HasMap(scanned)
    ensures report.RequestFailed? <==>
      && HasMap(scanned)
      && (|| server.failures != old(server.failures)
          || !IsAccepted(scanned, server.locate)
          || (var plan := PlanOn(old(server.StoredIn(version)), scanned, server.locate);
              plan.conflicts == [] && HasTaken(old(server.StoredIn(version)), plan.toUpload, server.locate)))
    ensures old(server.failures) <= server.failures
    ensures report.Success? ==>
      && server.releases == old(server.releases) + {version}
      && report.created == (version !in old(server.releases))
      && report.present == PlanOn(old(server.StoredIn(version)), scanned, server.locate).alreadyPresent
      && multiset(report.uploaded) + multiset(report.present) == multiset(scanned)
    ensures report.ConflictAbort? ==>
      && server.releases == old(server.releases) + {version}
      && report.created == (version !in old(server.releases))
      && report.present == PlanOn(old(server.StoredIn(version)), scanned, server.locate).alreadyPresent
    ensures server.stored - {version} == old(server.stored) - {version}
    ensures report.Success? ==>
      && IsAccepted(scanned, server.locate) && !HasRepeats(scanned) && version in server.releases
      && report.uploaded == PlanOn(old(server.StoredIn(version)), scanned, server.locate).toUpload
      && PlanOn(old(server.StoredIn(version)), scanned, server.locate).conflicts == []
      && server.StoredIn(version) == Added(old(server.StoredIn(version)), report.uploaded, server.locate)
      && AreIn(server.StoredIn(version), report.uploaded, server.locate)
      && (forall i: nat | i < |scanned| && !IsShadowed(scanned, i, server.locate) ::
            IsIn(server.StoredIn(version), scanned[i], server.locate))
      && (HasNoShadows(scanned, server.locate) ==> AreIn(server.StoredIn(version), scanned, server.locate))
    ensures report.ConflictAbort? ==>
      && IsAccepted(scanned, server.locate)
      && report.conflicts == PlanOn(old(server.StoredIn(version)), scanned, server.locate).conflicts != []
      && server.StoredIn(version) == old(server.StoredIn(version))
    ensures report.RequestFailed? && IsAccepted(scanned, server.locate) ==>
      var plan := PlanOn(old(server.StoredIn(version)), scanned, server.locate);
      exists n | 0 <= n <= |plan.toUpload| ::
        server.StoredIn(version) == Added(old(server.StoredIn(version)), plan.toUpload[..n], server.locate)
    ensures !IsAccepted(scanned, server.locate) ==>
      (report.NoMaps? || report.RequestFailed?) && server.StoredIn(version) == old(server.StoredIn(version))
  {
    hide Results, WithVerdict, VerdictFor, IsShadowed, HasMap;
    ghost var before, locate := server.StoredIn(version), server.locate;
    if IsAccepted(scanned, locate) { NoneAdded(before, PlanOn(before, scanned, locate).toUpload, locate); }
    if !HasMap(scanned) { return NoMaps; }
    var confirmed, created := CreateOrConfirmRelease(server, version);
    if !confirmed { return RequestFailed; }
    var answered, results := server.CheckArtifacts(version, scanned);
    if !answered { return RequestFailed; }
    var plan := PlanUploads(scanned, results);
    if |plan.conflicts| > 0 { return ConflictAbort(created, plan.conflicts, plan.alreadyPresent); }
    var uploaded: seq<Artifact> := [];
    PlannedAreScanned(before, scanned, locate);
    var i := 0;
    while i < |plan.toUpload|
      invariant i <= |plan.toUpload| && uploaded == plan.toUpload[..i]
      invariant server.StoredIn(version) == Added(before, plan.toUpload[..i], locate)
      invariant AreIn(server.StoredIn(version), plan.toUpload[..i], locate)
      invariant server.stored - {version} == old(server.stored) - {version}
      invariant server.releases == old(server.releases) + {version} && server.failures == old(server.failures)
    {
      AddedAppend(before, plan.toUpload[..i], plan.toUpload[i], locate);
      assert plan.toUpload[..i + 1] == plan.toUpload[..i] + [plan.toUpload[i]];
      ghost var stored := server.StoredIn(version);
      var accepted := server.UploadArtifact(version, plan.toUpload[i]);
      if !accepted {
        if server.failures == old(server.failures) {
          assert plan.toUpload[i] in plan.toUpload && plan.toUpload[i] in scanned;
          TakenBefore(before, scanned, plan.toUpload[..i], locate, plan.toUpload[i]);
        }
        return RequestFailed;
      }
      PutKeeps(stored, plan.toUpload[..i], plan.toUpload[i], locate);
      uploaded := uploaded + [plan.toUpload[i]];
      i := i + 1;
    }
    assert plan.toUpload[..i] == plan.toUpload;
    AfterSuccess(before, scanned, locate);
    ListsTogether(scanned, results);
    forall a | a in plan.toUpload ensures !IsTaken(before, a, locate) { NotTaken(before, plan.toUpload, locate, a); }
    return Success(created, uploaded, plan.alreadyPresent);
  }

  /** What is in store after its upload was not taken before. */
  lemma NotTaken(stored: Stored, uploads: seq<Artifact>, locate: Locate, a: Artifact)
    requires AreIn(Added(stored, uploads, locate), uploads, locate) && a in uploads
    ensures !IsTaken(stored, a, locate)
  {
    AddedContains(stored, uploads, locate, locate(a.path).value);
  }

  lemma NoneAdded(stored: Stored, uploads: seq<Artifact>, locate: Locate)
    ensures Added(stored, uploads[..0], locate) == stored
  {}

  lemma PutKeeps(stored: Stored, artifacts: seq<Artifact>, a: Artifact, locate: Locate)
    requires AreIn(stored, artifacts, locate) && IsIn(Put(stored, a, locate), a, locate)
    ensures AreIn(Put(stored, a, locate), artifacts + [a], locate)
  {}

  lemma AfterSuccess(stored: Stored, scanned: seq<Artifact>, locate: Locate)
    requires IsAccepted(scanned, locate)
    requires var plan := PlanOn(stored, scanned, locate);
      plan.conflicts == [] && AreIn(Added(stored, plan.toUpload, locate), plan.toUpload, locate)
    ensures !HasRepeats(scanned)
    ensures var later := Added(stored, PlanOn(stored, scanned, locate).toUpload, locate);
      && (forall i: nat | i < |scanned| && !IsShadowed(scanned, i, locate) :: IsIn(later, scanned[i], locate))
      && (HasNoShadows(scanned, locate) ==> AreIn(later, scanned, locate))
  {
    if HasRepeats(scanned) { RepeatsAreRefused(scanned, locate); }
    var later := Added(stored, PlanOn(stored, scanned, locate).toUpload, locate);
    forall i: nat | i < |scanned| && !IsShadowed(scanned, i, locate) ensures IsIn(later, scanned[i], locate) {
      StoredAfterPlan(stored, scanned, locate, i);
    }
    if HasNoShadows(scanned, locate) {
      forall a | a in scanned ensures IsIn(later, a, locate) {
        var i: nat :| i < |scanned| && scanned[i] == a;
        assert !IsShadowed(scanned, i, locate);
      }
    }
  }

  /**
   * Running again with unchanged files meets no conflict, and fails only with a request. If nothing is
   * shadowed it uploads exactly the artifacts whose paths the server does not leave alone, and so nothing
   * if and only if all paths are settled; and it changes nothing.
   */
  method RunTwice(server: Server, version: Text, scanned: seq<Artifact>) returns (first: Report, second: Report)
    modifies server
    ensures first.Success? && server.failures == old(server.failures) ==> second.Success?
    ensures first.Success? ==> !second.ConflictAbort?
    ensures first.Success? && second.Success? && HasNoShadows(scanned, server.locate) ==>
      && second.uploaded == Unsettled(scanned, server.locate)
      && (second.uploaded == [] <==> AreSettled(scanned, server.locate))
      && server.StoredIn(version) == Added(old(server.StoredIn(version)), first.uploaded, server.locate)
  {
    hide Results, WithVerdict, VerdictFor, IsShadowed, HasMap, Added;
    first := RunSourcemapsUpload(server, version, scanned);
    ghost var between, locate := server.StoredIn(version), server.locate;
    if first.Success? {
      NoConflictAgain(old(server.StoredIn(version)), scanned, locate);
      NothingTakenAgain(old(server.StoredIn(version)), scanned, locate);
    }
    second := RunSourcemapsUpload(server, version, scanned);
    if first.Success? && second.Success? && HasNoShadows(scanned, locate) {
      SecondPlan(between, scanned, locate);
    }
  }

  lemma SecondPlan(stored: Stored, scanned: seq<Artifact>, locate: Locate)
    requires IsAccepted(scanned, locate) && HasNoShadows(scanned, locate) && AreIn(stored, scanned, locate)
    ensures PlanOn(stored, scanned, locate).toUpload == Unsettled(scanned, locate)
    ensures Unsettled(scanned, locate) == [] <==> AreSettled(scanned, locate)
    ensures Added(stored, Unsettled(scanned, locate), locate) == stored
  {
    OnlyUnsettledAgain(stored, scanned, locate, |scanned|);
    assert scanned[..|scanned|] == scanned;
    var unsettled := Unsettled(scanned, locate);
    forall a ensures a in unsettled <==> a in scanned && !IsSettled(a, locate) {
      UnsettledContains(scanned, locate, a);
    }
    if unsettled != [] { assert unsettled[0] in unsettled; }
    AddedAgain(stored, unsettled, locate);
  }
}
