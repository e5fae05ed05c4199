/**
 * The server's side of an upload (apps/api/src/services/artifacts.ts): the manifest it answers, and the
 * paths it answers and stores under. Every path that arrives is canonicalized, though the client has
 * done so before.
 */
module UploadServer {
  import opened Wrappers
  import opened JsText
  import opened UploadPlan
  import ArtifactPaths
  import PercentDecoding

  /** Where the server puts a path, if it takes it at all. */
  type Locate = Text -> Option<Text>

  /** The server's own: canonicalization once more. */
  function Canonical(reserved: Text -> bool): Locate {
    path =>
      match ArtifactPaths.Canonicalize(path, reserved)
      case Ok(c) => Some(c)
      case Err(_) => None
  }

  /** What a release has stored: at most one content hash for a path, never replaced. */
  type Stored = map<Text, Text>

  function VerdictOn(stored: Stored, path: Text, hash: Text): Verdict {
    if path !in stored then Upload else if stored[path] == hash then Exists else Conflict
  }

  predicate HasPlaces(entries: seq<Artifact>, locate: Locate) {
    forall i | 0 <= i < |entries| :: locate(entries[i].path).Some?
  }

  /** No two entries have one place. */
  predicate HasNoDuplicates(entries: seq<Artifact>, locate: Locate)
    requires HasPlaces(entries, locate)
  {
    forall i, j | 0 <= i < j < |entries| :: locate(entries[i].path).value != locate(entries[j].path).value
  }

  /** A manifest the server answers, as far as paths are concerned. */
  predicate IsAccepted(entries: seq<Artifact>, locate: Locate) {
    HasPlaces(entries, locate) && HasNoDuplicates(entries, locate)
  }

  function ResultOn(stored: Stored, entry: Artifact, locate: Locate): PreflightResult
    requires locate(entry.path).Some?
  {
    var place := locate(entry.path).value;
    PreflightResult(place, VerdictOn(stored, place, entry.hash))
  }

  /** One result for each entry, under its place. */
  function Results(stored: Stored, entries: seq<Artifact>, locate: Locate): seq<PreflightResult>
    requires HasPlaces(entries, locate)
  {
    seq(|entries|, i requires 0 <= i < |entries| => ResultOn(stored, entries[i], locate))
  }

  function CheckManifest(stored: Stored, entries: seq<Artifact>, locate: Locate): Option<seq<PreflightResult>> {
    if IsAccepted(entries, locate) then Some(Results(stored, entries, locate)) else None
  }

  /** `checkArtifactPreflight`: all paths are located, then none may have been seen, then each is looked up. */
  method CheckArtifactPreflight(stored: Stored, entries: seq<Artifact>, locate: Locate)
    returns (answer: Option<seq<PreflightResult>>)
    ensures answer == CheckManifest(stored, entries, locate)
  {
    var places: seq<Text> := [];
    for i := 0 to |entries|
      invariant |places| == i && forall k | 0 <= k < i :: locate(entries[k].path) == Some(places[k])
    {
      var place := locate(entries[i].path);
      if place == None { return None; }
      places := places + [place.value];
    }
    assert HasPlaces(entries, locate);
    var seen: set<Text> := {};
    for i := 0 to |entries|
      invariant forall p :: p in seen <==> exists k | 0 <= k < i :: places[k] == p
      invariant forall k, l | 0 <= k < l < i :: places[k] != places[l]
    {
      if places[i] in seen {
        var k :| 0 <= k < i && places[k] == places[i];
        assert locate(entries[k].path).value == locate(entries[i].path).value;
        return None;
      }
      seen := seen + {places[i]};
    }
    assert IsAccepted(entries, locate);
    var results: seq<PreflightResult> := [];
    for i := 0 to |entries|
      invariant results == Results(stored, entries, locate)[..i]
    {
      var verdict :=
        if places[i] !in stored then Upload else if stored[places[i]] == entries[i].hash then Exists else Conflict;
      results := results + [PreflightResult(places[i], verdict)];
    }
    assert results == Results(stored, entries, locate);
    return Some(results);
  }

  // ---------- repeated paths ----------

  ghost predicate HasRepeats(entries: seq<Artifact>) {
    exists i, j | 0 <= i < j < |entries| :: entries[i].path == entries[j].path
  }

  /** However paths are located, a manifest with one path twice is refused. */
  lemma RepeatsAreRefused(entries: seq<Artifact>, locate: Locate)
    requires HasRepeats(entries)
    ensures !IsAccepted(entries, locate)
  {
    var i, j :| 0 <= i < j < |entries| && entries[i].path == entries[j].path;
    if HasPlaces(entries, locate) {
      assert locate(entries[i].path).value == locate(entries[j].path).value;
    }
  }

  // ---------- what a client makes of the results ----------

  /** The place of another entry is the path of this one: the client takes the verdict on that for its own. */
  ghost predicate IsShadowed(entries: seq<Artifact>, i: nat, locate: Locate)
    requires i < |entries|
  {
    exists j | 0 <= j < |entries| && j != i :: locate(entries[j].path) == Some(entries[i].path)
  }

  ghost predicate HasNoShadows(entries: seq<Artifact>, locate: Locate) {
    forall i: nat | i < |entries| :: !IsShadowed(entries, i, locate)
  }

  /** A path that the server leaves alone. */
  predicate IsSettled(a: Artifact, locate: Locate) { locate(a.path) == Some(a.path) }

  ghost predicate AreSettled(entries: seq<Artifact>, locate: Locate) { forall a <- entries :: IsSettled(a, locate) }

  /** The verdict a client finds under a path: that on the one entry whose place it is, or none. */
  lemma FoundVerdict(stored: Stored, entries: seq<Artifact>, locate: Locate, path: Text)
    requires IsAccepted(entries, locate)
    ensures forall j | 0 <= j < |entries| && locate(entries[j].path) == Some(path) ::
      VerdictFor(Results(stored, entries, locate), path) == VerdictOn(stored, path, entries[j].hash)
    ensures (forall j | 0 <= j < |entries| :: locate(entries[j].path) != Some(path)) ==>
      VerdictFor(Results(stored, entries, locate), path) == Upload
  {
    var results := Results(stored, entries, locate);
    LastResultDecides(results, path);
    forall j | 0 <= j < |entries| && locate(entries[j].path) == Some(path)
      ensures VerdictFor(results, path) == VerdictOn(stored, path, entries[j].hash)
    {
      assert results[j].path == path && results[j] in results;
      var i :| 0 <= i < |results| && results[i].path == path && VerdictFor(results, path) == results[i].verdict;
      assert locate(entries[i].path).value == locate(entries[j].path).value;
      assert i == j;
    }
    if forall j | 0 <= j < |entries| :: locate(entries[j].path) != Some(path) {
      forall r | r in results ensures r.path != path {
        var j :| 0 <= j < |results| && results[j] == r;
      }
    }
  }

  /** A client goes by the verdict on its own entry if nothing shadows it and its path is settled; else it uploads. */
  lemma VerdictUnshadowed(stored: Stored, entries: seq<Artifact>, locate: Locate, i: nat)
    requires IsAccepted(entries, locate) && i < |entries| && !IsShadowed(entries, i, locate)
    ensures VerdictFor(Results(stored, entries, locate), entries[i].path) ==
      if IsSettled(entries[i], locate) then VerdictOn(stored, entries[i].path, entries[i].hash) else Upload
  {
    FoundVerdict(stored, entries, locate, entries[i].path);
  }

  /** Settled paths shadow nothing. */
  lemma SettledHaveNoShadows(entries: seq<Artifact>, locate: Locate)
    requires IsAccepted(entries, locate) && AreSettled(entries, locate)
    ensures HasNoShadows(entries, locate)
  {
    forall i: nat | i < |entries| ensures !IsShadowed(entries, i, locate) {
      assert IsSettled(entries[i], locate);
    }
  }

  /** What a client scanned is settled exactly if its decoding came to rest when the client canonicalized it. */
  lemma SettledIff(raw: Text, a: Artifact, reserved: Text -> bool)
    requires ArtifactPaths.Canonicalize(raw, reserved) == Ok(a.path)
    ensures IsSettled(a, Canonical(reserved)) <==> PercentDecoding.Settles(raw)
  {
    hide ArtifactPaths.Canonicalize, PercentDecoding.Settles;
    ArtifactPaths.CanonicalIsFixedIff(raw, reserved);
  }
}
