/** What a scan returns (packages/cli/src/scanner.ts): all maps, the assets tied to one, in path order. */
module ScanResult {
  import opened Wrappers
  import opened JsText
  import opened Scanner
  import Sorting
  import MapReferences
  import UploadPlan
  import UploadServer

  /**
   * What the files say: their bytes, and the `file` property of a map and the last `sourceMappingURL`
   * of an asset, if they can be read.
   */
  datatype Contents = Contents(
    bytes: Location -> seq<Byte>, fileHint: Candidate -> Option<Text>, mappingUrl: Candidate -> Option<Text>)

  datatype Artifact = Artifact(path: Text, isMap: bool, location: Location, sizeBytes: nat, contentHash: Text)

  /** A candidate with the size and the digest of the file at its own path. */
  function Described(c: Candidate, contents: Contents, digest: seq<Byte> -> Text): Artifact {
    var bytes := contents.bytes(c.location);
    Artifact(c.canonical, c.isMap, c.location, |bytes|, digest(bytes))
  }

  function DescribedAll(cs: seq<Candidate>, contents: Contents, digest: seq<Byte> -> Text): seq<Artifact> {
    seq(|cs|, i requires 0 <= i < |cs| => Described(cs[i], contents, digest))
  }

  function PathOf(a: Artifact): Text { a.path }

  function Resolved(c: Candidate, reference: Option<Text>, rules: Rules): Option<Text> {
    if reference == None then None else MapReferences.ResolveReference(c.canonical, reference.value, rules.reserved)
  }

  /** Some collected map sits beside the asset, names it, or is named by it. */
  ghost predicate IsTied(c: Candidate, candidates: seq<Candidate>, contents: Contents, rules: Rules) {
    exists m <- candidates ::
      && m.isMap
      && (|| m.canonical == c.canonical + MAP_EXTENSION
          || Resolved(m, contents.fileHint(m), rules) == Some(c.canonical)
          || Resolved(c, contents.mappingUrl(c), rules) == Some(m.canonical))
  }

  function Maps(candidates: seq<Candidate>): seq<Candidate> {
    if candidates == [] then []
    else
      var rest, last := Maps(candidates[..|candidates| - 1]), candidates[|candidates| - 1];
      if last.isMap then rest + [last] else rest
  }

  ghost function Assets(
    candidates: seq<Candidate>, all: seq<Candidate>, contents: Contents, rules: Rules): seq<Candidate> {
    if candidates == [] then []
    else
      var rest, last := Assets(candidates[..|candidates| - 1], all, contents, rules), candidates[|candidates| - 1];
      if !last.isMap && IsTied(last, all, contents, rules) then rest + [last] else rest
  }

  /** All maps and the tied assets. */
  ghost function Chosen(candidates: seq<Candidate>, contents: Contents, rules: Rules): seq<Candidate> {
    Maps(candidates) + Assets(candidates, candidates, contents, rules)
  }

  lemma {:induction false} MapsContain(candidates: seq<Candidate>, c: Candidate)
    ensures c in Maps(candidates) <==> c in candidates && c.isMap
  {
    if candidates != [] {
      MapsContain(candidates[..|candidates| - 1], c);
      assert candidates == candidates[..|candidates| - 1] + [candidates[|candidates| - 1]];
    }
  }

  method DescribeAll(chosen: seq<Candidate>, contents: Contents, digest: seq<Byte> -> Text)
    returns (artifacts: seq<Artifact>)
    ensures artifacts == DescribedAll(chosen, contents, digest)
  {
    artifacts := [];
    for i := 0 to |chosen|
      invariant artifacts == DescribedAll(chosen[..i], contents, digest)
    {
      var bytes := contents.bytes(chosen[i].location);
      artifacts := artifacts + [
        Artifact(chosen[i].canonical, chosen[i].isMap, chosen[i].location, |bytes|, digest(bytes))];
    }
    assert chosen[..|chosen|] == chosen;
  }

  /** The comparator never says "equal", so the order among equal paths is left open. */
  method ScanSourcemaps(candidates: seq<Candidate>, contents: Contents, rules: Rules, digest: seq<Byte> -> Text)
    returns (artifacts: seq<Artifact>)
    ensures Sorting.IsSorted(artifacts, PathOf)
    ensures multiset(artifacts) == multiset(DescribedAll(Chosen(candidates, contents, rules), contents, digest))
  {
    hide Resolved, Described;
    var maps: seq<Candidate> := [];
    var mapPaths: set<Text> := {};
    var hinted: set<Text> := {};
    for i := 0 to |candidates|
      invariant maps == Maps(candidates[..i])
      invariant forall p :: p in mapPaths <==> exists m <- maps :: m.canonical == p
      invariant forall p :: p in hinted <==> exists m <- maps :: Resolved(m, contents.fileHint(m), rules) == Some(p)
    {
      var c := candidates[i];
      assert candidates[..i + 1][..i] == candidates[..i];
      if c.isMap {
        maps := maps + [c];
        mapPaths := mapPaths + {c.canonical};
        var hint := Resolved(c, contents.fileHint(c), rules);
        if hint.Some? { hinted := hinted + {hint.value}; }
      }
    }
    assert candidates[..|candidates|] == candidates;
    forall m ensures m in maps <==> m in candidates && m.isMap { MapsContain(candidates, m); }
    var assets: seq<Candidate> := [];
    for i := 0 to |candidates|
      invariant assets == Assets(candidates[..i], candidates, contents, rules)
    {
      var c := candidates[i];
      assert candidates[..i + 1][..i] == candidates[..i];
      if c.isMap { continue; }
      if c.canonical + MAP_EXTENSION in mapPaths {
        assets := assets + [c];
        continue;
      }
      if c.canonical in hinted {
        assets := assets + [c];
        continue;
      }
      var referenced := Resolved(c, contents.mappingUrl(c), rules);
      if referenced.Some? && referenced.value in mapPaths { assets := assets + [c]; }
    }
    assert candidates[..|candidates|] == candidates;
    var chosen := maps + assets;
    artifacts := DescribeAll(chosen, contents, digest);
    Sorting.Sorted(artifacts, PathOf);
    artifacts := Sorting.Sort(artifacts, PathOf);
  }

  // ---------- the output ----------

  lemma {:induction false} AssetsContain(
    candidates: seq<Candidate>, all: seq<Candidate>, contents: Contents, rules: Rules, c: Candidate)
    ensures c in Assets(candidates, all, contents, rules) <==>
      c in candidates && !c.isMap && IsTied(c, all, contents, rules)
  {
    if candidates != [] {
      hide IsTied;
      AssetsContain(candidates[..|candidates| - 1], all, contents, rules, c);
      assert candidates == candidates[..|candidates| - 1] + [candidates[|candidates| - 1]];
    }
  }

  /** The artifacts are every map and exactly the assets tied to one of them, each as often as it was found. */
  lemma OutputIs(
    candidates: seq<Candidate>, contents: Contents, rules: Rules, digest: seq<Byte> -> Text, artifacts: seq<Artifact>,
    a: Artifact)
    requires multiset(artifacts) == multiset(DescribedAll(Chosen(candidates, contents, rules), contents, digest))
    ensures a in artifacts <==>
      exists c <- candidates ::
        (c.isMap || IsTied(c, candidates, contents, rules)) && a == Described(c, contents, digest)
    ensures |artifacts| == |Maps(candidates)| + |Assets(candidates, candidates, contents, rules)|
  {
    hide IsTied, Maps, Assets, Described;
    var chosen := Chosen(candidates, contents, rules);
    var all := DescribedAll(chosen, contents, digest);
    assert |multiset(artifacts)| == |artifacts| && |multiset(all)| == |all|;
    assert a in artifacts <==> a in multiset(artifacts);
    assert a in all <==> a in multiset(all);
    forall c ensures c in chosen <==> c in candidates && (c.isMap || IsTied(c, candidates, contents, rules)) {
      MapsContain(candidates, c);
      AssetsContain(candidates, candidates, contents, rules, c);
    }
    if c :| c in chosen && a == Described(c, contents, digest) {
      var i :| 0 <= i < |chosen| && chosen[i] == c;
      assert all[i] == a;
    }
    if a in all {
      var i :| 0 <= i < |all| && all[i] == a;
      assert chosen[i] in chosen;
    }
  }

  /** What the upload sends of an artifact. */
  function Sent(a: Artifact): UploadPlan.Artifact {
    UploadPlan.Artifact(a.path, if a.isMap then UploadPlan.SourceMap else UploadPlan.MinifiedAsset, a.contentHash)
  }

  function SentAll(artifacts: seq<Artifact>): seq<UploadPlan.Artifact> {
    seq(|artifacts|, i requires 0 <= i < |artifacts| => Sent(artifacts[i]))
  }

  /** There is something to upload exactly if a map was found. */
  lemma SendsMapIff(
    candidates: seq<Candidate>, contents: Contents, rules: Rules, digest: seq<Byte> -> Text, artifacts: seq<Artifact>)
    requires multiset(artifacts) == multiset(DescribedAll(Chosen(candidates, contents, rules), contents, digest))
    ensures UploadPlan.HasMap(SentAll(artifacts)) <==> exists c <- candidates :: c.isMap
  {
    hide Chosen, IsTied;
    if c :| c in candidates && c.isMap {
      OutputIs(candidates, contents, rules, digest, artifacts, Described(c, contents, digest));
      var i :| 0 <= i < |artifacts| && artifacts[i] == Described(c, contents, digest);
      assert SentAll(artifacts)[i] in SentAll(artifacts);
    }
    if a :| a in SentAll(artifacts) && a.kind == UploadPlan.SourceMap {
      var i :| 0 <= i < |artifacts| && SentAll(artifacts)[i] == a;
      OutputIs(candidates, contents, rules, digest, artifacts, artifacts[i]);
    }
  }

  /** An asset is sent, as an asset, if the map that bears its name with `.map` after it was found. */
  lemma AssetBesideMapIsSent(
    candidates: seq<Candidate>, contents: Contents, rules: Rules, digest: seq<Byte> -> Text, artifacts: seq<Artifact>,
    c: Candidate, m: Candidate)
    requires multiset(artifacts) == multiset(DescribedAll(Chosen(candidates, contents, rules), contents, digest))
    requires c in candidates && m in candidates && !c.isMap && m.isMap && m.canonical == c.canonical + Lit(".map")
    ensures UploadPlan.Artifact(c.canonical, UploadPlan.MinifiedAsset, digest(contents.bytes(c.location)))
      in SentAll(artifacts)
    ensures UploadPlan.Artifact(m.canonical, UploadPlan.SourceMap, digest(contents.bytes(m.location)))
      in SentAll(artifacts)
  {
    hide Chosen;
    var a, b := Described(c, contents, digest), Described(m, contents, digest);
    OutputIs(candidates, contents, rules, digest, artifacts, a);
    OutputIs(candidates, contents, rules, digest, artifacts, b);
    var i :| 0 <= i < |artifacts| && artifacts[i] == a;
    var j :| 0 <= j < |artifacts| && artifacts[j] == b;
    assert SentAll(artifacts)[i] in SentAll(artifacts) && SentAll(artifacts)[j] in SentAll(artifacts);
  }

  /** Two files with one canonical path, both of them maps, give a manifest with a path twice. */
  lemma TwoNamesRepeatAPath(
    candidates: seq<Candidate>, contents: Contents, rules: Rules, digest: seq<Byte> -> Text, artifacts: seq<Artifact>,
    c: Candidate, d: Candidate)
    requires multiset(artifacts) == multiset(DescribedAll(Chosen(candidates, contents, rules), contents, digest))
    requires c in candidates && d in candidates && c.isMap && d.isMap
    requires c.canonical == d.canonical && c.location != d.location
    ensures UploadServer.HasRepeats(SentAll(artifacts))
  {
    var a, b := Described(c, contents, digest), Described(d, contents, digest);
    OutputIs(candidates, contents, rules, digest, artifacts, a);
    OutputIs(candidates, contents, rules, digest, artifacts, b);
    var i :| 0 <= i < |artifacts| && artifacts[i] == a;
    var j :| 0 <= j < |artifacts| && artifacts[j] == b;
    var sent, first, second := SentAll(artifacts), if i < j then i else j, if i < j then j else i;
    assert sent[first].path == sent[second].path;
  }
}
