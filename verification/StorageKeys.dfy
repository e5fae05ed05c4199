/** Storage keys (packages/artifacts/src/storage-keys.ts). */
module StorageKeys {
  import opened Wrappers
  import opened JsText
  import opened Paths

  const KEY_MAX_LENGTH := 1024
  const KEY_MAX_SEGMENTS := 8
  const SEGMENT_MAX_LENGTH := 128

  datatype KeyError =
    | BadLength
    | TooManySegments
    | InvalidSegment
    | ProjectIdNotUuid
    | ReleaseIdNotUuid
    | HashNotHex
    | NotThreeSegments
    | IdsNotUuids
    | EscapesRoot

  predicate IsAlphanumeric(c: Unit) { IsDigit(c) || IsLower(c) || IsUpper(c) }

  predicate IsKeySegment(s: Text) {
    && 1 <= |s| <= SEGMENT_MAX_LENGTH
    && IsAlphanumeric(s[0])
    && forall c <- s :: IsAlphanumeric(c) || c == UNDERSCORE || c == HYPHEN
  }

  predicate IsUuid(s: Text) {
    && |s| == 36
    && forall i | 0 <= i < 36 :: if i in {8, 13, 18, 23} then s[i] == HYPHEN else IsHex(s[i])
  }

  predicate IsContentHash(s: Text) {
    && |s| == 64
    && forall c <- s :: IsHex(c) && !IsUpper(c)
  }

  function Validate(input: Text): Result<Text, KeyError> {
    if |input| < 1 || |input| > KEY_MAX_LENGTH then Err(BadLength)
    else
      var segments := Split(input, SLASH);
      if |segments| > KEY_MAX_SEGMENTS then Err(TooManySegments)
      else if forall s <- segments :: IsKeySegment(s) then Ok(input)
      else Err(InvalidSegment)
  }

  predicate IsKey(input: Text) { Validate(input).Ok? }

  datatype Parts = Parts(projectId: Text, releaseId: Text, contentHash: Text)

  predicate ArePartsValid(p: Parts) {
    IsUuid(p.projectId) && IsUuid(p.releaseId) && IsContentHash(p.contentHash)
  }

  function Build(p: Parts): Result<Text, KeyError> {
    if !IsUuid(p.projectId) then Err(ProjectIdNotUuid)
    else if !IsUuid(p.releaseId) then Err(ReleaseIdNotUuid)
    else if !IsContentHash(p.contentHash) then Err(HashNotHex)
    else Ok(p.projectId + [SLASH] + p.releaseId + [SLASH] + p.contentHash)
  }

  function Parse(input: Text): Result<Parts, KeyError> {
    match Validate(input)
    case Err(e) => Err(e)
    case Ok(key) =>
      var segments := Split(key, SLASH);
      if |segments| != 3 then Err(NotThreeSegments)
      else if !IsUuid(segments[0]) || !IsUuid(segments[1]) then Err(IdsNotUuids)
      else if !IsContentHash(segments[2]) then Err(HashNotHex)
      else Ok(Parts(segments[0], segments[1], segments[2]))
  }

  /** The resolved location, as segments, after the containment test. */
  function ResolveStoragePath(cwd: Text, root: Text, key: Text): Result<seq<Text>, KeyError> {
    match Validate(key)
    case Err(e) => Err(e)
    case Ok(valid) =>
      var resolved := Resolve(cwd, [root] + Split(valid, SLASH));
      var relative := Relative(Resolve(cwd, [root]), resolved);
      if relative == [] || Escapes(relative) then Err(EscapesRoot) else Ok(resolved)
  }

  // ---------- lemmas ----------

  predicate IsLetterOrDigit(c: Unit) { 0x30 <= c <= 0x39 || 0x41 <= c <= 0x5A || 0x61 <= c <= 0x7A }

  /** Exactly which texts are keys. */
  lemma IsKeyIff(input: Text)
    ensures IsKey(input) <==>
      && 1 <= |input| <= 1024 && |Split(input, SLASH)| <= 8
      && forall s <- Split(input, SLASH) ::
        && 1 <= |s| <= 128 && IsLetterOrDigit(s[0])
        && forall c <- s :: IsLetterOrDigit(c) || c == 0x5F || c == 0x2D
  {
    hide Split;
  }

  predicate AreHexDigits(s: Text, n: nat) {
    |s| == n && forall c <- s :: 0x30 <= c <= 0x39 || 0x41 <= c <= 0x46 || 0x61 <= c <= 0x66
  }

  /** A UUID is five groups of hexadecimal digits, in capitals or not, with hyphens between. */
  lemma IsUuidIff(s: Text)
    ensures IsUuid(s) <==>
      exists a, b, c, d, e ::
        && AreHexDigits(a, 8) && AreHexDigits(b, 4) && AreHexDigits(c, 4) && AreHexDigits(d, 4) && AreHexDigits(e, 12)
        && s == a + [HYPHEN] + b + [HYPHEN] + c + [HYPHEN] + d + [HYPHEN] + e
  {
    if IsUuid(s) {
      var a, b, c, d, e := s[..8], s[9..13], s[14..18], s[19..23], s[24..];
      assert s == a + [HYPHEN] + b + [HYPHEN] + c + [HYPHEN] + d + [HYPHEN] + e;
      assert AreHexDigits(a, 8) && AreHexDigits(b, 4) && AreHexDigits(c, 4);
      assert AreHexDigits(d, 4) && AreHexDigits(e, 12);
    }
    if a, b, c, d, e :|
      && AreHexDigits(a, 8) && AreHexDigits(b, 4) && AreHexDigits(c, 4) && AreHexDigits(d, 4) && AreHexDigits(e, 12)
      && s == a + [HYPHEN] + b + [HYPHEN] + c + [HYPHEN] + d + [HYPHEN] + e
    {
      GroupsMakeUuid(a, b, c, d, e);
    }
  }

  lemma GroupsMakeUuid(a: Text, b: Text, c: Text, d: Text, e: Text)
    requires AreHexDigits(a, 8) && AreHexDigits(b, 4) && AreHexDigits(c, 4) && AreHexDigits(d, 4) && AreHexDigits(e, 12)
    ensures IsUuid(a + [HYPHEN] + b + [HYPHEN] + c + [HYPHEN] + d + [HYPHEN] + e)
  {
    var s := a + [HYPHEN] + b + [HYPHEN] + c + [HYPHEN] + d + [HYPHEN] + e;
    forall i | 0 <= i < 36 ensures if i in {8, 13, 18, 23} then s[i] == HYPHEN else IsHex(s[i]) {
      assert i < 8 ==> s[i] in a;
      assert 8 < i < 13 ==> s[i] in b;
      assert 13 < i < 18 ==> s[i] in c;
      assert 18 < i < 23 ==> s[i] in d;
      assert 23 < i ==> s[i] in e;
    }
  }

  lemma KeySegmentIsPlain(s: Text)
    requires IsKeySegment(s)
    ensures IsPlain(s) && s[0] != DOT
  {
    assert s[0] in s;
  }

  /** The first segments of a key make a key. */
  lemma KeyPrefixIsKey(key: Text, n: nat)
    requires IsKey(key) && 0 < n <= |Split(key, SLASH)|
    ensures var short := Join(Split(key, SLASH)[..n], SLASH);
      IsKey(short) && Split(short, SLASH) == Split(key, SLASH)[..n]
  {
    hide Split;
    var segments := Split(key, SLASH);
    var front := segments[..n];
    JoinSplit(key, SLASH);
    JoinPrefix(front, segments, SLASH);
    forall s | s in front ensures IsKeySegment(s) && SLASH !in s {
      assert s in segments;
      KeySegmentIsPlain(s);
    }
    SplitJoin(front, SLASH);
    assert front[0] in front;
  }

  lemma UuidHasNoSlash(s: Text)
    requires IsUuid(s)
    ensures SLASH !in s && IsKeySegment(s)
  {
    forall c | c in s ensures IsHex(c) || c == HYPHEN {
      var i :| 0 <= i < |s| && s[i] == c;
    }
    assert IsHex(s[0]);
  }

  lemma BuiltSegments(p: Parts)
    requires ArePartsValid(p)
    ensures Build(p).Ok? && Split(Build(p).value, SLASH) == [p.projectId, p.releaseId, p.contentHash]
    ensures |Build(p).value| == 138
  {
    var key := Build(p).value;
    UuidHasNoSlash(p.projectId);
    UuidHasNoSlash(p.releaseId);
    assert key == p.projectId + [SLASH] + (p.releaseId + [SLASH] + p.contentHash);
    SplitAt(p.projectId, p.releaseId + [SLASH] + p.contentHash, SLASH);
    SplitAt(p.releaseId, p.contentHash, SLASH);
    SplitFree(p.contentHash, SLASH);
  }

  /** Parsing undoes building. */
  lemma ParseBuild(p: Parts)
    ensures Build(p).Ok? <==> ArePartsValid(p)
    ensures Build(p).Ok? ==> IsKey(Build(p).value) && Parse(Build(p).value) == Ok(p)
  {
    if ArePartsValid(p) {
      BuiltSegments(p);
      UuidHasNoSlash(p.projectId);
      UuidHasNoSlash(p.releaseId);
      assert p.contentHash[0] in p.contentHash;
    }
  }

  /** Building undoes parsing. */
  lemma BuildParse(key: Text)
    requires Parse(key).Ok?
    ensures Build(Parse(key).value) == Ok(key)
  {
    var s := Split(key, SLASH);
    JoinSplit(key, SLASH);
    assert s[1..][1..] == [s[2]];
    assert Join(s[1..], SLASH) == s[1] + [SLASH] + s[2];
    assert s[0] + [SLASH] + (s[1] + [SLASH] + s[2]) == s[0] + [SLASH] + s[1] + [SLASH] + s[2];
  }

  /** No canonical key is a proper prefix of another, as text or as a path. */
  lemma CanonicalKeysArePrefixFree(a: Text, b: Text)
    requires Parse(a).Ok? && Parse(b).Ok?
    requires a <= b || Split(a, SLASH) <= Split(b, SLASH)
    ensures a == b
  {
    BuildParse(a);
    BuildParse(b);
    BuiltSegments(Parse(a).value);
    BuiltSegments(Parse(b).value);
    JoinSplit(a, SLASH);
    JoinSplit(b, SLASH);
  }

  /** A valid key is stored at the root followed by exactly its segments: the escape test never fires. */
  lemma ResolvedKey(cwd: Text, root: Text, key: Text)
    requires IsKey(key)
    ensures ResolveStoragePath(cwd, root, key) == Ok(Resolve(cwd, [root]) + Split(key, SLASH))
  {
    var base, segs := Resolve(cwd, [root]), Split(key, SLASH);
    forall s | s in segs ensures IsPlain(s) { KeySegmentIsPlain(s); }
    ResolveAppends(cwd, root, segs);
    EscapesIff(base, base + segs);
  }

  /** Distinct valid keys have distinct locations. */
  lemma ResolveInjective(cwd: Text, root: Text, a: Text, b: Text)
    requires IsKey(a) && IsKey(b)
    requires ResolveStoragePath(cwd, root, a) == ResolveStoragePath(cwd, root, b)
    ensures a == b
  {
    ResolvedKey(cwd, root, a);
    ResolvedKey(cwd, root, b);
    var base := Resolve(cwd, [root]);
    assert (base + Split(a, SLASH))[|base|..] == Split(a, SLASH);
    assert (base + Split(b, SLASH))[|base|..] == Split(b, SLASH);
    JoinSplit(a, SLASH);
    JoinSplit(b, SLASH);
  }
}
