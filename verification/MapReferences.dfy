/** `resolveMapRelativeReference` of packages/cli/src/scanner.ts. */
module MapReferences {
  import opened Wrappers
  import opened JsText
  import opened Paths
  import Slug
  import ArtifactPaths
  import PercentDecoding

  const QUESTION: Unit := '?' as int
  const HASH: Unit := '#' as int
  const COLON: Unit := ':' as int

  predicate IsSchemeUnit(c: Unit) {
    IsLower(c) || IsUpper(c) || IsDigit(c) || c == '+' as int || c == DOT || c == HYPHEN
  }

  /** A URL scheme and its colon at the start. */
  predicate HasScheme(s: Text) {
    && s != [] && (IsLower(s[0]) || IsUpper(s[0]))
    && exists n | 0 < n < |s| :: s[n] == COLON && forall i | 0 < i < n :: IsSchemeUnit(s[i])
  }

  /** The part of a path before its last slash; empty when there is none. */
  function DirectoryOf(path: Text): Text {
    var parts := Split(path, SLASH);
    Join(parts[..|parts| - 1], SLASH)
  }

  /** `path.posix.normalize` of an absolute path. */
  function NormalizeAbsolute(p: Text): Text
    requires IsAbsolute(p)
  {
    var segs := Normalize([], Split(p, SLASH));
    AbsoluteText(segs) + (if segs != [] && p[|p| - 1] == SLASH then [SLASH] else [])
  }

  function BeforeQuery(reference: Text): Text { Split(Split(Slug.Trim(reference), QUESTION)[0], HASH)[0] }

  function Joined(fromCanonical: Text, path: Text): Text {
    var fromDir := DirectoryOf(fromCanonical);
    NormalizeAbsolute(if fromDir == [] then [SLASH] + path else [SLASH] + fromDir + [SLASH] + path)
  }

  function ResolveReference(fromCanonical: Text, reference: Text, reserved: Text -> bool): Option<Text> {
    var path := BeforeQuery(reference);
    if Slug.Trim(reference) == [] || path == [] || HasScheme(path) || StartsWith(path, [SLASH, SLASH]) then None
    else
      var joined := Joined(fromCanonical, path);
      if joined == [SLASH] || StartsWith(joined, [SLASH] + DOTDOT + [SLASH]) || joined == [SLASH] + DOTDOT then None
      else match ArtifactPaths.Canonicalize(joined[1..], reserved)
        case Err(_) => None
        case Ok(c) => Some(c)
  }

  /** Every reference that resolves is a safe relative path. */
  lemma ResolvedReferenceIsSafe(fromCanonical: Text, reference: Text, reserved: Text -> bool)
    ensures ResolveReference(fromCanonical, reference, reserved).Some? ==>
      ArtifactPaths.IsSafe(ResolveReference(fromCanonical, reference, reserved).value, reserved)
  {
    hide ArtifactPaths.Canonicalize, ArtifactPaths.IsSafe, BeforeQuery, HasScheme;
    var path := BeforeQuery(reference);
    var joined := Joined(fromCanonical, path);
    if ResolveReference(fromCanonical, reference, reserved).Some? {
      ArtifactPaths.AcceptedIsSafe(joined[1..], reserved);
    }
  }

  /** The guard against escaping never fires: normalizing an absolute path leaves no `..` at its start. */
  lemma EscapeGuardNeverFires(p: Text)
    requires IsAbsolute(p)
    ensures !StartsWith(NormalizeAbsolute(p), [SLASH] + DOTDOT + [SLASH])
    ensures NormalizeAbsolute(p) != [SLASH] + DOTDOT
  {
    var segs := Normalize([], Split(p, SLASH));
    var t := NormalizeAbsolute(p);
    if segs != [] {
      var tail := t[1..];
      NormalizedTail(segs, tail);
      EscapeStartsBadly(tail);
      assert t == [SLASH] + tail;
      assert StartsWith(t, [SLASH] + DOTDOT + [SLASH]) ==> DOTDOT + [SLASH] <= tail;
      assert t == [SLASH] + DOTDOT ==> tail == DOTDOT;
    }
  }

  lemma NormalizedTail(segs: seq<Text>, tail: Text)
    requires segs != [] && ArePlain(segs)
    requires tail == Join(segs, SLASH) || tail == Join(segs, SLASH) + [SLASH]
    ensures Split(tail, SLASH)[0] == segs[0] && IsPlain(segs[0])
  {
    forall s | s in segs ensures SLASH !in s { assert IsPlain(s); }
    SplitJoin(segs, SLASH);
    if tail == Join(segs, SLASH) + [SLASH] {
      assert tail == Join(segs, SLASH) + [SLASH] + [];
      SplitConcat(Join(segs, SLASH), [], SLASH);
    }
    assert segs[0] in segs;
  }

  // ---------- what becomes of absolute and escaping references ----------

  /** The segments a reference stands for: those of the directory of the map and its own, normalized from the root. */
  function Target(fromCanonical: Text, path: Text): (segs: seq<Text>)
    ensures ArePlain(segs)
  {
    Normalize([], Split(DirectoryOf(fromCanonical), SLASH) + Split(path, SLASH))
  }

  function Clamped(fromCanonical: Text, path: Text): Text {
    var segs := Target(fromCanonical, path);
    Join(segs, SLASH) + (if segs != [] && path != [] && path[|path| - 1] == SLASH then [SLASH] else [])
  }

  lemma JoinedIs(from: Text, path: Text)
    requires path != []
    ensures Joined(from, path) == [SLASH] + Clamped(from, path)
  {
    hide Join;
    var dir := DirectoryOf(from);
    var p := if dir == [] then [SLASH] + path else [SLASH] + dir + [SLASH] + path;
    assert p[|p| - 1] == path[|path| - 1];
    SplitConcat([], path, SLASH);
    assert Split([], SLASH) == [[]] by { SplitFree([], SLASH); }
    assert [] + [SLASH] + path == [SLASH] + path;
    if dir != [] {
      SplitConcat([] + [SLASH] + dir, path, SLASH);
      SplitConcat([], dir, SLASH);
      assert [] + [SLASH] + dir == [SLASH] + dir;
      AppendAssociative([[]], Split(dir, SLASH), Split(path, SLASH));
      EmptyVanishes(Split(dir, SLASH) + Split(path, SLASH));
    }
  }

  lemma EmptyVanishes(segs: seq<Text>)
    requires forall s <- segs :: SLASH !in s
    ensures Normalize([], [[]] + segs) == Normalize([], segs)
  {
    assert ([[]] + segs)[1..] == segs;
  }

  /** No reference to follow: empty, with a scheme, or with a host. */
  predicate IsEmptyOrRemote(path: Text) { path == [] || HasScheme(path) || StartsWith(path, [SLASH, SLASH]) }

  predicate IsLetter(c: Unit) { 0x41 <= c <= 0x5A || 0x61 <= c <= 0x7A }

  /** A scheme as in section 3.1 of RFC 3986: a letter, then letters, digits, `+`, `.` and `-`, then a colon. */
  lemma HasSchemeIff(s: Text)
    ensures HasScheme(s) <==>
      exists scheme: Text, rest: Text ::
        && s == scheme + Lit(":") + rest && scheme != [] && IsLetter(scheme[0])
        && forall c <- scheme :: IsLetter(c) || 0x30 <= c <= 0x39 || c == 0x2B || c == 0x2E || c == 0x2D
  {
    assert Lit(":") == [COLON];
    if HasScheme(s) {
      var n :| 0 < n < |s| && s[n] == COLON && forall i | 0 < i < n :: IsSchemeUnit(s[i]);
      assert s == s[..n] + Lit(":") + s[n + 1..];
      forall c | c in s[..n] ensures IsSchemeUnit(c) {
        var i :| 0 <= i < n && s[i] == c;
      }
    }
    if scheme: Text, rest: Text :|
      && s == scheme + Lit(":") + rest && scheme != [] && IsLetter(scheme[0])
      && forall c <- scheme :: IsLetter(c) || 0x30 <= c <= 0x39 || c == 0x2B || c == 0x2E || c == 0x2D
    {
      assert s[|scheme|] == COLON;
      forall i | 0 < i < |scheme| ensures IsSchemeUnit(s[i]) { assert s[i] == scheme[i] && scheme[i] in scheme; }
    }
  }

  /** What is followed of a reference: all of it, trimmed, up to the first question mark or number sign. */
  lemma BeforeQueryIs(reference: Text)
    ensures var path, trimmed := BeforeQuery(reference), Slug.Trim(reference);
      && path <= trimmed && '?' as int !in path && '#' as int !in path
      && (path == trimmed || trimmed[|path|] == '?' as int || trimmed[|path|] == '#' as int)
  {
    var trimmed := Slug.Trim(reference);
    FirstPartIs(trimmed, QUESTION);
    FirstPartIs(Split(trimmed, QUESTION)[0], HASH);
  }

  lemma {:induction false} FirstPartIs(s: Text, sep: Unit)
    ensures var first := Split(s, sep)[0]; first <= s && sep !in first && (first == s || s[|first|] == sep)
  {
    if s != [] && s[0] != sep { FirstPartIs(s[1..], sep); }
  }

  lemma NoPathInNothing(reference: Text)
    requires Slug.Trim(reference) == []
    ensures BeforeQuery(reference) == []
  {
    SplitFree([], QUESTION);
    SplitFree([], HASH);
  }

  /**
   * Exactly which references give null: empty and remote ones, and those whose target, taken from the
   * root, is the root itself or not a safe path once decoded. Being absolute or escaping does not matter.
   */
  lemma RefusedIff(from: Text, reference: Text, reserved: Text -> bool)
    ensures var path := BeforeQuery(reference);
      var decoded := PercentDecoding.Rounds(Clamped(from, path), PercentDecoding.MAX_ROUNDS);
      && (ResolveReference(from, reference, reserved) == None <==>
            || IsEmptyOrRemote(path)
            || Clamped(from, path) == [] || ArtifactPaths.HasControl(Clamped(from, path))
            || !ArtifactPaths.IsSafe(PercentDecoding.Slashed(decoded), reserved))
      && (ResolveReference(from, reference, reserved).Some? ==>
            ResolveReference(from, reference, reserved).value == PercentDecoding.Slashed(decoded))
  {
    hide ArtifactPaths.Canonicalize, ArtifactPaths.IsSafe, PercentDecoding.Rounds;
    hide BeforeQuery, HasScheme, Joined, Clamped;
    var path := BeforeQuery(reference);
    if Slug.Trim(reference) == [] { NoPathInNothing(reference); }
    if !IsEmptyOrRemote(path) {
      var c := Clamped(from, path);
      JoinedIs(from, path);
      JoinedNeverEscapes(from, path);
      assert ([SLASH] + c)[1..] == c;
      ArtifactPaths.AcceptedIff(c, reserved);
      if ArtifactPaths.Canonicalize(c, reserved).Ok? { ArtifactPaths.AcceptedIsSafe(c, reserved); }
    }
  }

  lemma JoinedNeverEscapes(from: Text, path: Text)
    ensures !StartsWith(Joined(from, path), [SLASH] + DOTDOT + [SLASH]) && Joined(from, path) != [SLASH] + DOTDOT
  {
    hide NormalizeAbsolute;
    var dir := DirectoryOf(from);
    EscapeGuardNeverFires(if dir == [] then [SLASH] + path else [SLASH] + dir + [SLASH] + path);
  }

  /** Whether some `..` leads out of the root, starting `depth` levels below it. */
  predicate LeadsOut(depth: nat, segs: seq<Text>)
    decreases |segs|
  {
    segs != [] &&
    if segs[0] == [] || segs[0] == [DOT] then LeadsOut(depth, segs[1..])
    else if segs[0] == DOTDOT then depth == 0 || LeadsOut(depth - 1, segs[1..])
    else LeadsOut(depth + 1, segs[1..])
  }

  /** What follows the last `..` that leads out of the root. */
  function AfterLastExit(depth: nat, segs: seq<Text>): (rest: seq<Text>)
    requires LeadsOut(depth, segs)
    ensures forall s <- rest :: s in segs
    ensures !LeadsOut(0, rest)
    decreases |segs|
  {
    if segs[0] == [] || segs[0] == [DOT] then AfterLastExit(depth, segs[1..])
    else if segs[0] == DOTDOT then
      if depth > 0 then AfterLastExit(depth - 1, segs[1..])
      else if LeadsOut(0, segs[1..]) then AfterLastExit(0, segs[1..])
      else segs[1..]
    else AfterLastExit(depth + 1, segs[1..])
  }

  lemma {:induction false} ClampedAtRoot(done: seq<Text>, segs: seq<Text>)
    requires ArePlain(done) && (forall s <- segs :: SLASH !in s) && LeadsOut(|done|, segs)
    ensures Normalize(done, segs) == Normalize([], AfterLastExit(|done|, segs))
    decreases |segs|
  {
    var rest := segs[1..];
    if segs[0] == [] || segs[0] == [DOT] {
      ClampedAtRoot(done, rest);
    } else if segs[0] == DOTDOT {
      if done != [] {
        ClampedAtRoot(done[..|done| - 1], rest);
      } else if LeadsOut(0, rest) {
        ClampedAtRoot([], rest);
      }
    } else {
      ClampedAtRoot(done + [segs[0]], rest);
    }
  }

  /** A reference that climbs past the root of the upload. */
  predicate IsEscaping(from: Text, path: Text) {
    LeadsOut(0, Split(DirectoryOf(from), SLASH) + Split(path, SLASH))
  }

  /**
   * The header of the source promises null for absolute and for escaping references. An absolute one is
   * taken from the directory of its map, as if its slash were not there; an escaping one from the root,
   * as if it began after the last step out. So null comes out only if that other target is refused.
   */
  lemma OutsideReferenceIs(from: Text, path: Text)
    ensures IsEscaping(from, path) ==>
      var segs := Split(DirectoryOf(from), SLASH) + Split(path, SLASH);
      Target(from, path) == Normalize([], AfterLastExit(0, segs))
    ensures IsAbsolute(path) ==> Target(from, path) == Target(from, path[1..])
  {
    var dirs := Split(DirectoryOf(from), SLASH);
    if IsEscaping(from, path) { ClampedAtRoot([], dirs + Split(path, SLASH)); }
    if IsAbsolute(path) {
      var rest := Split(path[1..], SLASH);
      assert Split(path, SLASH) == [[]] + rest;
      AppendAssociative(dirs, [[]], rest);
      NormalizeAppend([], dirs + [[]], rest);
      NormalizeAppend([], dirs, [[]]);
      NormalizeAppend([], dirs, rest);
    }
  }

  /** From a map anywhere, `/x` means the same as `x`. */
  lemma AbsoluteReferenceIsRelative(from: Text, path: Text)
    requires path != []
    ensures Joined(from, [SLASH] + path) == Joined(from, path)
  {
    OutsideReferenceIs(from, [SLASH] + path);
    assert ([SLASH] + path)[1..] == path;
    JoinedIs(from, [SLASH] + path);
    JoinedIs(from, path);
  }

  /** A reference without query, fragment or outer white space stands for itself. */
  lemma BareReference(reference: Text)
    requires reference != [] && QUESTION !in reference && HASH !in reference
    requires !Slug.IsWhitespace(reference[0]) && !Slug.IsWhitespace(reference[|reference| - 1])
    ensures BeforeQuery(reference) == reference
  {
    SplitFree(reference, QUESTION);
    SplitFree(reference, HASH);
  }

  // ---------- files beside the map ----------

  lemma TargetBeside(from: Text, name: Text)
    requires ArePlain(Split(from, SLASH)) && IsPlain(name)
    ensures var segs := Split(from, SLASH);
      Clamped(from, name) == Join(segs[..|segs| - 1] + [name], SLASH)
  {
    hide Split, Normalize;
    var segs := Split(from, SLASH);
    var dirs := segs[..|segs| - 1];
    forall s | s in dirs ensures IsPlain(s) { assert s in segs; }
    SplitFree(name, SLASH);
    if dirs == [] {
      SplitFree([], SLASH);
      EmptyVanishes([name]);
      NormalizePlain([], [name]);
      assert dirs + [name] == [name] == [] + [name];
    } else {
      SplitJoin(dirs, SLASH);
      NormalizePlain([], dirs + [name]);
      assert [] + (dirs + [name]) == dirs + [name];
    }
    assert name[|name| - 1] in name;
  }

  /** A plain file name stands for the file beside the map, whose path is canonicalized once more. */
  lemma SiblingReference(from: Text, reference: Text, reserved: Text -> bool)
    requires ArePlain(Split(from, SLASH)) && IsPlain(BeforeQuery(reference)) && !HasScheme(BeforeQuery(reference))
    ensures var segs, name := Split(from, SLASH), BeforeQuery(reference);
      ResolveReference(from, reference, reserved)
      == match ArtifactPaths.Canonicalize(Join(segs[..|segs| - 1] + [name], SLASH), reserved)
         case Ok(c) => Some(c)
         case Err(_) => None
  {
    hide ArtifactPaths.Canonicalize, BeforeQuery, HasScheme, Joined, Split, Clamped;
    var name := BeforeQuery(reference);
    if Slug.Trim(reference) == [] { NoPathInNothing(reference); }
    assert !StartsWith(name, [SLASH, SLASH]) by { assert name[0] in name; }
    TargetBeside(from, name);
    JoinedIs(from, name);
    JoinedNeverEscapes(from, name);
    var c := Clamped(from, name);
    assert ([SLASH] + c)[1..] == c;
    if c == [] { assert ArtifactPaths.Canonicalize(c, reserved).Err? by { NothingIsRefused(reserved); } }
  }

  lemma NothingIsRefused(reserved: Text -> bool)
    ensures ArtifactPaths.Canonicalize([], reserved).Err?
  {}

  // ---------- references that the header promises to refuse ----------

  /** A plain file name that is safe as it stands and has nothing to decode. */
  ghost predicate IsFileName(name: Text, reserved: Text -> bool) {
    && ArtifactPaths.IsSafe(name, reserved) && IsPlain(name)
    && PERCENT !in name && QUESTION !in name && HASH !in name
    && !Slug.IsWhitespace(name[|name| - 1])
  }

  lemma ResolvesTo(from: Text, reference: Text, path: Text, reserved: Text -> bool)
    requires BeforeQuery(reference) == reference && !IsEmptyOrRemote(reference)
    requires Clamped(from, reference) == path && ArtifactPaths.IsSafe(path, reserved) && PERCENT !in path
    ensures ResolveReference(from, reference, reserved) == Some(path)
  {
    hide ArtifactPaths.Canonicalize, BeforeQuery, HasScheme, Joined, Clamped;
    if Slug.Trim(reference) == [] { NoPathInNothing(reference); }
    ArtifactPaths.SafeTextIsFixed(path, reserved);
    JoinedIs(from, reference);
    JoinedNeverEscapes(from, reference);
    assert ([SLASH] + path)[1..] == path;
  }

  lemma SplitsOfClimb(from: Text, name: Text)
    requires IsPlain(from) && IsPlain(name)
    ensures DirectoryOf(from) == []
    ensures Split([], SLASH) + Split(DOTDOT + [SLASH] + name, SLASH) == [[], DOTDOT, name]
  {
    SplitFree(from, SLASH);
    SplitFree([], SLASH);
    SplitFree(name, SLASH);
    SplitAt(DOTDOT, name, SLASH);
  }

  lemma ExitsOnce(name: Text)
    requires IsPlain(name)
    ensures LeadsOut(0, [[], DOTDOT, name]) && AfterLastExit(0, [[], DOTDOT, name]) == [name]
  {
    var all: seq<Text>, climb: seq<Text> := [[], DOTDOT, name], [DOTDOT, name];
    assert all[1..] == climb && climb[1..] == [name] && [name][1..] == [];
    assert !LeadsOut(1, []);
    assert !LeadsOut(0, [name]);
    assert LeadsOut(0, climb) && AfterLastExit(0, climb) == [name];
  }

  lemma ClimbTarget(from: Text, name: Text)
    requires IsPlain(from) && IsPlain(name)
    ensures IsEscaping(from, DOTDOT + [SLASH] + name) && Target(from, DOTDOT + [SLASH] + name) == [name]
  {
    SplitsOfClimb(from, name);
    ExitsOnce(name);
    NormalizePlain([], [name]);
    assert [] + [name] == [name];
    hide Split, DirectoryOf, LeadsOut, AfterLastExit, Normalize;
    OutsideReferenceIs(from, DOTDOT + [SLASH] + name);
  }

  lemma ClimbClamped(from: Text, name: Text)
    requires IsPlain(from) && IsPlain(name)
    ensures Clamped(from, DOTDOT + [SLASH] + name) == name
  {
    hide Target;
    ClimbTarget(from, name);
    var reference := DOTDOT + [SLASH] + name;
    assert reference[|reference| - 1] == name[|name| - 1] && name[|name| - 1] in name;
  }

  /** `../name` from a map at the root escapes, and gives `name`. */
  lemma EscapingResolves(from: Text, name: Text, reserved: Text -> bool)
    requires IsPlain(from) && IsFileName(name, reserved)
    ensures var reference := DOTDOT + [SLASH] + name;
      IsEscaping(from, reference) && ResolveReference(from, reference, reserved) == Some(name)
  {
    hide ArtifactPaths.IsSafe, ArtifactPaths.Canonicalize, ResolveReference, IsEscaping, Clamped;
    BareReference(DOTDOT + [SLASH] + name);
    hide BeforeQuery;
    ClimbTarget(from, name);
    ClimbClamped(from, name);
    ResolvesTo(from, DOTDOT + [SLASH] + name, name, reserved);
  }

  /** `/name` gives the file `name` beside the map, wherever the map is. */
  lemma AbsoluteResolves(from: Text, name: Text, reserved: Text -> bool)
    requires ArePlain(Split(from, SLASH)) && IsFileName(name, reserved)
    requires var segs := Split(from, SLASH); var path := Join(segs[..|segs| - 1] + [name], SLASH);
      ArtifactPaths.IsSafe(path, reserved) && PERCENT !in path
    ensures var segs := Split(from, SLASH); var path := Join(segs[..|segs| - 1] + [name], SLASH);
      ResolveReference(from, [SLASH] + name, reserved) == Some(path)
  {
    hide ArtifactPaths.IsSafe, ArtifactPaths.Canonicalize, ResolveReference, Target, Split;
    var reference := [SLASH] + name;
    BareReference(reference);
    assert reference[1..] == name;
    OutsideReferenceIs(from, reference);
    TargetBeside(from, name);
    assert name[0] in name;
    ResolvesTo(from, reference, Clamped(from, name), reserved);
  }

  const X_JS: Text := ['x' as int, DOT, 'j' as int, 's' as int]
  const D: Text := ['d' as int]

  lemma ExampleNames(upper: Text -> Text)
    requires ArtifactPaths.UppersAscii(upper)
    ensures var reserved := ArtifactPaths.DeviceName(upper);
      && IsFileName(X_JS, reserved)
      && ArtifactPaths.IsSimpleName(X_JS, reserved) && ArtifactPaths.IsSimpleName(D, reserved)
  {
    var reserved := ArtifactPaths.DeviceName(upper);
    assert X_JS == ['x' as int] + [DOT] + ['j' as int, 's' as int];
    ArtifactPaths.NotADevice(upper, ['x' as int], ['j' as int, 's' as int]);
    assert !reserved(D) by { SplitFree(D, DOT); }
    hide ArtifactPaths.IsSafe, ArtifactPaths.DeviceName;
    assert ArtifactPaths.IsSimpleName(X_JS, reserved) && ArtifactPaths.IsSimpleName(D, reserved);
    ArtifactPaths.SimpleNameIsSafe(X_JS, reserved);
  }

  /**
   * `../x.js` from `a.map` gives `x.js`, though it escapes; `/x.js` gives `x.js` from `a.map` and
   * `d/x.js` from `d/a.map`. The header promises null for all three.
   */
  lemma OutsideReferencesResolve(upper: Text -> Text)
    requires ArtifactPaths.UppersAscii(upper)
    ensures var reserved, from := ArtifactPaths.DeviceName(upper), ArtifactPaths.A_MAP;
      && IsEscaping(from, DOTDOT + [SLASH] + X_JS)
      && ResolveReference(from, DOTDOT + [SLASH] + X_JS, reserved) == Some(X_JS)
      && ResolveReference(from, [SLASH] + X_JS, reserved) == Some(X_JS)
      && ResolveReference(D + [SLASH] + from, [SLASH] + X_JS, reserved) == Some(D + [SLASH] + X_JS)
  {
    hide ArtifactPaths.IsSafe, ArtifactPaths.Canonicalize, ArtifactPaths.DeviceName, ResolveReference, IsEscaping;
    var reserved, from := ArtifactPaths.DeviceName(upper), ArtifactPaths.A_MAP;
    ExampleNames(upper);
    ArtifactPaths.SimplePathIsSafe(D, X_JS, reserved);
    hide ArtifactPaths.IsSimpleName;
    EscapingResolves(from, X_JS, reserved);
    SplitFree(from, SLASH);
    SplitAt(D, from, SLASH);
    assert [from][..0] + [X_JS] == [X_JS] && ([D] + [from])[..1] + [X_JS] == [D, X_JS];
    assert [D, X_JS][1..] == [X_JS];
    hide Split;
    AbsoluteResolves(from, X_JS, reserved);
    AbsoluteResolves(D + [SLASH] + from, X_JS, reserved);
  }

  const PERCENT_JS: Text := [PERCENT, '6' as int, '1' as int, DOT, 'j' as int, 's' as int]
  const A_JS: Text := ['a' as int, DOT, 'j' as int, 's' as int]

  lemma PercentNameDecodes(upper: Text -> Text)
    requires ArtifactPaths.UppersAscii(upper)
    ensures ArtifactPaths.Canonicalize(PERCENT_JS, ArtifactPaths.DeviceName(upper)) == Ok(A_JS)
  {
    var rest: Text := [DOT, 'j' as int, 's' as int];
    ArtifactPaths.DecodesTriplet(PERCENT_JS, rest, A_JS, 0x61);
    assert A_JS == ['a' as int] + [DOT] + ['j' as int, 's' as int];
    ArtifactPaths.NotADevice(upper, ['a' as int], ['j' as int, 's' as int]);
    hide PercentDecoding.Rounds, ArtifactPaths.DeviceName, ArtifactPaths.Canonicalize;
    assert PercentDecoding.Round(A_JS) == A_JS;
    ArtifactPaths.RoundsOfChain(PERCENT_JS, A_JS, A_JS, A_JS);
    ArtifactPaths.AcceptsName(PERCENT_JS, A_JS, ArtifactPaths.DeviceName(upper));
  }

  /** So a name is decoded: `%61.js` beside `a.map` stands for `a.js`. */
  lemma SiblingIsDecoded(upper: Text -> Text)
    requires ArtifactPaths.UppersAscii(upper)
    ensures ResolveReference(ArtifactPaths.A_MAP, PERCENT_JS, ArtifactPaths.DeviceName(upper)) == Some(A_JS)
  {
    hide ArtifactPaths.Canonicalize, ArtifactPaths.DeviceName, ResolveReference;
    var from := ArtifactPaths.A_MAP;
    PercentNameDecodes(upper);
    SplitFree(from, SLASH);
    BareReference(PERCENT_JS);
    hide BeforeQuery, Split;
    SiblingReference(from, PERCENT_JS, ArtifactPaths.DeviceName(upper));
    assert [from][..0] + [PERCENT_JS] == [PERCENT_JS];
  }
}
