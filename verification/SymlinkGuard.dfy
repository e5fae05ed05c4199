/**
 * `assertNoSymlinkEscape` (packages/artifacts/src/artifact-paths.ts) on a static file system with
 * symbolic links. Path lookup is that of POSIX, with a limit on the number of links followed.
 */
module SymlinkGuard {
  import opened Wrappers
  import opened JsText
  import opened Paths
  import opened ArtifactPaths
  import opened PercentDecoding

  /** An absolute location, as its segments. */
  type Location = seq<Text>

  datatype Entry = Directory(searchable: bool) | RegularFile | Link(target: Text)

  type FileSystem = map<Location, Entry>

  /** An ordinary name in a directory, or the root itself. */
  ghost predicate IsPlaced(fs: FileSystem, p: Location) {
    p != [] ==>
      && IsPlain(p[|p| - 1])
      && p[..|p| - 1] in fs && fs[p[..|p| - 1]].Directory?
  }

  ghost predicate IsTree(fs: FileSystem) {
    && [] in fs && fs[[]].Directory?
    && forall p {:trigger IsPlaced(fs, p)} | p in fs :: IsPlaced(fs, p)
  }

  type FileTree = fs: FileSystem | IsTree(fs) witness map[[] := Directory(true)]

  function Parent(at: Location): Location { if at == [] then [] else at[..|at| - 1] }

  datatype Lookup = Found(at: Location) | Missing | NotDirectory | Denied | TooManyLinks

  /** Path lookup from `at`; the last component is followed, when it is a link, only if `follow`. */
  function Walk(fs: FileSystem, at: Location, rest: seq<Text>, follow: bool, links: nat): (r: Lookup)
    requires IsTree(fs) && at in fs
    ensures r.Found? ==> r.at in fs
    decreases links, |rest|
  {
    if rest == [] then Found(at)
    else if !fs[at].Directory? then NotDirectory
    else if !fs[at].searchable then Denied
    else
      var name, more := rest[0], rest[1..];
      if name == [] || name == [DOT] then Walk(fs, at, more, follow, links)
      else if name == DOTDOT then
        assert IsPlaced(fs, at);
        Walk(fs, Parent(at), more, follow, links)
      else if at + [name] !in fs then Missing
      else match fs[at + [name]]
        case Link(target) =>
          if !follow && more == [] then Found(at + [name])
          else if target == [] then Missing
          else if links == 0 then TooManyLinks
          else Walk(fs, if IsAbsolute(target) then [] else at, Split(target, SLASH) + more, follow, links - 1)
        case _ => Walk(fs, at + [name], more, follow, links)
  }

  function LStat(fs: FileSystem, p: Location, limit: nat): Lookup
    requires IsTree(fs)
  {
    Walk(fs, [], p, false, limit)
  }

  function RealPath(fs: FileSystem, p: Location, limit: nat): Lookup
    requires IsTree(fs)
  {
    Walk(fs, [], p, true, limit)
  }

  datatype Verdict = Accepted | Rejected(error: PathError) | Unprovable | LinkEscape

  /** The levels still to be checked below `lexical`. */
  function CheckLevels(fs: FileSystem, limit: nat, realRoot: Location, lexical: Location, segments: seq<Text>): Verdict
    requires IsTree(fs)
    decreases |segments|
  {
    if segments == [] then Accepted
    else
      var level := lexical + [segments[0]];
      match LStat(fs, level, limit)
      case Missing => Accepted
      case Found(_) =>
        (match RealPath(fs, level, limit)
         case Found(place) =>
           if Escapes(Relative(realRoot, place)) then LinkEscape
           else CheckLevels(fs, limit, realRoot, level, segments[1..])
         case _ => Unprovable)
      case _ => Unprovable
  }

  function Guard(fs: FileSystem, limit: nat, cwd: Text, root: Text, path: Text, reserved: Text -> bool): Verdict
    requires IsTree(fs)
  {
    match ResolveUploadPath(cwd, root, path, reserved)
    case Err(e) => Rejected(e)
    case Ok(_) =>
      var base := Resolve(cwd, [root]);
      match RealPath(fs, base, limit)
      case Found(realRoot) =>
        CheckLevels(fs, limit, realRoot, base, Split(Canonicalize(path, reserved).value, SLASH))
      case _ => Accepted
  }

  function NonEmpty(segments: seq<Text>): seq<Text> {
    if segments == [] then []
    else (if segments[0] == [] then [] else [segments[0]]) + NonEmpty(segments[1..])
  }

  lemma {:induction false} NonEmptyPlain(segments: seq<Text>)
    requires ArePlain(segments)
    ensures NonEmpty(segments) == segments
  {
    if segments != [] {
      assert IsPlain(segments[0]);
      NonEmptyPlain(segments[1..]);
    }
  }

  method AssertNoSymlinkEscape(fs: FileSystem, limit: nat, cwd: Text, root: Text, path: Text, reserved: Text -> bool)
    returns (verdict: Verdict)
    requires IsTree(fs)
    ensures verdict == Guard(fs, limit, cwd, root, path, reserved)
  {
    hide Canonicalize, Walk, Resolve, Relative, Escapes, Split, NonEmpty;
    var target := ResolveUploadPath(cwd, root, path, reserved);
    if target.Err? { return Rejected(target.error); }
    var resolvedRoot := Resolve(cwd, [root]);
    var realRoot := RealPath(fs, resolvedRoot, limit);
    if !realRoot.Found? { return Accepted; }
    var segments := NonEmpty(Split(Relative(resolvedRoot, target.value), SLASH));
    ghost var expected := Split(Canonicalize(path, reserved).value, SLASH);
    TargetSegments(cwd, root, path, reserved);
    var lexical := resolvedRoot;
    var i := 0;
    while i < |segments|
      invariant i <= |segments|
      invariant CheckLevels(fs, limit, realRoot.at, lexical, segments[i..])
        == CheckLevels(fs, limit, realRoot.at, resolvedRoot, segments)
    {
      assert segments[i..][0] == segments[i] && segments[i..][1..] == segments[i + 1..];
      lexical := lexical + [segments[i]];
      var status := LStat(fs, lexical, limit);
      if !status.Found? {
        return if status.Missing? then Accepted else Unprovable;
      }
      var realLevel := RealPath(fs, lexical, limit);
      if !realLevel.Found? { return Unprovable; }
      if Escapes(Relative(realRoot.at, realLevel.at)) { return LinkEscape; }
      i := i + 1;
    }
    return Accepted;
  }

  /** Splitting the relative path gives back the canonical segments. */
  lemma TargetSegments(cwd: Text, root: Text, path: Text, reserved: Text -> bool)
    requires ResolveUploadPath(cwd, root, path, reserved).Ok?
    ensures Canonicalize(path, reserved).Ok?
    ensures ArePlain(Split(Canonicalize(path, reserved).value, SLASH))
    ensures
      NonEmpty(Split(Relative(Resolve(cwd, [root]), ResolveUploadPath(cwd, root, path, reserved).value), SLASH))
      == Split(Canonicalize(path, reserved).value, SLASH)
  {
    var base, segments := Resolve(cwd, [root]), Split(Canonicalize(path, reserved).value, SLASH);
    AcceptedIsSafe(path, reserved);
    ResolvedUpload(cwd, root, path, reserved);
    CommonBelow(base, segments);
    JoinSplit(Canonicalize(path, reserved).value, SLASH);
    NonEmptyPlain(segments);
  }

  // ---------- soundness ----------

  /** What is missing stays missing further down, links or not. */
  lemma {:induction false} MissingBelow(
    fs: FileSystem, at: Location, rest: seq<Text>, more: seq<Text>, follow: bool, links: nat)
    requires IsTree(fs) && at in fs
    requires Walk(fs, at, rest, false, links) == Missing
    ensures Walk(fs, at, rest + more, follow, links) == Missing
    decreases links, |rest|
  {
    var name, tail := rest[0], rest[1..];
    HeadOfAppend(rest, more);
    if name == [] || name == [DOT] {
      MissingBelow(fs, at, tail, more, follow, links);
    } else if name == DOTDOT {
      assert IsPlaced(fs, at);
      MissingBelow(fs, Parent(at), tail, more, follow, links);
    } else if at + [name] in fs {
      match fs[at + [name]]
      case Link(target) =>
        if target != [] {
          AppendAssociative(Split(target, SLASH), tail, more);
          MissingBelow(fs, if IsAbsolute(target) then [] else at, Split(target, SLASH) + tail, more, follow, links - 1);
        }
      case _ => MissingBelow(fs, at + [name], tail, more, follow, links);
    }
  }

  lemma {:induction false} LocationsArePlain(fs: FileSystem, p: Location)
    requires IsTree(fs) && p in fs
    ensures ArePlain(p)
    decreases |p|
  {
    if p != [] {
      assert IsPlaced(fs, p);
      LocationsArePlain(fs, p[..|p| - 1]);
      assert p == p[..|p| - 1] + [p[|p| - 1]];
    }
  }

  /** A level that exists resolves, and it resolves to a place inside the real root. */
  ghost predicate IsContained(fs: FileSystem, limit: nat, realRoot: Location, level: Location)
    requires IsTree(fs)
  {
    && (LStat(fs, level, limit).Found? ==> RealPath(fs, level, limit).Found?)
    && (RealPath(fs, level, limit).Found? ==> realRoot <= RealPath(fs, level, limit).at)
  }

  lemma {:induction false} LevelsContained(
    fs: FileSystem, limit: nat, realRoot: Location, lexical: Location, segments: seq<Text>, n: nat)
    requires IsTree(fs) && realRoot in fs
    requires CheckLevels(fs, limit, realRoot, lexical, segments) == Accepted
    requires 0 < n <= |segments|
    ensures IsContained(fs, limit, realRoot, lexical + segments[..n])
    decreases |segments|
  {
    hide Walk;
    var level := lexical + [segments[0]];
    assert lexical + segments[..n] == level + segments[1..n];
    if LStat(fs, level, limit) == Missing {
      MissingBelow(fs, [], level, segments[1..n], false, limit);
      MissingBelow(fs, [], level, segments[1..n], true, limit);
    } else {
      var place := RealPath(fs, level, limit).at;
      LocationsArePlain(fs, place);
      LocationsArePlain(fs, realRoot);
      EscapesIff(realRoot, place);
      if n == 1 {
        assert segments[..1] == [segments[0]];
      } else {
        LevelsContained(fs, limit, realRoot, level, segments[1..], n - 1);
        assert segments[1..][..n - 1] == segments[1..n];
      }
    }
  }

  /** Where a lookup fails, it fails in the same way for everything below. */
  lemma {:induction false} FailsBelow(
    fs: FileSystem, at: Location, rest: seq<Text>, more: seq<Text>, follow: bool, links: nat)
    requires IsTree(fs) && at in fs && (follow || more != [])
    requires !Walk(fs, at, rest, true, links).Found?
    ensures Walk(fs, at, rest + more, follow, links) == Walk(fs, at, rest, true, links)
    decreases links, |rest|
  {
    if fs[at].Directory? && fs[at].searchable {
      var name, tail := rest[0], rest[1..];
      HeadOfAppend(rest, more);
      if name == [] || name == [DOT] {
        FailsBelow(fs, at, tail, more, follow, links);
      } else if name == DOTDOT {
        assert IsPlaced(fs, at);
        FailsBelow(fs, Parent(at), tail, more, follow, links);
      } else if at + [name] in fs {
        match fs[at + [name]]
        case Link(target) =>
          if target != [] && links > 0 {
            AppendAssociative(Split(target, SLASH), tail, more);
            FailsBelow(
              fs, if IsAbsolute(target) then [] else at, Split(target, SLASH) + tail, more, follow, links - 1);
          }
        case _ => FailsBelow(fs, at + [name], tail, more, follow, links);
      }
    }
  }

  /** A level below a root that has no real path fails like the root. */
  ghost predicate FailsLikeRoot(fs: FileSystem, limit: nat, root: Location, level: Location)
    requires IsTree(fs)
  {
    LStat(fs, level, limit) == RealPath(fs, root, limit) && RealPath(fs, level, limit) == RealPath(fs, root, limit)
  }

  /**
   * If the guard returns on any file system with links, no level of the path, existing or reached
   * through a link, has its real path outside the real root; if the root has no real path, no level
   * can be looked up.
   */
  lemma GuardIsSound(fs: FileSystem, limit: nat, cwd: Text, root: Text, path: Text, reserved: Text -> bool)
    requires IsTree(fs)
    requires Guard(fs, limit, cwd, root, path, reserved) == Accepted
    ensures Canonicalize(path, reserved).Ok?
    ensures var base := Resolve(cwd, [root]);
      var segments := Split(Canonicalize(path, reserved).value, SLASH);
      forall n | 0 < n <= |segments| ::
        match RealPath(fs, base, limit)
        case Found(realRoot) => IsContained(fs, limit, realRoot, base + segments[..n])
        case _ => FailsLikeRoot(fs, limit, base, base + segments[..n])
  {
    hide Walk, Canonicalize;
    var base := Resolve(cwd, [root]);
    var segments := Split(Canonicalize(path, reserved).value, SLASH);
    forall n | 0 < n <= |segments|
      ensures match RealPath(fs, base, limit)
        case Found(realRoot) => IsContained(fs, limit, realRoot, base + segments[..n])
        case _ => FailsLikeRoot(fs, limit, base, base + segments[..n])
    {
      if RealPath(fs, base, limit).Found? {
        LevelsContained(fs, limit, RealPath(fs, base, limit).at, base, segments, n);
      } else {
        FailsBelow(fs, [], base, segments[..n], false, limit);
        FailsBelow(fs, [], base, segments[..n], true, limit);
      }
    }
  }

  // ---------- exactly what is accepted ----------

  /** A level that exists, and whose real path is the real root or below it. */
  ghost predicate IsInside(fs: FileSystem, limit: nat, realRoot: Location, level: Location)
    requires IsTree(fs)
  {
    && LStat(fs, level, limit).Found?
    && RealPath(fs, level, limit).Found? && realRoot <= RealPath(fs, level, limit).at
  }

  /** The first `m` levels exist inside the root. */
  ghost predicate AreInside(
    fs: FileSystem, limit: nat, realRoot: Location, lexical: Location, segments: seq<Text>, m: nat)
    requires IsTree(fs) && m <= |segments|
  {
    forall n | 0 < n <= m :: IsInside(fs, limit, realRoot, lexical + segments[..n])
  }

  /** The levels exist inside the root down to the last one, or to the first that is missing. */
  ghost predicate EndsInside(fs: FileSystem, limit: nat, realRoot: Location, lexical: Location, segments: seq<Text>)
    requires IsTree(fs)
  {
    exists m: nat | m <= |segments| ::
      && AreInside(fs, limit, realRoot, lexical, segments, m)
      && (m < |segments| ==> LStat(fs, lexical + segments[..m + 1], limit) == Missing)
  }

  /** The first level that is not inside the root exists outside it. */
  ghost predicate LeavesRoot(fs: FileSystem, limit: nat, realRoot: Location, lexical: Location, segments: seq<Text>)
    requires IsTree(fs)
  {
    exists m: nat | m < |segments| ::
      && AreInside(fs, limit, realRoot, lexical, segments, m)
      && var level := lexical + segments[..m + 1];
        && LStat(fs, level, limit).Found? && RealPath(fs, level, limit).Found?
        && !(realRoot <= RealPath(fs, level, limit).at)
  }

  lemma LevelsShift(fs: FileSystem, limit: nat, realRoot: Location, lexical: Location, segments: seq<Text>, m: nat)
    requires IsTree(fs) && m < |segments|
    ensures lexical + segments[..m + 1] == (lexical + [segments[0]]) + segments[1..][..m]
    ensures AreInside(fs, limit, realRoot, lexical, segments, m + 1) <==>
      && IsInside(fs, limit, realRoot, lexical + [segments[0]])
      && AreInside(fs, limit, realRoot, lexical + [segments[0]], segments[1..], m)
  {
    hide IsInside;
    var level := lexical + [segments[0]];
    forall n | 0 < n <= m ensures lexical + segments[..n + 1] == level + segments[1..][..n] {}
    assert segments[..1] == [segments[0]];
    if AreInside(fs, limit, realRoot, lexical, segments, m + 1) {
      assert IsInside(fs, limit, realRoot, lexical + segments[..1]);
      forall n | 0 < n <= m ensures IsInside(fs, limit, realRoot, level + segments[1..][..n]) {
        assert IsInside(fs, limit, realRoot, lexical + segments[..n + 1]);
      }
    }
    if IsInside(fs, limit, realRoot, level) && AreInside(fs, limit, realRoot, level, segments[1..], m) {
      forall n | 0 < n <= m + 1 ensures IsInside(fs, limit, realRoot, lexical + segments[..n]) {
        if n > 1 { assert IsInside(fs, limit, realRoot, level + segments[1..][..n - 1]); }
      }
    }
  }

  lemma EndsInsideStep(fs: FileSystem, limit: nat, realRoot: Location, lexical: Location, segments: seq<Text>)
    requires IsTree(fs) && segments != []
    ensures var level := lexical + [segments[0]];
      EndsInside(fs, limit, realRoot, lexical, segments) <==>
        || LStat(fs, level, limit) == Missing
        || (IsInside(fs, limit, realRoot, level) && EndsInside(fs, limit, realRoot, level, segments[1..]))
  {
    hide IsInside, AreInside;
    var level := lexical + [segments[0]];
    assert segments[..1] == [segments[0]];
    NoLevels(fs, limit, realRoot, lexical, segments);
    if EndsInside(fs, limit, realRoot, lexical, segments) {
      var m: nat :| m <= |segments| && AreInside(fs, limit, realRoot, lexical, segments, m)
        && (m < |segments| ==> LStat(fs, lexical + segments[..m + 1], limit) == Missing);
      if m > 0 {
        LevelsShift(fs, limit, realRoot, lexical, segments, m - 1);
        if m < |segments| { LevelsShift(fs, limit, realRoot, lexical, segments, m); }
      }
    }
    if IsInside(fs, limit, realRoot, level) && EndsInside(fs, limit, realRoot, level, segments[1..]) {
      var m: nat :| m <= |segments[1..]| && AreInside(fs, limit, realRoot, level, segments[1..], m)
        && (m < |segments[1..]| ==> LStat(fs, level + segments[1..][..m + 1], limit) == Missing);
      LevelsShift(fs, limit, realRoot, lexical, segments, m);
      if m < |segments[1..]| { LevelsShift(fs, limit, realRoot, lexical, segments, m + 1); }
    }
  }

  lemma NoLevels(fs: FileSystem, limit: nat, realRoot: Location, lexical: Location, segments: seq<Text>)
    requires IsTree(fs)
    ensures AreInside(fs, limit, realRoot, lexical, segments, 0)
  {}

  lemma LeavesRootStep(fs: FileSystem, limit: nat, realRoot: Location, lexical: Location, segments: seq<Text>)
    requires IsTree(fs) && segments != []
    ensures var level := lexical + [segments[0]];
      LeavesRoot(fs, limit, realRoot, lexical, segments) <==>
        || (LStat(fs, level, limit).Found? && RealPath(fs, level, limit).Found?
            && !(realRoot <= RealPath(fs, level, limit).at))
        || (IsInside(fs, limit, realRoot, level) && LeavesRoot(fs, limit, realRoot, level, segments[1..]))
  {
    hide IsInside, AreInside;
    var level := lexical + [segments[0]];
    assert segments[..1] == [segments[0]];
    NoLevels(fs, limit, realRoot, lexical, segments);
    if LeavesRoot(fs, limit, realRoot, lexical, segments) {
      var m: nat :| m < |segments| && AreInside(fs, limit, realRoot, lexical, segments, m)
        && var at := lexical + segments[..m + 1];
          && LStat(fs, at, limit).Found? && RealPath(fs, at, limit).Found? && !(realRoot <= RealPath(fs, at, limit).at);
      if m > 0 {
        LevelsShift(fs, limit, realRoot, lexical, segments, m - 1);
        LevelsShift(fs, limit, realRoot, lexical, segments, m);
      }
    }
    if IsInside(fs, limit, realRoot, level) && LeavesRoot(fs, limit, realRoot, level, segments[1..]) {
      var m: nat :| m < |segments[1..]| && AreInside(fs, limit, realRoot, level, segments[1..], m)
        && var at := level + segments[1..][..m + 1];
          && LStat(fs, at, limit).Found? && RealPath(fs, at, limit).Found? && !(realRoot <= RealPath(fs, at, limit).at);
      LevelsShift(fs, limit, realRoot, lexical, segments, m);
      LevelsShift(fs, limit, realRoot, lexical, segments, m + 1);
    }
  }

  /** The verdict on the levels, by what they are: links to places inside the root are accepted like any other. */
  lemma {:induction false} LevelsVerdictIff(
    fs: FileSystem, limit: nat, realRoot: Location, lexical: Location, segments: seq<Text>)
    requires IsTree(fs) && realRoot in fs
    ensures var verdict := CheckLevels(fs, limit, realRoot, lexical, segments);
      && (verdict == Accepted <==> EndsInside(fs, limit, realRoot, lexical, segments))
      && (verdict == LinkEscape <==> LeavesRoot(fs, limit, realRoot, lexical, segments))
      && (verdict == Accepted || verdict == LinkEscape || verdict == Unprovable)
    decreases |segments|
  {
    hide Walk, EndsInside, LeavesRoot, Escapes, Relative;
    if segments == [] {
      NothingToCheck(fs, limit, realRoot, lexical);
    } else {
      var level := lexical + [segments[0]];
      EndsInsideStep(fs, limit, realRoot, lexical, segments);
      LeavesRootStep(fs, limit, realRoot, lexical, segments);
      LevelsVerdictIff(fs, limit, realRoot, level, segments[1..]);
      if RealPath(fs, level, limit).Found? {
        LocationsArePlain(fs, RealPath(fs, level, limit).at);
        LocationsArePlain(fs, realRoot);
        EscapesIff(realRoot, RealPath(fs, level, limit).at);
      }
    }
  }

  lemma NothingToCheck(fs: FileSystem, limit: nat, realRoot: Location, lexical: Location)
    requires IsTree(fs)
    ensures EndsInside(fs, limit, realRoot, lexical, []) && !LeavesRoot(fs, limit, realRoot, lexical, [])
  {
    assert AreInside(fs, limit, realRoot, lexical, [], 0);
  }

  /**
   * On every file system with links: a path that is safe is accepted if and only if the root has no real
   * path, or its levels exist inside the real root down to the last or to the first that is missing.
   */
  lemma GuardAcceptsIff(fs: FileSystem, limit: nat, cwd: Text, root: Text, path: Text, reserved: Text -> bool)
    requires IsTree(fs) && root != [] && Canonicalize(path, reserved).Ok?
    ensures var base, segments := Resolve(cwd, [root]), Split(Canonicalize(path, reserved).value, SLASH);
      var verdict := Guard(fs, limit, cwd, root, path, reserved);
      match RealPath(fs, base, limit)
      case Found(realRoot) =>
        && (verdict == Accepted <==> EndsInside(fs, limit, realRoot, base, segments))
        && (verdict == LinkEscape <==> LeavesRoot(fs, limit, realRoot, base, segments))
      case _ => verdict == Accepted
  {
    hide Walk, Canonicalize, EndsInside, LeavesRoot, CheckLevels, Split;
    ResolvedUpload(cwd, root, path, reserved);
    var base := Resolve(cwd, [root]);
    if RealPath(fs, base, limit).Found? {
      LevelsVerdictIff(
        fs, limit, RealPath(fs, base, limit).at, base, Split(Canonicalize(path, reserved).value, SLASH));
    }
  }

  // ---------- completeness on trees without links ----------

  ghost predicate IsReadableWithoutLinks(fs: FileSystem) {
    forall p <- fs :: fs[p] == RegularFile || fs[p] == Directory(true)
  }

  ghost predicate IsFile(fs: FileSystem, p: Location) { p in fs && fs[p] == RegularFile }

  /** Whether a regular file stands where a directory is needed. */
  ghost predicate BlockedByFile(fs: FileSystem, at: Location, segments: seq<Text>) {
    exists i | 0 <= i < |segments| :: IsFile(fs, at + segments[..i])
  }

  lemma {:induction false} AncestorsExist(fs: FileSystem, p: Location, n: nat)
    requires IsTree(fs) && p in fs && n < |p|
    ensures p[..n] in fs && fs[p[..n]].Directory?
    decreases |p|
  {
    assert IsPlaced(fs, p);
    if n < |p| - 1 {
      AncestorsExist(fs, p[..|p| - 1], n);
      assert p[..|p| - 1][..n] == p[..n];
    }
  }

  lemma {:induction false} WalkPlain(fs: FileSystem, at: Location, rest: seq<Text>, follow: bool, links: nat)
    requires IsTree(fs) && at in fs && IsReadableWithoutLinks(fs) && ArePlain(rest)
    ensures Walk(fs, at, rest, follow, links) ==
      if at + rest in fs then Found(at + rest)
      else if BlockedByFile(fs, at, rest) then NotDirectory
      else Missing
    decreases |rest|
  {
    if rest == [] {
      assert at + rest == at;
    } else {
      assert rest[..0] == [] && at + [] == at && rest[..1] == [rest[0]];
      var next := at + [rest[0]];
      assert at + rest == next + rest[1..];
      assert IsPlain(rest[0]);
      if at + rest in fs {
        AncestorsExist(fs, at + rest, |at|);
        assert (at + rest)[..|at|] == at;
        if |rest| > 1 {
          AncestorsExist(fs, at + rest, |at| + 1);
          assert (at + rest)[..|at| + 1] == next;
        } else {
          assert at + rest == next;
        }
        WalkPlain(fs, next, rest[1..], follow, links);
      } else if fs[at] == RegularFile {
        assert IsFile(fs, at + rest[..0]);
      } else {
        forall i | 0 < i < |rest| ensures at + rest[..i] == next + rest[1..][..i - 1] {}
        if next in fs {
          WalkPlain(fs, next, rest[1..], follow, links);
          if BlockedByFile(fs, next, rest[1..]) {
            var i :| 0 <= i < |rest| - 1 && IsFile(fs, next + rest[1..][..i]);
            assert IsFile(fs, at + rest[..i + 1]);
          }
        } else {
          forall i | 0 <= i < |rest| ensures !IsFile(fs, at + rest[..i]) {
            if i > 0 && at + rest[..i] in fs {
              assert (at + rest[..i])[..|at| + 1] == next;
              if i > 1 { AncestorsExist(fs, at + rest[..i], |at| + 1); }
            }
          }
        }
      }
    }
  }

  /** One level on a tree without links. */
  lemma LevelOnPlainTree(fs: FileSystem, limit: nat, base: Location, lexical: Location, rest: seq<Text>)
    requires IsTree(fs) && IsReadableWithoutLinks(fs) && [] in fs
    requires rest != [] && base <= lexical && ArePlain(lexical) && IsPlain(rest[0])
    ensures var level := lexical + [rest[0]];
      CheckLevels(fs, limit, base, lexical, rest) ==
        if level in fs then CheckLevels(fs, limit, base, level, rest[1..])
        else if BlockedByFile(fs, [], level) then Unprovable else Accepted
  {
    hide Walk, BlockedByFile, IsTree, IsReadableWithoutLinks, Escapes, Relative;
    var level := lexical + [rest[0]];
    assert level == [] + level;
    forall s | s in level ensures IsPlain(s) {}
    WalkPlain(fs, [], level, false, limit);
    WalkPlain(fs, [], level, true, limit);
    forall s | s in base ensures IsPlain(s) { assert s in lexical; }
    EscapesIff(base, level);
  }

  lemma {:induction false} LevelsComplete(fs: FileSystem, limit: nat, base: Location, done: nat, segments: seq<Text>)
    requires IsTree(fs) && IsReadableWithoutLinks(fs) && ArePlain(base) && ArePlain(segments) && base in fs
    requires done <= |segments| && base + segments[..done] in fs
    requires forall i | 0 <= i < done :: !IsFile(fs, base + segments[..i])
    ensures CheckLevels(fs, limit, base, base + segments[..done], segments[done..]) ==
      if BlockedByFile(fs, base, segments) then Unprovable else Accepted
    decreases |segments| - done
  {
    hide Walk;
    if done < |segments| {
      hide CheckLevels;
      var here, rest, level := base + segments[..done], segments[done..], base + segments[..done + 1];
      assert here + [rest[0]] == level;
      LevelOnPlainTree(fs, limit, base, here, rest);
      if level in fs {
        AncestorsExist(fs, level, |here|);
        assert level[..|here|] == here;
        assert rest[1..] == segments[done + 1..];
        LevelsComplete(fs, limit, base, done + 1, segments);
      } else {
        BlockedAtLevel(fs, base, done, segments);
      }
    }
  }

  /** When a level is the first that does not exist, only the entry just above it can be in the way. */
  lemma BlockedAtLevel(fs: FileSystem, base: Location, done: nat, segments: seq<Text>)
    requires IsTree(fs) && base in fs && done < |segments|
    requires base + segments[..done] in fs && base + segments[..done + 1] !in fs
    requires forall i | 0 <= i < done :: !IsFile(fs, base + segments[..i])
    ensures BlockedByFile(fs, [], base + segments[..done + 1]) <==> BlockedByFile(fs, base, segments)
  {
    var level := base + segments[..done + 1];
    var here := base + segments[..done];
    if BlockedByFile(fs, [], level) {
      var i :| 0 <= i < |level| && IsFile(fs, [] + level[..i]);
      assert [] + level[..i] == level[..i];
      if i < |here| {
        assert here[..i] == level[..i];
        AncestorsExist(fs, here, i);
      } else {
        assert level[..i] == here;
      }
      assert IsFile(fs, base + segments[..done]);
    }
    if BlockedByFile(fs, base, segments) {
      var i :| 0 <= i < |segments| && IsFile(fs, base + segments[..i]);
      if i > done {
        var p := base + segments[..i];
        assert p[..|level|] == level;
        if i > done + 1 { AncestorsExist(fs, p, |level|); }
      }
      assert i == done;
      assert level[..|here|] == here;
      assert [] + level[..|here|] == here;
      assert IsFile(fs, [] + level[..|here|]);
    }
  }

  /**
   * On a readable tree without links a canonicalizable path is accepted if and only if no regular
   * file stands at the root or at a level above its last: there `lstat` fails with ENOTDIR, which the
   * guard does not tell apart from a failure to prove containment.
   */
  lemma GuardIsCompleteIff(fs: FileSystem, limit: nat, cwd: Text, root: Text, path: Text, reserved: Text -> bool)
    requires IsTree(fs) && IsReadableWithoutLinks(fs)
    requires root != [] && Canonicalize(path, reserved).Ok? && Resolve(cwd, [root]) in fs
    ensures Guard(fs, limit, cwd, root, path, reserved) ==
      if BlockedByFile(fs, Resolve(cwd, [root]), Split(Canonicalize(path, reserved).value, SLASH)) then Unprovable
      else Accepted
  {
    hide Walk, Canonicalize;
    var base, segments := Resolve(cwd, [root]), Split(Canonicalize(path, reserved).value, SLASH);
    ResolvedUpload(cwd, root, path, reserved);
    TargetSegments(cwd, root, path, reserved);
    WalkPlain(fs, [], base, true, limit);
    assert [] + base == base;
    assert base + segments[..0] == base && segments[0..] == segments;
    LevelsComplete(fs, limit, base, 0, segments);
  }

  /** A file where a directory is wanted: with `/r/d` a file, the path `d/x` is refused although no link is involved. */
  lemma FileInTheWay(r: Text, dir: Text, name: Text, limit: nat, cwd: Text, reserved: Text -> bool)
    requires IsPlain(r) && IsSimpleName(dir, reserved) && IsSimpleName(name, reserved)
    requires PERCENT !in dir && PERCENT !in name
    ensures var fs := map[[] := Directory(true), [r] := Directory(true), [r, dir] := RegularFile];
      IsTree(fs) && Guard(fs, limit, cwd, AbsoluteText([r]), dir + [SLASH] + name, reserved) == Unprovable
  {
    hide Guard, Resolve, Split, IsSafe;
    var fs: FileSystem := map[[] := Directory(true), [r] := Directory(true), [r, dir] := RegularFile];
    var path := dir + [SLASH] + name;
    SimplePathIsSafe(dir, name, reserved);
    SimpleSegmentIsSafe(dir, reserved);
    assert [r, dir][..1] == [r] && [r][..0] == [];
    assert IsPlaced(fs, [r, dir]) && IsPlaced(fs, [r]) && IsPlaced(fs, []);
    ResolveAbsolute(cwd, [r]);
    assert PERCENT !in path;
    SafeTextIsFixed(path, reserved);
    GuardIsCompleteIff(fs, limit, cwd, AbsoluteText([r]), path, reserved);
    assert [dir, name][..1] == [dir] && [r] + [dir] == [r, dir];
    assert IsFile(fs, [r] + [dir, name][..1]);
  }

  // ---------- a file checked under another name ----------

  /** Lookup goes straight through a directory that is its own real path. */
  lemma {:induction false} WalkThrough(
    fs: FileSystem, at: Location, rest: seq<Text>, more: seq<Text>, follow: bool, links: nat)
    requires IsTree(fs) && at in fs && at + rest in fs && fs[at + rest].Directory? && ArePlain(rest)
    requires Walk(fs, at, rest, true, links).Found?
    ensures Walk(fs, at, rest, true, links) == Found(at + rest)
    ensures Walk(fs, at, rest + more, follow, links) == Walk(fs, at + rest, more, follow, links)
    decreases |rest|
  {
    if rest == [] {
      assert at + rest == at && rest + more == more;
    } else {
      var next := at + [rest[0]];
      assert next + rest[1..] == at + rest;
      assert IsPlain(rest[0]);
      HeadOfAppend(rest, more);
      if |rest| > 1 {
        AncestorsExist(fs, at + rest, |at| + 1);
        assert (at + rest)[..|at| + 1] == next;
      } else {
        assert at + rest == next;
      }
      WalkThrough(fs, next, rest[1..], more, follow, links);
    }
  }

  /** An entry that is no link is its own real path below its directory. */
  lemma EntryIsReal(fs: FileSystem, dir: Location, name: Text, links: nat)
    requires IsTree(fs) && dir in fs && IsPlain(name)
    requires Walk(fs, dir, [name], false, links).Found? && !fs[Walk(fs, dir, [name], false, links).at].Link?
    ensures Walk(fs, dir, [name], false, links) == Found(dir + [name])
    ensures Walk(fs, dir, [name], true, links) == Found(dir + [name])
  {
    var one: seq<Text> := [name];
    assert one[1..] == [];
  }

  function Outside(root: Location): Text
    requires root != []
  {
    root[0] + ['x' as int]
  }

  function PlacesOf(root: Location, at: Location): set<Location>
    requires root != []
  {
    (set n | 0 <= n <= |root + at| :: (root + at)[..n]) + {[Outside(root)]}
  }

  /** A file system with one link: at `root` and then `at`, to a file outside the root. */
  function PlantedLink(root: Location, at: Location): FileSystem
    requires root != []
  {
    map p | p in PlacesOf(root, at) ::
      if p == root + at then Link([SLASH] + Outside(root))
      else if p == [Outside(root)] then RegularFile
      else Directory(true)
  }

  lemma OutsideIsOutside(root: Location)
    requires root != [] && ArePlain(root)
    ensures IsPlain(Outside(root)) && Outside(root) != root[0]
  {
    var out := Outside(root);
    assert root[0] in root && IsPlain(root[0]);
    assert out[|out| - 1] == 'x' as int;
  }

  lemma PlantedLinkEntries(root: Location, at: Location)
    requires root != [] && at != [] && ArePlain(root)
    ensures var fs, place, out := PlantedLink(root, at), root + at, Outside(root);
      && [out] in fs && fs[[out]] == RegularFile
      && (forall n | 0 <= n < |place| :: place[..n] in fs && fs[place[..n]] == Directory(true))
      && place in fs && fs[place] == Link([SLASH] + out)
  {
    var place := root + at;
    OutsideIsOutside(root);
    hide Outside;
    assert place[..|place|] == place;
    forall n | 0 <= n < |place| ensures place[..n] != [Outside(root)] {
      assert n > 0 ==> place[..n][0] == root[0];
    }
  }

  lemma PlantedLinkIsTree(root: Location, at: Location)
    requires root != [] && at != [] && ArePlain(root) && ArePlain(at)
    ensures IsTree(PlantedLink(root, at))
  {
    var fs, place, out := PlantedLink(root, at), root + at, Outside(root);
    PlantedLinkEntries(root, at);
    OutsideIsOutside(root);
    assert place[..0] == [];
    forall p | p in fs ensures IsPlaced(fs, p) {
      if p == [out] {
        assert p[..0] == place[..0];
      } else {
        var n :| 0 <= n <= |place| && p == place[..n];
        hide PlantedLink, Outside;
        if n > 0 {
          assert p[n - 1] in place;
          assert p[..n - 1] == place[..n - 1];
        }
      }
    }
  }

  lemma {:induction false} WalkDirectories(
    fs: FileSystem, place: Location, n: nat, m: nat, more: seq<Text>, follow: bool, links: nat)
    requires IsTree(fs) && ArePlain(place) && n <= m <= |place|
    requires forall i | 0 <= i <= m :: place[..i] in fs && fs[place[..i]] == Directory(true)
    ensures Walk(fs, place[..n], place[n..m] + more, follow, links) == Walk(fs, place[..m], more, follow, links)
    decreases m - n
  {
    if n == m {
      assert place[n..m] + more == more;
    } else {
      var rest := place[n..m] + more;
      assert rest[0] == place[n] && rest[1..] == place[n + 1..m] + more;
      assert place[..n] + [place[n]] == place[..n + 1];
      assert place[n] in place && IsPlain(place[n]);
      WalkDirectories(fs, place, n + 1, m, more, follow, links);
    }
  }

  lemma PlantedLinkLeadsOut(root: Location, at: Location, limit: nat)
    requires root != [] && at != [] && ArePlain(root) && ArePlain(at) && limit > 0
    ensures var fs := PlantedLink(root, at);
      && IsTree(fs)
      && RealPath(fs, root, limit) == Found(root)
      && LStat(fs, root + at, limit) == Found(root + at)
      && RealPath(fs, root + at, limit) == Found([Outside(root)])
      && !(root <= [Outside(root)])
  {
    PlantedLinkIsTree(root, at);
    PlantedLinkEntries(root, at);
    OutsideIsOutside(root);
    var fs, place, out := PlantedLink(root, at), root + at, Outside(root);
    hide PlantedLink, IsTree, Outside;
    assert place[..0] == [] && place[..|root|] == root && place[0..|root|] + [] == root;
    WalkDirectories(fs, place, 0, |root|, [], true, limit);
    var n := |place| - 1;
    var last := place[n];
    assert last in place && IsPlain(last);
    assert place[0..n] + [last] == place && place[..n] + [last] == place;
    WalkDirectories(fs, place, 0, n, [last], false, limit);
    WalkDirectories(fs, place, 0, n, [last], true, limit);
    AtLink(fs, place[..n], last, out, limit);
  }

  /** A link is itself when it is not followed, and the file it names when it is. */
  lemma AtLink(fs: FileSystem, dir: Location, name: Text, out: Text, limit: nat)
    requires IsTree(fs) && dir in fs && fs[dir] == Directory(true) && fs[[]] == Directory(true) && IsPlain(name)
    requires dir + [name] in fs && fs[dir + [name]] == Link([SLASH] + out)
    requires IsPlain(out) && [out] in fs && fs[[out]] == RegularFile && limit > 0
    ensures Walk(fs, dir, [name], false, limit) == Found(dir + [name])
    ensures Walk(fs, dir, [name], true, limit) == Found([out])
  {
    var one: seq<Text> := [name];
    assert one[1..] == [];
    LookupOutside(fs, out, limit - 1);
  }

  lemma LookupOutside(fs: FileSystem, out: Text, links: nat)
    requires IsTree(fs) && IsPlain(out) && [out] in fs && fs[[out]] == RegularFile
    requires fs[[]] == Directory(true)
    ensures Walk(fs, [], Split([SLASH] + out, SLASH) + [], true, links) == Found([out])
  {
    SplitFree(out, SLASH);
    assert ([SLASH] + out)[1..] == out;
    var steps: seq<Text>, last: seq<Text> := [[], out], [out];
    assert Split([SLASH] + out, SLASH) + [] == steps && steps[1..] == last && last[1..] == [];
    assert [] + [out] == [out];
    hide Split;
    assert Walk(fs, [out], [], true, links) == Found([out]);
    assert Walk(fs, [], last, true, links) == Found([out]);
  }

  lemma OneStep(fs: FileSystem, at: Location, name: Text, follow: bool, links: nat)
    requires IsTree(fs) && at in fs && fs[at] == Directory(true) && IsPlain(name)
    requires at + [name] in fs ==> fs[at + [name]].Directory?
    ensures Walk(fs, at, [name], follow, links) == if at + [name] in fs then Found(at + [name]) else Missing
  {
    var one: seq<Text> := [name];
    assert one[1..] == [];
  }

  lemma LevelIsMissing(root: Location, at: Location, segments: seq<Text>, n: nat)
    requires root != [] && n < |segments| && n < |at| && segments[..n] == at[..n] && segments[n] != at[n]
    ensures root + segments[..n + 1] !in PlantedLink(root, at)
  {
    var place, level := root + at, root + segments[..n + 1];
    assert level[|root| + n] == segments[n];
    assert forall k | |root| + n < k <= |place| :: place[..k][|root| + n] == at[n];
  }

  /** A level of another path than the one of the link is a directory, or missing. */
  lemma PlantedLevel(root: Location, at: Location, limit: nat, segments: seq<Text>, n: nat)
    requires root != [] && at != [] && ArePlain(root) && ArePlain(at) && ArePlain(segments)
    requires n < |segments| && n < |at| && segments[..n] == at[..n] && !(at <= segments)
    ensures IsTree(PlantedLink(root, at))
    ensures var fs, level := PlantedLink(root, at), root + segments[..n + 1];
      if segments[n] == at[n] then
        n + 1 < |at| && LStat(fs, level, limit) == Found(level) && RealPath(fs, level, limit) == Found(level)
      else LStat(fs, level, limit) == Missing
  {
    PlantedLinkIsTree(root, at);
    PlantedLinkEntries(root, at);
    var fs, place, m := PlantedLink(root, at), root + at, |root| + n;
    var name, level := segments[n], root + segments[..n + 1];
    assert name in segments && IsPlain(name);
    assert place[..m] == root + segments[..n] && place[0..m] + [name] == level && place[..0] == [];
    assert place[..m] + [name] == level;
    if name == at[n] {
      assert segments[..n + 1] == at[..n + 1];
      assert at[..|at|] == at;
      assert level == place[..m + 1];
    } else {
      LevelIsMissing(root, at, segments, n);
    }
    hide PlantedLink, IsTree, Walk;
    WalkDirectories(fs, place, 0, m, [name], false, limit);
    WalkDirectories(fs, place, 0, m, [name], true, limit);
    OneStep(fs, place[..m], name, false, limit);
    OneStep(fs, place[..m], name, true, limit);
  }

  /** Walking the levels of another path than the one of the link meets the link nowhere. */
  lemma {:induction false} LevelsMissLink(
    root: Location, at: Location, limit: nat, segments: seq<Text>, n: nat)
    requires root != [] && at != [] && ArePlain(root) && ArePlain(at) && ArePlain(segments)
    requires n <= |segments| && n < |at| && segments[..n] == at[..n] && !(at <= segments)
    requires IsTree(PlantedLink(root, at))
    ensures CheckLevels(PlantedLink(root, at), limit, root, root + segments[..n], segments[n..]) == Accepted
    decreases |segments| - n
  {
    hide PlantedLink, IsTree, Relative, Escapes, Walk;
    if n < |segments| {
      var level := root + segments[..n + 1];
      assert root + segments[..n] + [segments[n]] == level && segments[n..][1..] == segments[n + 1..];
      PlantedLevel(root, at, limit, segments, n);
      if segments[n] == at[n] {
        assert segments[..n + 1] == at[..n + 1];
        forall s | s in level ensures IsPlain(s) {}
        EscapesIff(root, level);
        LevelsMissLink(root, at, limit, segments, n + 1);
      }
    }
  }

  /** What is canonicalized is never longer, and a path as long as the text it comes from is that text. */
  lemma CanonicalLength(raw: Text, reserved: Text -> bool)
    requires Canonicalize(raw, reserved).Ok?
    ensures var c := Canonicalize(raw, reserved).value;
      |c| <= |raw| && BACKSLASH !in c && (|c| == |raw| && BACKSLASH !in raw ==> c == raw)
  {
    AcceptedIsSafe(raw, reserved);
    RoundsShorten(raw, MAX_ROUNDS);
    if |Rounds(raw, MAX_ROUNDS)| == |raw| {
      RoundsAtRest(raw, MAX_ROUNDS);
      if BACKSLASH !in raw { SlashedNothing(raw); }
    }
  }

  /** A path that changes under canonicalization is not below its own canonical path. */
  lemma ChangedPathIsElsewhere(at: Location, reserved: Text -> bool)
    requires at != [] && ArePlain(at)
    requires Canonicalize(Join(at, SLASH), reserved).Ok?
    requires var c := Canonicalize(Join(at, SLASH), reserved).value;
      c != Join(at, SLASH) && Canonicalize(c, reserved).Ok?
    ensures var c := Canonicalize(Join(at, SLASH), reserved).value;
      !(at <= Split(Canonicalize(c, reserved).value, SLASH))
  {
    hide Canonicalize, Join;
    var raw := Join(at, SLASH);
    var c := Canonicalize(raw, reserved).value;
    var d := Canonicalize(c, reserved).value;
    CanonicalLength(raw, reserved);
    CanonicalLength(c, reserved);
    JoinSplit(d, SLASH);
    if at <= Split(d, SLASH) {
      JoinPrefix(at, Split(d, SLASH), SLASH);
    }
  }

  /** The guard accepts the canonical path of the planted link if the two differ, wherever the link leads. */
  lemma PlantedLinkIsAccepted(root: Location, at: Location, limit: nat, cwd: Text, reserved: Text -> bool)
    requires root != [] && at != [] && ArePlain(root) && ArePlain(at) && limit > 0
    requires Canonicalize(Join(at, SLASH), reserved).Ok?
    requires var c := Canonicalize(Join(at, SLASH), reserved).value;
      c != Join(at, SLASH) && Canonicalize(c, reserved).Ok?
    ensures IsTree(PlantedLink(root, at))
    ensures Guard(
      PlantedLink(root, at), limit, cwd, AbsoluteText(root), Canonicalize(Join(at, SLASH), reserved).value, reserved)
      == Accepted
  {
    hide Canonicalize, Join, Walk, PlantedLink;
    var c := Canonicalize(Join(at, SLASH), reserved).value;
    var segments := Split(Canonicalize(c, reserved).value, SLASH);
    ChangedPathIsElsewhere(at, reserved);
    PlantedLinkIsTree(root, at);
    PlantedLinkLeadsOut(root, at, limit);
    ResolveAbsolute(cwd, root);
    ResolvedUpload(cwd, AbsoluteText(root), c, reserved);
    AcceptedIsSafe(c, reserved);
    LevelsMissLink(root, at, limit, segments, 0);
    assert root + segments[..0] == root && segments[0..] == segments;
  }

  /**
   * Callers that check the canonical path of a file and then use the file under its own path, as the
   * scanner does, are safe on every file system exactly for the paths that canonicalization leaves
   * alone, and for those whose canonical path the guard, canonicalizing again, refuses everywhere.
   */
  lemma CheckedUnderOwnNameIff(root: Location, at: Location, limit: nat, cwd: Text, reserved: Text -> bool)
    requires root != [] && at != [] && ArePlain(root) && ArePlain(at) && limit > 0
    requires Canonicalize(Join(at, SLASH), reserved).Ok?
    ensures var c := Canonicalize(Join(at, SLASH), reserved).value;
      (forall fs: FileTree |
          && RealPath(fs, root, limit) == Found(root)
          && Guard(fs, limit, cwd, AbsoluteText(root), c, reserved) == Accepted
        :: IsContained(fs, limit, root, root + at))
      <==> c == Join(at, SLASH) || Canonicalize(c, reserved).Err?
  {
    hide Canonicalize, Walk, PlantedLink, CheckLevels, Relative, Escapes;
    var c := Canonicalize(Join(at, SLASH), reserved).value;
    if c == Join(at, SLASH) {
      forall fs: FileTree |
        && RealPath(fs, root, limit) == Found(root)
        && Guard(fs, limit, cwd, AbsoluteText(root), c, reserved) == Accepted
        ensures IsContained(fs, limit, root, root + at)
      {
        ContainedUnderOwnName(fs, root, at, limit, cwd, reserved);
      }
    } else if Canonicalize(c, reserved).Ok? {
      PlantedLinkIsAccepted(root, at, limit, cwd, reserved);
      PlantedLinkLeadsOut(root, at, limit);
      var fs: FileTree := PlantedLink(root, at);
      assert !IsContained(fs, limit, root, root + at);
    }
  }

  lemma ContainedUnderOwnName(
    fs: FileSystem, root: Location, at: Location, limit: nat, cwd: Text, reserved: Text -> bool)
    requires IsTree(fs) && at != [] && ArePlain(root) && ArePlain(at)
    requires RealPath(fs, root, limit) == Found(root)
    requires Canonicalize(Join(at, SLASH), reserved) == Ok(Join(at, SLASH))
    requires Guard(fs, limit, cwd, AbsoluteText(root), Join(at, SLASH), reserved) == Accepted
    ensures IsContained(fs, limit, root, root + at)
  {
    hide Canonicalize, Walk, Guard;
    ResolveAbsolute(cwd, root);
    GuardIsSound(fs, limit, cwd, AbsoluteText(root), Join(at, SLASH), reserved);
    forall s | s in at ensures SLASH !in s { assert IsPlain(s); }
    SplitJoin(at, SLASH);
    assert at[..|at|] == at;
  }

  /** With `/r/%61.map` a link to a file outside `/r`, the guard accepts `a.map`, which is not even there. */
  lemma EncodedLinkEscapes(r: Text, limit: nat, cwd: Text, upper: Text -> Text)
    requires IsPlain(r) && limit > 0 && UppersAscii(upper)
    ensures var fs, reserved := PlantedLink([r], [ENCODED_A]), DeviceName(upper);
      && IsTree(fs)
      && Canonicalize(ENCODED_A, reserved) == Ok(A_MAP)
      && Guard(fs, limit, cwd, AbsoluteText([r]), A_MAP, reserved) == Accepted
      && RealPath(fs, [r, ENCODED_A], limit) == Found([Outside([r])])
      && !([r] <= [Outside([r])])
  {
    hide Canonicalize, DeviceName, Guard, PlantedLink, Walk;
    var reserved := DeviceName(upper);
    EncodedAIsA(upper);
    ExampleNamesAreNoDevices(upper);
    assert IsSimpleName(A_MAP, reserved);
    SimpleNameIsSafe(A_MAP, reserved);
    SafeTextIsFixed(A_MAP, reserved);
    assert Join([ENCODED_A], SLASH) == ENCODED_A && [r] + [ENCODED_A] == [r, ENCODED_A];
    PlantedLinkIsAccepted([r], [ENCODED_A], limit, cwd, reserved);
    PlantedLinkLeadsOut([r], [ENCODED_A], limit);
  }
}
