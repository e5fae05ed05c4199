/**
 * The upload scan of packages/cli/src/scanner.ts: the walk of a directory graph that may alias or loop,
 * and the association of generated assets with source maps.
 */
module Scanner {
  import opened Wrappers
  import opened JsText
  import Sorting
  import Paths
  import PercentDecoding
  import ArtifactPaths
  import Guard = SymlinkGuard

  // ---------- the walk ----------

  /** A lexical path below the root. */
  type Location = seq<Text>

  datatype TargetKind = Dangling | DirectoryTarget | FileTarget | OtherTarget

  datatype EntryKind = Inaccessible | Symlink(target: TargetKind) | Directory | RegularFile | Special

  /**
   * What the walk can see: the real directory of a lexical path, the names listed in it, and the kind of
   * an entry; and the files, the real path of the root and the limit on links that the symlink guard uses.
   */
  datatype Graph = Graph(
    directories: set<Location>,
    realDirectory: Location -> Option<Location>,
    list: Location -> Option<seq<Text>>,
    kind: Location -> EntryKind,
    files: Guard.FileTree,
    root: Location,
    limit: nat)

  ghost predicate IsFiniteGraph(g: Graph) {
    forall l: Location :: g.realDirectory(l).Some? ==> g.realDirectory(l).value in g.directories
  }

  datatype Candidate = Candidate(canonical: Text, location: Location, isMap: bool)

  datatype Warning =
    | Unresolvable(at: Location)
    | Cycle(at: Location)
    | Unreadable(at: Location)
    | NoAccess(at: Location)
    | DanglingLink(at: Location)
    | LinkedDirectory(at: Location)
    | NotAFile(at: Location)
    | BadPath(at: Location)

  function ExtensionOf(canonical: Text): Text {
    var parts := Split(canonical, SLASH);
    var base := parts[|parts| - 1];
    var pieces := Split(base, DOT);
    // No dot, only a leading dot, or a trailing dot: no extension.
    if |pieces| == 1 || (|pieces| == 2 && pieces[0] == []) || pieces[|pieces| - 1] == [] then []
    else [DOT] + pieces[|pieces| - 1]
  }

  const MAP_EXTENSION := Lit(".map")

  predicate IsAssetExtension(e: Text) { e == Lit(".js") || e == Lit(".mjs") || e == Lit(".cjs") }

  /** The rules of a scan: the reserved-name test and `toLowerCase`. */
  datatype Rules = Rules(reserved: Text -> bool, lower: Text -> Text)

  /** What the symlink guard says of a canonical path. The root is absolute: no working directory is needed. */
  function Verdict(g: Graph, canonical: Text, rules: Rules): Guard.Verdict {
    Guard.Guard(g.files, g.limit, [], Paths.AbsoluteText(g.root), canonical, rules.reserved)
  }

  /** `handleFile`: a candidate, a warning, or nothing for an unrelated extension. */
  function HandleFile(g: Graph, at: Location, rules: Rules): (seq<Candidate>, seq<Warning>) {
    match ArtifactPaths.Canonicalize(Join(at, SLASH), rules.reserved)
    case Err(_) => ([], [BadPath(at)])
    case Ok(canonical) =>
      if Verdict(g, canonical, rules) != Guard.Accepted then ([], [BadPath(at)])
      else
        var extension := rules.lower(ExtensionOf(canonical));
        if extension != MAP_EXTENSION && !IsAssetExtension(extension) then ([], [])
        else ([Candidate(canonical, at, extension == MAP_EXTENSION)], [])
  }

  /** Everything about an entry but the descent into a directory. */
  function HandleEntry(g: Graph, at: Location, rules: Rules): (seq<Candidate>, seq<Warning>) {
    match g.kind(at)
    case Inaccessible => ([], [NoAccess(at)])
    case Symlink(Dangling) => ([], [DanglingLink(at)])
    case Symlink(DirectoryTarget) => ([], [LinkedDirectory(at)])
    case Symlink(FileTarget) => HandleFile(g, at, rules)
    case Symlink(OtherTarget) => ([], [NotAFile(at)])
    case Directory => ([], [])
    case RegularFile => HandleFile(g, at, rules)
    case Special => ([], [])
  }

  function Itself(name: Text): Text { name }

  /** The entries of a directory in name order. */
  function SortNames(names: seq<Text>): seq<Text> { Sorting.Sort(names, Itself) }

  datatype Walked = Walked(
    visited: set<Location>, listed: seq<Location>, candidates: seq<Candidate>, warnings: seq<Warning>)

  function Then(a: Walked, b: Walked): Walked {
    Walked(b.visited, a.listed + b.listed, a.candidates + b.candidates, a.warnings + b.warnings)
  }

  lemma ThenAssociative(a: Walked, b: Walked, c: Walked)
    ensures Then(a, Then(b, c)) == Then(Then(a, b), c)
  {
    AppendAssociative(a.listed, b.listed, c.listed);
    AppendAssociative(a.candidates, b.candidates, c.candidates);
    AppendAssociative(a.warnings, b.warnings, c.warnings);
  }

  /** What one entry adds: the walk of a directory, or a file or link. */
  ghost function WalkEntry(g: Graph, at: Location, visited: set<Location>, rules: Rules): (w: Walked)
    requires IsFiniteGraph(g)
    ensures visited <= w.visited
    decreases g.directories - visited, 2, 0
  {
    if g.kind(at).Directory? then WalkDirectory(g, at, visited, rules)
    else var (cs, ws) := HandleEntry(g, at, rules); Walked(visited, [], cs, ws)
  }

  /** One directory: resolve, check for a cycle, read, and take the entries in order. */
  ghost function WalkDirectory(g: Graph, at: Location, visited: set<Location>, rules: Rules): (w: Walked)
    requires IsFiniteGraph(g)
    ensures visited <= w.visited
    decreases g.directories - visited, 1, 0
  {
    match g.realDirectory(at)
    case None => Walked(visited, [], [], [Unresolvable(at)])
    case Some(d) =>
      if d in visited then Walked(visited, [], [], [Cycle(at)])
      else
        match g.list(at)
        case None => Walked(visited + {d}, [at], [], [Unreadable(at)])
        case Some(names) =>
          assert d in g.directories - visited;
          var rest := WalkEntries(g, at, SortNames(names), visited + {d}, rules);
          rest.(listed := [at] + rest.listed)
  }

  ghost function WalkEntries(g: Graph, at: Location, names: seq<Text>, visited: set<Location>, rules: Rules)
    : (w: Walked)
    requires IsFiniteGraph(g)
    ensures visited <= w.visited
    decreases g.directories - visited, 3, |names|
  {
    if names == [] then Walked(visited, [], [], [])
    else
      var first := WalkEntry(g, at + [names[0]], visited, rules);
      Then(first, WalkEntries(g, at, names[1..], first.visited, rules))
  }

  // ---------- what the walk visits ----------

  /** The real directories that some paths lead to. */
  ghost function RealOnes(g: Graph, paths: seq<Location>): set<Location> {
    set l | l in paths && g.realDirectory(l).Some? :: g.realDirectory(l).value
  }

  lemma RealOnesThen(g: Graph, a: seq<Location>, b: seq<Location>)
    ensures RealOnes(g, a + b) == RealOnes(g, a) + RealOnes(g, b)
  {
    assert forall l :: l in a + b <==> l in a || l in b;
  }

  /** The paths listed lead to distinct real directories, not visited before: those visited since. */
  ghost predicate ListedOnce(g: Graph, w: Walked, visited: set<Location>) {
    && (forall l <- w.listed :: g.realDirectory(l).Some?)
    && (forall i, j | 0 <= i < j < |w.listed| :: g.realDirectory(w.listed[i]) != g.realDirectory(w.listed[j]))
    && RealOnes(g, w.listed) !! visited
    && w.visited == visited + RealOnes(g, w.listed)
  }

  lemma ListedOnceThen(g: Graph, a: Walked, b: Walked, visited: set<Location>)
    requires ListedOnce(g, a, visited) && ListedOnce(g, b, a.visited)
    ensures ListedOnce(g, Then(a, b), visited)
  {
    RealOnesThen(g, a.listed, b.listed);
    var both := Then(a, b).listed;
    forall i, j | 0 <= i < j < |both| ensures g.realDirectory(both[i]) != g.realDirectory(both[j]) {
      if i < |a.listed| <= j {
        var l, k := a.listed[i], b.listed[j - |a.listed|];
        assert l in a.listed && k in b.listed;
        assert g.realDirectory(l).value in RealOnes(g, a.listed) && g.realDirectory(k).value in RealOnes(g, b.listed);
      }
    }
  }

  lemma {:induction false} DirectoryListedOnce(g: Graph, at: Location, visited: set<Location>, rules: Rules)
    requires IsFiniteGraph(g)
    ensures ListedOnce(g, WalkDirectory(g, at, visited, rules), visited)
    decreases g.directories - visited, 1, 0
  {
    hide HandleEntry, SortNames, WalkEntries;
    var realAt := g.realDirectory(at);
    if realAt.Some? && realAt.value !in visited {
      var d := realAt.value;
      var first := Walked(visited + {d}, [at], [], []);
      assert RealOnes(g, [at]) == {d};
      if g.list(at).Some? {
        assert d in g.directories - visited;
        var names := SortNames(g.list(at).value);
        EntriesListedOnce(g, at, names, visited + {d}, rules);
        ListedOnceThen(g, first, WalkEntries(g, at, names, visited + {d}, rules), visited);
      }
    }
  }

  lemma {:induction false} EntriesListedOnce(
    g: Graph, at: Location, names: seq<Text>, visited: set<Location>, rules: Rules)
    requires IsFiniteGraph(g)
    ensures ListedOnce(g, WalkEntries(g, at, names, visited, rules), visited)
    decreases g.directories - visited, 3, |names|
  {
    hide HandleEntry, WalkDirectory;
    if names != [] {
      var here := at + [names[0]];
      var first := WalkEntry(g, here, visited, rules);
      if g.kind(here).Directory? { DirectoryListedOnce(g, here, visited, rules); }
      EntriesListedOnce(g, at, names[1..], first.visited, rules);
      ListedOnceThen(g, first, WalkEntries(g, at, names[1..], first.visited, rules), visited);
    }
  }

  // ---------- what is collected ----------

  /** A name in the listing of a directory that is not itself a directory. */
  ghost predicate IsEntry(g: Graph, l: Location, n: Text) {
    g.list(l).Some? && n in g.list(l).value && !g.kind(l + [n]).Directory?
  }

  /** A candidate that handling one of some names below `at` gives. */
  ghost predicate IsAmong(g: Graph, at: Location, names: seq<Text>, rules: Rules, c: Candidate) {
    exists n <- names :: !g.kind(at + [n]).Directory? && c in HandleEntry(g, at + [n], rules).0
  }

  /** A candidate that handling an entry of a listed directory gives. */
  ghost predicate IsHandled(g: Graph, listed: seq<Location>, rules: Rules, c: Candidate) {
    exists l <- listed :: g.list(l).Some? && IsAmong(g, l, g.list(l).value, rules, c)
  }

  lemma {:induction false} DirectoryHandles(
    g: Graph, at: Location, visited: set<Location>, rules: Rules, c: Candidate)
    requires IsFiniteGraph(g)
    ensures var w := WalkDirectory(g, at, visited, rules); c in w.candidates <==> IsHandled(g, w.listed, rules, c)
    decreases g.directories - visited, 1, 0
  {
    hide HandleEntry, SortNames, WalkEntries;
    var realAt, w := g.realDirectory(at), WalkDirectory(g, at, visited, rules);
    if realAt.Some? && realAt.value !in visited {
      if g.list(at).Some? {
        assert realAt.value in g.directories - visited;
        var names := g.list(at).value;
        var rest := WalkEntries(g, at, SortNames(names), visited + {realAt.value}, rules);
        EntriesHandle(g, at, SortNames(names), visited + {realAt.value}, rules, c);
        forall n ensures n in SortNames(names) <==> n in names { SortedName(names, n); }
        assert IsAmong(g, at, SortNames(names), rules, c) <==> IsAmong(g, at, names, rules, c);
        assert forall l :: l in w.listed <==> l == at || l in rest.listed;
      } else {
        assert w.listed == [at];
      }
    }
  }

  lemma SortedName(names: seq<Text>, n: Text)
    ensures n in SortNames(names) <==> n in names
  {
    Sorting.SortedIff(names, Itself, n);
  }

  lemma {:induction false} EntriesHandle(
    g: Graph, at: Location, names: seq<Text>, visited: set<Location>, rules: Rules, c: Candidate)
    requires IsFiniteGraph(g)
    ensures var w := WalkEntries(g, at, names, visited, rules);
      c in w.candidates <==> IsHandled(g, w.listed, rules, c) || IsAmong(g, at, names, rules, c)
    decreases g.directories - visited, 3, |names|
  {
    hide HandleEntry, WalkDirectory;
    if names != [] {
      var here := at + [names[0]];
      var first := WalkEntry(g, here, visited, rules);
      var rest := WalkEntries(g, at, names[1..], first.visited, rules);
      if g.kind(here).Directory? { DirectoryHandles(g, here, visited, rules, c); }
      EntriesHandle(g, at, names[1..], first.visited, rules, c);
      var listed := Then(first, rest).listed;
      assert forall l :: l in listed <==> l in first.listed || l in rest.listed;
      assert forall n :: n in names <==> n == names[0] || n in names[1..];
    }
  }

  // ---------- what is warned of ----------

  /** A warning about one of some names below `at`: a directory that cannot be resolved, or an entry that is skipped. */
  ghost predicate IsWarnedAmong(g: Graph, at: Location, names: seq<Text>, rules: Rules, w: Warning) {
    exists n <- names :: IsWarnedAt(g, at + [n], rules, w)
  }

  ghost predicate IsWarnedAt(g: Graph, at: Location, rules: Rules, w: Warning) {
    if g.kind(at).Directory? then g.realDirectory(at) == None && w == Unresolvable(at)
    else w in HandleEntry(g, at, rules).1
  }

  /** A warning about a listed directory that cannot be read, or about an entry of one that can. */
  ghost predicate IsWarned(g: Graph, listed: seq<Location>, rules: Rules, w: Warning) {
    exists l <- listed ::
      if g.list(l) == None then w == Unreadable(l) else IsWarnedAmong(g, l, g.list(l).value, rules, w)
  }

  lemma {:induction false} DirectoryWarns(g: Graph, at: Location, visited: set<Location>, rules: Rules, w: Warning)
    requires IsFiniteGraph(g) && !w.Cycle?
    ensures var walked := WalkDirectory(g, at, visited, rules);
      w in walked.warnings <==>
        (g.realDirectory(at) == None && w == Unresolvable(at)) || IsWarned(g, walked.listed, rules, w)
    decreases g.directories - visited, 1, 0
  {
    hide IsWarnedAt, SortNames, WalkEntries;
    var realAt, walked := g.realDirectory(at), WalkDirectory(g, at, visited, rules);
    if realAt.Some? && realAt.value !in visited {
      if g.list(at).Some? {
        assert realAt.value in g.directories - visited;
        var names := g.list(at).value;
        var rest := WalkEntries(g, at, SortNames(names), visited + {realAt.value}, rules);
        EntriesWarn(g, at, SortNames(names), visited + {realAt.value}, rules, w);
        forall n ensures n in SortNames(names) <==> n in names { SortedName(names, n); }
        assert IsWarnedAmong(g, at, SortNames(names), rules, w) <==> IsWarnedAmong(g, at, names, rules, w);
        assert forall l :: l in walked.listed <==> l == at || l in rest.listed;
      } else {
        assert walked.listed == [at];
      }
    }
  }

  lemma {:induction false} EntriesWarn(
    g: Graph, at: Location, names: seq<Text>, visited: set<Location>, rules: Rules, w: Warning)
    requires IsFiniteGraph(g) && !w.Cycle?
    ensures var walked := WalkEntries(g, at, names, visited, rules);
      w in walked.warnings <==> IsWarned(g, walked.listed, rules, w) || IsWarnedAmong(g, at, names, rules, w)
    decreases g.directories - visited, 3, |names|
  {
    hide HandleEntry, WalkDirectory;
    if names != [] {
      var here := at + [names[0]];
      var first := WalkEntry(g, here, visited, rules);
      var rest := WalkEntries(g, at, names[1..], first.visited, rules);
      if g.kind(here).Directory? { DirectoryWarns(g, here, visited, rules, w); }
      EntriesWarn(g, at, names[1..], first.visited, rules, w);
      var listed := Then(first, rest).listed;
      assert forall l :: l in listed <==> l in first.listed || l in rest.listed;
      assert forall n :: n in names <==> n == names[0] || n in names[1..];
    }
  }

  /** What the warnings about files and links mean. */
  lemma EntryWarnings(g: Graph, at: Location, rules: Rules, w: Warning)
    ensures w in HandleEntry(g, at, rules).1 <==>
      || (w == NoAccess(at) && g.kind(at) == Inaccessible)
      || (w == DanglingLink(at) && g.kind(at) == Symlink(Dangling))
      || (w == LinkedDirectory(at) && g.kind(at) == Symlink(DirectoryTarget))
      || (w == NotAFile(at) && g.kind(at) == Symlink(OtherTarget))
      || (w == BadPath(at)
          && (g.kind(at) == RegularFile || g.kind(at) == Symlink(FileTarget))
          && (ArtifactPaths.Canonicalize(Join(at, SLASH), rules.reserved).Ok? ==>
                Verdict(g, ArtifactPaths.Canonicalize(Join(at, SLASH), rules.reserved).value, rules) != Guard.Accepted))
  {
    hide ArtifactPaths.Canonicalize, Verdict, ExtensionOf;
  }

  /** The walk comes to this path, of a directory. */
  ghost predicate IsAsked(g: Graph, listed: seq<Location>, p: Location) {
    exists l <- listed :: g.list(l).Some? && IsDirectoryAmong(g, l, g.list(l).value, p)
  }

  ghost predicate IsDirectoryAmong(g: Graph, at: Location, names: seq<Text>, p: Location) {
    exists n <- names :: g.kind(at + [n]).Directory? && p == at + [n]
  }

  /** Listed, or reported as a cycle because its real directory has been visited. */
  ghost predicate IsSettledBy(g: Graph, walked: Walked, p: Location) {
    g.realDirectory(p).Some? ==> p in walked.listed || Cycle(p) in walked.warnings
  }

  ghost predicate IsCycleOf(g: Graph, visited: set<Location>, p: Location) {
    g.realDirectory(p).Some? && g.realDirectory(p).value in visited
  }

  lemma {:induction false} DirectoryCycles(g: Graph, at: Location, visited: set<Location>, rules: Rules, p: Location)
    requires IsFiniteGraph(g)
    ensures var walked := WalkDirectory(g, at, visited, rules);
      && (p == at || IsAsked(g, walked.listed, p) ==> IsSettledBy(g, walked, p))
      && (Cycle(p) in walked.warnings ==>
            (p == at || IsAsked(g, walked.listed, p)) && IsCycleOf(g, walked.visited, p))
    decreases g.directories - visited, 1, 0
  {
    hide HandleEntry, SortNames, WalkEntries;
    var realAt, walked := g.realDirectory(at), WalkDirectory(g, at, visited, rules);
    if realAt.Some? && realAt.value !in visited {
      if g.list(at).Some? {
        assert realAt.value in g.directories - visited;
        var names := g.list(at).value;
        var rest := WalkEntries(g, at, SortNames(names), visited + {realAt.value}, rules);
        EntriesCycle(g, at, SortNames(names), visited + {realAt.value}, rules, p);
        forall n ensures n in SortNames(names) <==> n in names { SortedName(names, n); }
        assert IsDirectoryAmong(g, at, SortNames(names), p) <==> IsDirectoryAmong(g, at, names, p);
        assert forall l :: l in walked.listed <==> l == at || l in rest.listed;
        assert IsAsked(g, walked.listed, p) <==> IsDirectoryAmong(g, at, names, p) || IsAsked(g, rest.listed, p);
      } else {
        assert walked.listed == [at];
      }
    }
  }

  lemma {:induction false} EntriesCycle(
    g: Graph, at: Location, names: seq<Text>, visited: set<Location>, rules: Rules, p: Location)
    requires IsFiniteGraph(g)
    ensures var walked := WalkEntries(g, at, names, visited, rules);
      && (IsDirectoryAmong(g, at, names, p) || IsAsked(g, walked.listed, p) ==> IsSettledBy(g, walked, p))
      && (Cycle(p) in walked.warnings ==>
            (IsDirectoryAmong(g, at, names, p) || IsAsked(g, walked.listed, p)) && IsCycleOf(g, walked.visited, p))
    decreases g.directories - visited, 3, |names|
  {
    hide WalkDirectory, HandleFile;
    if names != [] {
      var here := at + [names[0]];
      var first := WalkEntry(g, here, visited, rules);
      var rest := WalkEntries(g, at, names[1..], first.visited, rules);
      if g.kind(here).Directory? {
        DirectoryCycles(g, here, visited, rules, p);
      } else {
        NoCycleHere(g, here, rules, p);
      }
      EntriesCycle(g, at, names[1..], first.visited, rules, p);
      var listed := Then(first, rest).listed;
      assert forall l :: l in listed <==> l in first.listed || l in rest.listed;
      assert forall n :: n in names <==> n == names[0] || n in names[1..];
      assert IsDirectoryAmong(g, at, names, p) <==>
        (g.kind(here).Directory? && p == here) || IsDirectoryAmong(g, at, names[1..], p);
      assert IsAsked(g, listed, p) <==> IsAsked(g, first.listed, p) || IsAsked(g, rest.listed, p);
    }
  }

  lemma NoCycleHere(g: Graph, at: Location, rules: Rules, p: Location)
    ensures Cycle(p) !in HandleEntry(g, at, rules).1
  {
    hide ArtifactPaths.Canonicalize, Verdict, ExtensionOf;
  }

  // ---------- where the listed paths lead ----------

  /** A path of names leads from `at` through readable directories to a directory. */
  ghost predicate LeadsToDirectory(g: Graph, at: Location, names: seq<Text>)
    decreases |names|
  {
    && g.realDirectory(at).Some?
    && (names != [] ==>
          && g.list(at).Some? && names[0] in g.list(at).value
          && g.kind(at + [names[0]]).Directory? && LeadsToDirectory(g, at + [names[0]], names[1..]))
  }

  ghost predicate IsReached(g: Graph, at: Location, l: Location) { at <= l && LeadsToDirectory(g, at, l[|at|..]) }

  lemma ReachedThrough(g: Graph, at: Location, n: Text, l: Location)
    requires g.realDirectory(at).Some? && g.list(at).Some? && n in g.list(at).value
    requires g.kind(at + [n]).Directory? && IsReached(g, at + [n], l)
    ensures IsReached(g, at, l)
  {
    var names := l[|at|..];
    assert names[0] == l[|at|] == (at + [n])[|at|] == n;
    assert names[1..] == l[|at + [n]|..];
  }

  lemma {:induction false} DirectoryReaches(g: Graph, at: Location, visited: set<Location>, rules: Rules)
    requires IsFiniteGraph(g)
    ensures forall l <- WalkDirectory(g, at, visited, rules).listed :: IsReached(g, at, l)
    decreases g.directories - visited, 1, 0
  {
    hide HandleEntry, SortNames, WalkEntries;
    var realAt := g.realDirectory(at);
    if realAt.Some? && realAt.value !in visited {
      assert at[|at|..] == [];
      assert IsReached(g, at, at);
      if g.list(at).Some? {
        assert realAt.value in g.directories - visited;
        var names := g.list(at).value;
        forall n | n in SortNames(names) ensures n in names { SortedName(names, n); }
        EntriesReach(g, at, SortNames(names), visited + {realAt.value}, rules);
      }
    }
  }

  lemma {:induction false} EntriesReach(
    g: Graph, at: Location, names: seq<Text>, visited: set<Location>, rules: Rules)
    requires IsFiniteGraph(g)
    requires g.realDirectory(at).Some? && g.list(at).Some? && forall n <- names :: n in g.list(at).value
    ensures forall l <- WalkEntries(g, at, names, visited, rules).listed :: IsReached(g, at, l)
    decreases g.directories - visited, 3, |names|
  {
    hide HandleEntry, WalkDirectory, IsReached;
    if names != [] {
      var here := at + [names[0]];
      var first := WalkEntry(g, here, visited, rules);
      assert names[0] in names;
      if g.kind(here).Directory? {
        DirectoryReaches(g, here, visited, rules);
        forall l | l in first.listed ensures IsReached(g, at, l) { ReachedThrough(g, at, names[0], l); }
      }
      EntriesReach(g, at, names[1..], first.visited, rules);
    }
  }

  // ---------- every reachable directory is listed ----------

  /** Two paths of one directory show the same. */
  ghost predicate SameView(g: Graph, a: Location, b: Location) {
    && g.list(a) == g.list(b)
    && forall n: Text :: g.kind(a + [n]) == g.kind(b + [n]) && g.realDirectory(a + [n]) == g.realDirectory(b + [n])
  }

  /** What is seen below a directory depends on the real directory only. */
  ghost predicate DependsOnRealOnly(g: Graph) {
    forall a: Location, b: Location {:trigger SameView(g, a, b)} ::
      g.realDirectory(a).Some? && g.realDirectory(a) == g.realDirectory(b) ==> SameView(g, a, b)
  }

  /** The directories named in the listing of `l` are in `visited`. */
  ghost predicate ChildrenVisited(g: Graph, l: Location, names: seq<Text>, visited: set<Location>) {
    forall n <- names | g.kind(l + [n]).Directory? && g.realDirectory(l + [n]).Some? ::
      g.realDirectory(l + [n]).value in visited
  }

  /** A directory is dealt with, under one of its paths: unreadable, or all its children are visited. */
  ghost predicate IsDealtWith(g: Graph, d: Location, visited: set<Location>) {
    exists l: Location ::
      g.realDirectory(l) == Some(d) && (g.list(l).Some? ==> ChildrenVisited(g, l, g.list(l).value, visited))
  }

  ghost predicate NewOnesDealtWith(g: Graph, before: set<Location>, after: set<Location>) {
    forall d <- after - before :: IsDealtWith(g, d, after)
  }

  lemma DealtWithMonotone(g: Graph, d: Location, a: set<Location>, b: set<Location>)
    requires a <= b && IsDealtWith(g, d, a)
    ensures IsDealtWith(g, d, b)
  {
    var l: Location :| g.realDirectory(l) == Some(d) && (g.list(l).Some? ==> ChildrenVisited(g, l, g.list(l).value, a));
    assert g.list(l).Some? ==> ChildrenVisited(g, l, g.list(l).value, b);
  }

  lemma {:induction false} DirectoryDealsWithAll(g: Graph, at: Location, visited: set<Location>, rules: Rules)
    requires IsFiniteGraph(g)
    ensures var after := WalkDirectory(g, at, visited, rules).visited;
      && (g.realDirectory(at).Some? ==> g.realDirectory(at).value in after)
      && NewOnesDealtWith(g, visited, after)
    decreases g.directories - visited, 1, 0
  {
    hide HandleEntry, SortNames, WalkEntries;
    var realAt := g.realDirectory(at);
    if realAt.Some? && realAt.value !in visited {
      var d := realAt.value;
      if g.list(at).Some? {
        assert d in g.directories - visited;
        var listed := g.list(at).value;
        var after := WalkEntries(g, at, SortNames(listed), visited + {d}, rules).visited;
        EntriesDealWithAll(g, at, SortNames(listed), visited + {d}, rules);
        forall n | n in listed ensures n in SortNames(listed) { SortedName(listed, n); }
        assert ChildrenVisited(g, at, listed, after);
        assert IsDealtWith(g, d, after);
      } else {
        assert IsDealtWith(g, d, visited + {d});
      }
    }
  }

  lemma {:induction false} EntriesDealWithAll(
    g: Graph, at: Location, names: seq<Text>, visited: set<Location>, rules: Rules)
    requires IsFiniteGraph(g)
    ensures var after := WalkEntries(g, at, names, visited, rules).visited;
      ChildrenVisited(g, at, names, after) && NewOnesDealtWith(g, visited, after)
    decreases g.directories - visited, 3, |names|
  {
    hide HandleEntry, WalkDirectory;
    if names != [] {
      var here := at + [names[0]];
      var first := WalkEntry(g, here, visited, rules);
      var after := WalkEntries(g, at, names, visited, rules).visited;
      if g.kind(here).Directory? { DirectoryDealsWithAll(g, here, visited, rules); }
      EntriesDealWithAll(g, at, names[1..], first.visited, rules);
      assert names == [names[0]] + names[1..];
      forall d | d in after - visited ensures IsDealtWith(g, d, after) {
        if d in first.visited { DealtWithMonotone(g, d, first.visited, after); }
      }
    }
  }

  lemma {:induction false} ReachableIsVisited(g: Graph, at: Location, names: seq<Text>, visited: set<Location>)
    requires DependsOnRealOnly(g) && LeadsToDirectory(g, at, names)
    requires g.realDirectory(at).value in visited && forall d <- visited :: IsDealtWith(g, d, visited)
    ensures g.realDirectory(at + names).Some? && g.realDirectory(at + names).value in visited
    decreases |names|
  {
    if names == [] {
      assert at + names == at;
    } else {
      var here := at + [names[0]];
      assert IsDealtWith(g, g.realDirectory(at).value, visited);
      var l: Location :| g.realDirectory(l) == g.realDirectory(at)
        && (g.list(l).Some? ==> ChildrenVisited(g, l, g.list(l).value, visited));
      assert SameView(g, at, l);
      ReachableIsVisited(g, here, names[1..], visited);
      assert at + names == here + names[1..];
    }
  }

  /**
   * On every finite graph, with aliases and cycles, the walk asks for the entries of every reachable
   * real directory, under exactly one of the paths that lead there.
   */
  lemma EveryDirectoryListedOnce(g: Graph, rules: Rules, names: seq<Text>)
    requires IsFiniteGraph(g) && DependsOnRealOnly(g) && LeadsToDirectory(g, [], names)
    ensures var w := WalkDirectory(g, [], {}, rules);
      && g.realDirectory(names).Some?
      && (forall l <- w.listed :: LeadsToDirectory(g, [], l))
      && exists i | 0 <= i < |w.listed| ::
        && g.realDirectory(w.listed[i]) == g.realDirectory(names)
        && forall j | 0 <= j < |w.listed| && g.realDirectory(w.listed[j]) == g.realDirectory(names) :: j == i
  {
    hide WalkDirectory;
    var w := WalkDirectory(g, [], {}, rules);
    DirectoryListedOnce(g, [], {}, rules);
    DirectoryDealsWithAll(g, [], {}, rules);
    DirectoryReaches(g, [], {}, rules);
    forall l | l in w.listed ensures LeadsToDirectory(g, [], l) {
      assert IsReached(g, [], l);
      assert l[0..] == l;
    }
    assert forall d <- w.visited :: d in w.visited - {};
    ReachableIsVisited(g, [], names, w.visited);
    assert [] + names == names;
    var d := g.realDirectory(names).value;
    assert d in RealOnes(g, w.listed);
    var i :| 0 <= i < |w.listed| && g.realDirectory(w.listed[i]) == Some(d);
  }

  /**
   * Every file and link in every reachable real directory is handled under exactly one path: that of
   * its name below the one path under which the directory is listed.
   */
  lemma FileUnderOnePath(g: Graph, rules: Rules, names: seq<Text>, n: Text)
    requires IsFiniteGraph(g) && DependsOnRealOnly(g) && LeadsToDirectory(g, [], names) && IsEntry(g, names, n)
    ensures var w := WalkDirectory(g, [], {}, rules);
      exists l <- w.listed ::
        && g.realDirectory(l).Some? && g.realDirectory(l) == g.realDirectory(names) && IsEntry(g, l, n)
        && (forall k <- w.listed | g.realDirectory(k) == g.realDirectory(names) :: k == l)
        && (forall c <- HandleEntry(g, l + [n], rules).0 :: c in w.candidates)
  {
    hide WalkDirectory, HandleEntry;
    var w := WalkDirectory(g, [], {}, rules);
    EveryDirectoryListedOnce(g, rules, names);
    var i :| 0 <= i < |w.listed| && g.realDirectory(w.listed[i]) == g.realDirectory(names)
      && forall j | 0 <= j < |w.listed| && g.realDirectory(w.listed[j]) == g.realDirectory(names) :: j == i;
    var l := w.listed[i];
    assert SameView(g, l, names);
    forall c | c in HandleEntry(g, l + [n], rules).0 ensures c in w.candidates {
      DirectoryHandles(g, [], {}, rules, c);
      assert IsAmong(g, l, g.list(l).value, rules, c);
    }
  }

  /** Every candidate comes from an entry of a directory that can be reached. */
  lemma CandidateIsEntry(g: Graph, rules: Rules, c: Candidate) returns (l: Location, n: Text)
    requires IsFiniteGraph(g) && c in WalkDirectory(g, [], {}, rules).candidates
    ensures l in WalkDirectory(g, [], {}, rules).listed
    ensures LeadsToDirectory(g, [], l) && IsEntry(g, l, n) && c in HandleEntry(g, l + [n], rules).0
  {
    hide WalkDirectory, HandleEntry;
    DirectoryHandles(g, [], {}, rules, c);
    DirectoryReaches(g, [], {}, rules);
    l :| l in WalkDirectory(g, [], {}, rules).listed && g.list(l).Some? && IsAmong(g, l, g.list(l).value, rules, c);
    n :| n in g.list(l).value && !g.kind(l + [n]).Directory? && c in HandleEntry(g, l + [n], rules).0;
    assert IsReached(g, [], l);
    assert l[0..] == l;
  }

  /** Distinct lexical paths are distinct real directories: no aliases, and so no cycles. */
  ghost predicate HasNoAliases(g: Graph) {
    forall a: Location, b: Location ::
      g.realDirectory(a).Some? && g.realDirectory(a) == g.realDirectory(b) ==> a == b
  }

  /**
   * In a directory tree without aliases the walk collects exactly the files, or links to files, that
   * can be reached through readable directories, pass the path rules and have a relevant extension.
   */
  lemma WalkFindsExactly(g: Graph, rules: Rules, c: Candidate)
    requires IsFiniteGraph(g) && HasNoAliases(g)
    ensures c in WalkDirectory(g, [], {}, rules).candidates <==>
      exists l: Location, n: Text ::
        LeadsToDirectory(g, [], l) && IsEntry(g, l, n) && c in HandleEntry(g, l + [n], rules).0
  {
    hide WalkDirectory, HandleEntry;
    if c in WalkDirectory(g, [], {}, rules).candidates {
      var l, n := CandidateIsEntry(g, rules, c);
    }
    if l: Location, n: Text :|
      LeadsToDirectory(g, [], l) && IsEntry(g, l, n) && c in HandleEntry(g, l + [n], rules).0
    {
      FileUnderOnePath(g, rules, l, n);
      var k :| k in WalkDirectory(g, [], {}, rules).listed
        && g.realDirectory(k).Some? && g.realDirectory(k) == g.realDirectory(l)
        && forall c <- HandleEntry(g, k + [n], rules).0 :: c in WalkDirectory(g, [], {}, rules).candidates;
      assert k == l;
    }
  }

  /** Every candidate is a file, or a link to one, whose canonical path is safe, was accepted, and is relevant. */
  lemma CandidateIsLegitimate(g: Graph, rules: Rules, c: Candidate)
    requires IsFiniteGraph(g) && c in WalkDirectory(g, [], {}, rules).candidates
    ensures ArtifactPaths.Canonicalize(Join(c.location, SLASH), rules.reserved) == Ok(c.canonical)
    ensures ArtifactPaths.IsSafe(c.canonical, rules.reserved) && Verdict(g, c.canonical, rules) == Guard.Accepted
    ensures g.kind(c.location) == RegularFile || g.kind(c.location) == Symlink(FileTarget)
    ensures var e := rules.lower(ExtensionOf(c.canonical)); if c.isMap then e == MAP_EXTENSION else IsAssetExtension(e)
  {
    var l, n := CandidateIsEntry(g, rules, c);
    hide ArtifactPaths.Canonicalize, ArtifactPaths.IsSafe, WalkDirectory, Verdict;
    ArtifactPaths.AcceptedIsSafe(Join(c.location, SLASH), rules.reserved);
  }

  // ---------- containment of what is collected ----------

  /** The entry found by `lstat` below the real root. */
  ghost predicate IsThere(g: Graph, l: Location, e: Guard.Entry) {
    var found := Guard.LStat(g.files, g.root + l, g.limit);
    found.Found? && g.files[found.at] == e
  }

  /** The walk sees the files: the root is real, and kinds and listings are those of the file system. */
  ghost predicate ShowsFiles(g: Graph) {
    && Guard.RealPath(g.files, g.root, g.limit) == Guard.Found(g.root) && g.files[g.root].Directory?
    && (forall l, n | g.list(l).Some? && n in g.list(l).value :: Paths.IsPlain(n))
    && (forall l | g.kind(l) == RegularFile :: IsThere(g, l, Guard.RegularFile))
    && (forall l | g.kind(l) == Directory ::
          IsThere(g, l, Guard.Directory(true)) || IsThere(g, l, Guard.Directory(false)))
    && (forall l | g.kind(l) == Symlink(FileTarget) ::
          var file := Guard.RealPath(g.files, g.root + l, g.limit);
          file.Found? && g.files[file.at] == Guard.RegularFile)
  }

  /** What stands at a plain name in a real directory, if it is no link, is its own real path. */
  lemma RealBelow(g: Graph, l: Location, n: Text)
    requires Guard.RealPath(g.files, g.root + l, g.limit) == Guard.Found(g.root + l) && Paths.IsPlain(n)
    requires g.files[g.root + l].Directory?
    requires exists e :: IsThere(g, l + [n], e) && !e.Link?
    ensures var place := g.root + (l + [n]);
      && Guard.RealPath(g.files, place, g.limit) == Guard.Found(place)
      && IsThere(g, l + [n], g.files[place])
  {
    hide Guard.Walk;
    var dir, one: seq<Text> := g.root + l, [n];
    assert g.root + (l + [n]) == dir + one && [] + dir == dir;
    Guard.LocationsArePlain(g.files, dir);
    Guard.WalkThrough(g.files, [], dir, one, false, g.limit);
    Guard.WalkThrough(g.files, [], dir, one, true, g.limit);
    Guard.EntryIsReal(g.files, dir, n, g.limit);
  }

  /** A directory reached by the walk is its own real path. */
  lemma {:induction false} ReachedIsReal(g: Graph, at: Location, names: seq<Text>)
    requires ShowsFiles(g) && LeadsToDirectory(g, at, names)
    requires Guard.RealPath(g.files, g.root + at, g.limit) == Guard.Found(g.root + at)
    requires g.files[g.root + at].Directory?
    ensures Guard.RealPath(g.files, g.root + (at + names), g.limit) == Guard.Found(g.root + (at + names))
    ensures g.files[g.root + (at + names)].Directory?
    decreases |names|
  {
    hide Guard.Walk;
    if names == [] {
      assert at + names == at;
    } else {
      var here := at + [names[0]];
      assert g.kind(here) == Directory;
      RealBelow(g, at, names[0]);
      assert here + names[1..] == at + names;
      ReachedIsReal(g, here, names[1..]);
    }
  }

  /**
   * Every candidate has a real path, and it is a file. A regular file is its own real path, inside the
   * root. A link is inside the root if its path from the root is left alone by canonicalization: if it
   * is safe and has nothing to decode.
   */
  lemma CandidateIsContained(g: Graph, rules: Rules, c: Candidate)
    requires IsFiniteGraph(g) && ShowsFiles(g) && c in WalkDirectory(g, [], {}, rules).candidates
    ensures var place, name := g.root + c.location, Join(c.location, SLASH);
      && var file := Guard.RealPath(g.files, place, g.limit);
      && file.Found? && g.files[file.at] == Guard.RegularFile
      && (g.kind(c.location) == RegularFile ==> file.at == place)
      && (ArtifactPaths.IsSafe(name, rules.reserved) && PercentDecoding.Round(name) == name ==> g.root <= file.at)
  {
    hide Guard.Walk, ArtifactPaths.IsSafe, ArtifactPaths.Canonicalize, WalkDirectory, HandleEntry;
    var l, n := CandidateIsEntry(g, rules, c);
    CandidateIsLegitimate(g, rules, c);
    assert c.location == l + [n] by { HandledAtItself(g, l + [n], rules, c); }
    var name := Join(c.location, SLASH);
    assert g.root + [] == g.root && [] + l == l;
    ReachedIsReal(g, [], l);
    if g.kind(c.location) == RegularFile { RealBelow(g, l, n); }
    ArtifactPaths.FixedPointIff(name, rules.reserved);
    if ArtifactPaths.IsSafe(name, rules.reserved) && PercentDecoding.Round(name) == name {
      ReachedIsPlain(g, [], l);
      Guard.LocationsArePlain(g.files, g.root);
      Guard.ContainedUnderOwnName(g.files, g.root, c.location, g.limit, [], rules.reserved);
    }
  }

  lemma HandledAtItself(g: Graph, at: Location, rules: Rules, c: Candidate)
    requires c in HandleEntry(g, at, rules).0
    ensures c.location == at
  {}

  lemma {:induction false} ReachedIsPlain(g: Graph, at: Location, names: seq<Text>)
    requires ShowsFiles(g) && LeadsToDirectory(g, at, names)
    ensures Paths.ArePlain(names)
    decreases |names|
  {
    if names != [] { ReachedIsPlain(g, at + [names[0]], names[1..]); }
  }

  /**
   * The header promises that links out of the root are never uploaded. A link whose name changes when
   * it is canonicalized is: `/r/%61.map`, a link to a file outside `/r`, becomes the candidate `a.map`.
   */
  lemma EncodedLinkIsCollected(g: Graph, r: Text, upper: Text -> Text, lower: Text -> Text)
    requires Paths.IsPlain(r) && ArtifactPaths.UppersAscii(upper) && FixesLowerAscii(lower)
    requires g.root == [r] && g.files == Guard.PlantedLink([r], [ArtifactPaths.ENCODED_A]) && g.limit > 0
    requires g.kind([ArtifactPaths.ENCODED_A]) == Symlink(FileTarget)
    requires IsFiniteGraph(g) && g.realDirectory([]).Some? && g.list([]) == Some([ArtifactPaths.ENCODED_A])
    ensures var at, rules := [ArtifactPaths.ENCODED_A], Rules(ArtifactPaths.DeviceName(upper), lower);
      && Candidate(ArtifactPaths.A_MAP, at, true) in WalkDirectory(g, [], {}, rules).candidates
      && Guard.RealPath(g.files, g.root + at, g.limit) == Guard.Found([Guard.Outside([r])])
      && !(g.root <= [Guard.Outside([r])])
  {
    hide Guard.Guard, Guard.Walk, Guard.PlantedLink, ArtifactPaths.Canonicalize, ArtifactPaths.DeviceName;
    var at := [ArtifactPaths.ENCODED_A];
    Guard.EncodedLinkEscapes(r, g.limit, [], upper);
    assert Join(at, SLASH) == ArtifactPaths.ENCODED_A && [r] + at == [r, ArtifactPaths.ENCODED_A];
    MapExtensions(lower);
    var rules := Rules(ArtifactPaths.DeviceName(upper), lower);
    var c := Candidate(ArtifactPaths.A_MAP, at, true);
    assert HandleEntry(g, at, rules).0 == [c];
    hide HandleEntry;
    assert [] + at == at;
    assert IsAmong(g, [], at, rules, c);
    assert [] in WalkDirectory(g, [], {}, rules).listed;
    DirectoryHandles(g, [], {}, rules, c);
  }

  /** A root at `/r` with some entries of one kind and nothing below them. */
  function FlatGraph(files: Guard.FileTree, r: Text, names: seq<Text>, kind: EntryKind, limit: nat): Graph {
    Graph(
      {[r]},
      l => if l == [] then Some([r]) else None,
      l => if l == [] then Some(names) else None,
      l => if |l| == 1 && l[0] in names then kind else Special,
      files, [r], limit)
  }

  /** The graph of a directory with one link shows its files. */
  lemma PlantedLinkGraph(r: Text, name: Text, limit: nat) returns (g: Graph)
    requires Paths.IsPlain(r) && Paths.IsPlain(name) && limit > 0
    ensures IsFiniteGraph(g) && ShowsFiles(g) && g.root == [r] && g.limit == limit
    ensures g.files == Guard.PlantedLink([r], [name])
    ensures g.kind([name]) == Symlink(FileTarget)
    ensures g.realDirectory([]).Some? && g.list([]) == Some([name])
  {
    var files := Guard.PlantedLink([r], [name]);
    Guard.PlantedLinkIsTree([r], [name]);
    Guard.PlantedLinkEntries([r], [name]);
    Guard.PlantedLinkLeadsOut([r], [name], limit);
    assert ([r] + [name])[..1] == [r];
    hide Guard.PlantedLink, Guard.Walk, Guard.IsTree, Guard.Outside, Paths.IsPlain;
    g := FlatGraph(files, r, [name], Symlink(FileTarget), limit);
    forall l | g.kind(l) == Symlink(FileTarget) ensures l == [name] {}
  }

  /** The graph that `EncodedLinkIsCollected` is about exists, and it shows its files. */
  lemma EncodedLinkGraph(r: Text, limit: nat) returns (g: Graph)
    requires Paths.IsPlain(r) && limit > 0
    ensures IsFiniteGraph(g) && ShowsFiles(g) && g.root == [r] && g.limit == limit
    ensures g.files == Guard.PlantedLink([r], [ArtifactPaths.ENCODED_A])
    ensures g.kind([ArtifactPaths.ENCODED_A]) == Symlink(FileTarget)
    ensures g.realDirectory([]).Some? && g.list([]) == Some([ArtifactPaths.ENCODED_A])
  {
    hide ShowsFiles, IsFiniteGraph, Guard.PlantedLink;
    g := PlantedLinkGraph(r, ArtifactPaths.ENCODED_A, limit);
  }

  /** A directory that holds two files. */
  function TwoFiles(r: Text, x: Text, y: Text): Guard.FileSystem {
    map[
      [] := Guard.Directory(true), [r] := Guard.Directory(true),
      [r, x] := Guard.RegularFile, [r, y] := Guard.RegularFile]
  }

  lemma TwoFilesIsTree(r: Text, x: Text, y: Text)
    requires Paths.IsPlain(r) && Paths.IsPlain(x) && Paths.IsPlain(y)
    ensures Guard.IsTree(TwoFiles(r, x, y)) && Guard.IsReadableWithoutLinks(TwoFiles(r, x, y))
  {
    var fs := TwoFiles(r, x, y);
    assert [r, x][..1] == [r] && [r, y][..1] == [r] && [r][..0] == [];
    forall p | p in fs ensures Guard.IsPlaced(fs, p) {}
  }

  /** What the scan sees of it. */
  ghost predicate ShowsTwoFiles(g: Graph, r: Text, x: Text, y: Text) {
    && IsFiniteGraph(g) && g.root == [r] && g.files == TwoFiles(r, x, y)
    && g.kind([x]) == RegularFile && g.kind([y]) == RegularFile
    && g.realDirectory([]).Some? && g.list([]) == Some([x, y])
  }

  lemma TwoFilesGraph(r: Text, x: Text, y: Text, limit: nat) returns (g: Graph)
    requires Paths.IsPlain(r) && Paths.IsPlain(x) && Paths.IsPlain(y)
    ensures ShowsTwoFiles(g, r, x, y) && ShowsFiles(g) && g.limit == limit
  {
    TwoFilesIsTree(r, x, y);
    g := FlatGraph(TwoFiles(r, x, y), r, [x, y], RegularFile, limit);
    Guard.WalkPlain(g.files, [], [r], true, limit);
    assert [] + [r] == [r];
    forall l | g.kind(l) == RegularFile ensures IsThere(g, l, Guard.RegularFile) {
      var place := [r] + l;
      assert place == [r, l[0]] && [] + place == place;
      assert place == [r, x] || place == [r, y];
      Guard.WalkPlain(g.files, [], place, false, limit);
    }
  }

  /** The guard accepts whatever is canonicalized to a single name. */
  lemma NameIsAccepted(g: Graph, r: Text, x: Text, y: Text, path: Text, name: Text, rules: Rules)
    requires Paths.IsPlain(r) && Paths.IsPlain(x) && Paths.IsPlain(y) && ShowsTwoFiles(g, r, x, y)
    requires ArtifactPaths.Canonicalize(path, rules.reserved) == Ok(name) && SLASH !in name
    ensures Verdict(g, path, rules) == Guard.Accepted
  {
    hide ArtifactPaths.Canonicalize, Guard.Walk, Guard.Guard, IsFiniteGraph;
    TwoFilesIsTree(r, x, y);
    Paths.ResolveAbsolute([], [r]);
    Guard.GuardIsCompleteIff(g.files, g.limit, [], Paths.AbsoluteText([r]), path, rules.reserved);
    SplitFree(name, SLASH);
    assert [r] + [name][..0] == [r];
  }

  lemma ExamplePaths(upper: Text -> Text)
    requires ArtifactPaths.UppersAscii(upper)
    ensures var reserved := ArtifactPaths.DeviceName(upper);
      && ArtifactPaths.Canonicalize(ArtifactPaths.A_MAP, reserved) == Ok(ArtifactPaths.A_MAP)
      && ArtifactPaths.Canonicalize(ArtifactPaths.ENCODED_A, reserved) == Ok(ArtifactPaths.A_MAP)
      && ArtifactPaths.Canonicalize(ArtifactPaths.LAYERED, reserved) == Ok(ArtifactPaths.ENCODED_A)
      && ArtifactPaths.Canonicalize(ArtifactPaths.MORE_LAYERED, reserved) == Ok(ArtifactPaths.LAYERED)
  {
    hide ArtifactPaths.Canonicalize, ArtifactPaths.DeviceName;
    ArtifactPaths.UnsettledExample(upper);
    ArtifactPaths.SixLayers(upper);
    AMapIsFixed(upper);
  }

  lemma AMapIsFixed(upper: Text -> Text)
    requires ArtifactPaths.UppersAscii(upper)
    ensures ArtifactPaths.Canonicalize(ArtifactPaths.A_MAP, ArtifactPaths.DeviceName(upper)) == Ok(ArtifactPaths.A_MAP)
  {
    var reserved, name := ArtifactPaths.DeviceName(upper), ArtifactPaths.A_MAP;
    ArtifactPaths.ExampleNamesAreNoDevices(upper);
    assert ArtifactPaths.IsSimpleName(name, reserved);
    hide ArtifactPaths.DeviceName, ArtifactPaths.Canonicalize;
    ArtifactPaths.SimpleNameIsSafe(name, reserved);
    ArtifactPaths.SafeTextIsFixed(name, reserved);
  }

  /**
   * The files `a.map` and `%61.map` of one directory become two candidates with one canonical path: a
   * scan with a path twice.
   */
  lemma TwoNamesOnePath(g: Graph, r: Text, upper: Text -> Text, lower: Text -> Text)
    requires Paths.IsPlain(r) && ArtifactPaths.UppersAscii(upper) && FixesLowerAscii(lower)
    requires ShowsTwoFiles(g, r, ArtifactPaths.ENCODED_A, ArtifactPaths.A_MAP)
    ensures var a, e := ArtifactPaths.A_MAP, ArtifactPaths.ENCODED_A;
      var candidates := WalkDirectory(g, [], {}, Rules(ArtifactPaths.DeviceName(upper), lower)).candidates;
      Candidate(a, [a], true) in candidates && Candidate(a, [e], true) in candidates
  {
    var a, e := ArtifactPaths.A_MAP, ArtifactPaths.ENCODED_A;
    var rules := Rules(ArtifactPaths.DeviceName(upper), lower);
    assert Paths.IsPlain(a) && Paths.IsPlain(e);
    hide ArtifactPaths.Canonicalize, ArtifactPaths.DeviceName, Verdict, ExtensionOf, WalkDirectory, Paths.IsPlain;
    ExamplePaths(upper);
    MapExtensions(lower);
    NameIsAccepted(g, r, e, a, a, a, rules);
    CollectedFromRoot(g, a, rules, Candidate(a, [a], true));
    CollectedFromRoot(g, e, rules, Candidate(a, [e], true));
  }

  /**
   * The files `%25252561.map` and `%25252525252561.map` of one directory become candidates with the
   * paths `%61.map` and `%25252561.map`, of which canonicalizing the second once more gives the first.
   */
  lemma ShadowingDirectory(g: Graph, r: Text, upper: Text -> Text, lower: Text -> Text)
    requires Paths.IsPlain(r) && ArtifactPaths.UppersAscii(upper) && FixesLowerAscii(lower)
    requires ShowsTwoFiles(g, r, ArtifactPaths.LAYERED, ArtifactPaths.MORE_LAYERED)
    ensures var l, m := ArtifactPaths.LAYERED, ArtifactPaths.MORE_LAYERED;
      var candidates := WalkDirectory(g, [], {}, Rules(ArtifactPaths.DeviceName(upper), lower)).candidates;
      Candidate(ArtifactPaths.ENCODED_A, [l], true) in candidates && Candidate(l, [m], true) in candidates
  {
    var e, l, m := ArtifactPaths.ENCODED_A, ArtifactPaths.LAYERED, ArtifactPaths.MORE_LAYERED;
    var rules := Rules(ArtifactPaths.DeviceName(upper), lower);
    assert Paths.IsPlain(l) && Paths.IsPlain(m);
    hide ArtifactPaths.Canonicalize, ArtifactPaths.DeviceName, Verdict, ExtensionOf, WalkDirectory, Paths.IsPlain;
    ExamplePaths(upper);
    MapExtensions(lower);
    NameIsAccepted(g, r, l, m, e, ArtifactPaths.A_MAP, rules);
    NameIsAccepted(g, r, l, m, l, e, rules);
    CollectedFromRoot(g, l, rules, Candidate(e, [l], true));
    CollectedFromRoot(g, m, rules, Candidate(l, [m], true));
  }

  lemma CollectedFromRoot(g: Graph, name: Text, rules: Rules, c: Candidate)
    requires IsFiniteGraph(g) && g.realDirectory([]).Some? && g.list([]).Some? && name in g.list([]).value
    requires g.kind([name]) == RegularFile && c.location == [name]
    requires ArtifactPaths.Canonicalize(name, rules.reserved) == Ok(c.canonical)
    requires Verdict(g, c.canonical, rules) == Guard.Accepted
    requires rules.lower(ExtensionOf(c.canonical)) == MAP_EXTENSION && c.isMap
    ensures c in WalkDirectory(g, [], {}, rules).candidates
  {
    hide Verdict, ArtifactPaths.Canonicalize, ExtensionOf;
    assert Join([name], SLASH) == name;
    assert HandleEntry(g, [name], rules).0 == [c];
    hide HandleEntry;
    assert [] + [name] == [name];
    assert IsAmong(g, [], g.list([]).value, rules, c);
    assert [] in WalkDirectory(g, [], {}, rules).listed;
    DirectoryHandles(g, [], {}, rules, c);
  }

  lemma ExtensionIsMap(stem: Text)
    requires stem != [] && DOT !in stem && SLASH !in stem
    ensures ExtensionOf(stem + [DOT] + ['m' as int, 'a' as int, 'p' as int]) == MAP_EXTENSION
  {
    var ext: Text := ['m' as int, 'a' as int, 'p' as int];
    var none: Text := [];
    SplitFree(stem + [DOT] + ext, SLASH);
    ExtensionIs(stem + [DOT] + ext, none, stem, ext);
    assert MAP_EXTENSION == [DOT] + ext;
  }

  /** The extension is what follows the last dot of the last segment, with the dot, if the dot is not first or last. */
  lemma ExtensionIs(path: Text, directory: Text, stem: Text, extension: Text)
    requires stem != [] && SLASH !in stem && SLASH !in extension && DOT !in extension
    requires path == stem + [DOT] + extension || path == directory + [SLASH] + (stem + [DOT] + extension)
    ensures ExtensionOf(path) == if extension == [] then [] else [DOT] + extension
  {
    var base := stem + [DOT] + extension;
    SplitFree(base, SLASH);
    if path != base { SplitConcat(directory, base, SLASH); }
    SplitConcat(stem, extension, DOT);
    SplitFree(extension, DOT);
    if |Split(stem, DOT)| == 1 {
      JoinSplit(stem, DOT);
    }
  }

  lemma NoExtension(path: Text, directory: Text, base: Text)
    requires SLASH !in base && (DOT !in base || (base[0] == DOT && DOT !in base[1..]))
    requires path == base || path == directory + [SLASH] + base
    ensures ExtensionOf(path) == []
  {
    SplitFree(base, SLASH);
    if path != base { SplitConcat(directory, base, SLASH); }
    if DOT !in base {
      SplitFree(base, DOT);
    } else {
      SplitFree(base[1..], DOT);
    }
  }

  /** What a scan takes by extension, if the path and its place are accepted: these four and no others. */
  lemma ExtensionDecides(g: Graph, at: Location, rules: Rules)
    requires ArtifactPaths.Canonicalize(Join(at, SLASH), rules.reserved).Ok?
    requires Verdict(g, ArtifactPaths.Canonicalize(Join(at, SLASH), rules.reserved).value, rules) == Guard.Accepted
    ensures var c := ArtifactPaths.Canonicalize(Join(at, SLASH), rules.reserved).value;
      var extension := rules.lower(ExtensionOf(c));
      HandleFile(g, at, rules) ==
        if extension == Lit(".map") then ([Candidate(c, at, true)], [])
        else if extension in {Lit(".js"), Lit(".mjs"), Lit(".cjs")} then ([Candidate(c, at, false)], [])
        else ([], [])
  {
    hide Verdict, ArtifactPaths.Canonicalize, ExtensionOf;
    assert Lit(".map") != Lit(".js") && Lit(".map")[1] != Lit(".mjs")[2] && Lit(".map")[1] != Lit(".cjs")[2];
    assert Lit(".map")[2] != Lit(".mjs")[2] && Lit(".map")[2] != Lit(".cjs")[2];
  }

  lemma AExtension()
    ensures ExtensionOf(ArtifactPaths.A_MAP) == MAP_EXTENSION && SLASH !in ArtifactPaths.A_MAP
  {
    ExtensionIsMap(['a' as int]);
    assert ArtifactPaths.A_MAP == ['a' as int] + [DOT] + ['m' as int, 'a' as int, 'p' as int];
    hide ExtensionOf;
  }

  lemma EncodedExtension()
    ensures ExtensionOf(ArtifactPaths.ENCODED_A) == MAP_EXTENSION && SLASH !in ArtifactPaths.ENCODED_A
  {
    ExtensionIsMap([PERCENT, '6' as int, '1' as int]);
    assert ArtifactPaths.ENCODED_A
      == [PERCENT, '6' as int, '1' as int] + [DOT] + ['m' as int, 'a' as int, 'p' as int];
    hide ExtensionOf;
  }

  lemma LayeredExtension()
    ensures ExtensionOf(ArtifactPaths.LAYERED) == MAP_EXTENSION
  {
    hide ExtensionOf, ArtifactPaths.LAYERED, ArtifactPaths.LAYERED_STEM;
    ArtifactPaths.LayeredParts();
    assert ArtifactPaths.LAYERED_STEM != [] by { StemIsThere(); }
    ExtensionIsMap(ArtifactPaths.LAYERED_STEM);
  }

  lemma StemIsThere()
    ensures ArtifactPaths.LAYERED_STEM != []
  {}

  lemma MapExtensions(lower: Text -> Text)
    requires FixesLowerAscii(lower)
    ensures lower(ExtensionOf(ArtifactPaths.A_MAP)) == MAP_EXTENSION && SLASH !in ArtifactPaths.A_MAP
    ensures lower(ExtensionOf(ArtifactPaths.ENCODED_A)) == MAP_EXTENSION && SLASH !in ArtifactPaths.ENCODED_A
    ensures lower(ExtensionOf(ArtifactPaths.LAYERED)) == MAP_EXTENSION
  {
    hide ExtensionOf;
    AExtension();
    EncodedExtension();
    LayeredExtension();
    assert lower(MAP_EXTENSION) == MAP_EXTENSION;
  }

  // ---------- the walk as it runs ----------

  class Walker {
    const graph: Graph
    const rules: Rules
    var visitedDirs: set<Location>
    var candidates: seq<Candidate>
    var warnings: seq<Warning>
    // The paths of the directories whose entries were asked for, in order.
    ghost var listed: seq<Location>

    constructor (graph: Graph, rules: Rules)
      ensures this.graph == graph && this.rules == rules
      ensures visitedDirs == {} && candidates == [] && warnings == [] && listed == []
    {
      this.graph, this.rules := graph, rules;
      visitedDirs, candidates, warnings, listed := {}, [], [], [];
    }

    /** Everything gathered so far. */
    ghost function Gathered(): Walked
      reads this
    {
      Walked(visitedDirs, listed, candidates, warnings)
    }

    method Walk(current: Location)
      requires IsFiniteGraph(graph)
      modifies this
      ensures Gathered() == Then(old(Gathered()), WalkDirectory(graph, current, old(visitedDirs), rules))
      decreases graph.directories - visitedDirs, 0
    {
      hide HandleEntry, SortNames, WalkEntries;
      var realCurrent := graph.realDirectory(current);
      if realCurrent == None {
        warnings := warnings + [Unresolvable(current)];
        return;
      }
      if realCurrent.value in visitedDirs {
        warnings := warnings + [Cycle(current)];
        return;
      }
      visitedDirs := visitedDirs + {realCurrent.value};
      listed := listed + [current];
      var entries := graph.list(current);
      if entries == None {
        warnings := warnings + [Unreadable(current)];
        return;
      }
      assert realCurrent.value in graph.directories - old(visitedDirs);
      var names := SortNames(entries.value);
      ThenAssociative(old(Gathered()), Walked(visitedDirs, [current], [], []),
                      WalkEntries(graph, current, names, visitedDirs, rules));
      TakeEntries(current, names);
    }

    /** The loop over the entries of a directory. */
    method TakeEntries(current: Location, names: seq<Text>)
      requires IsFiniteGraph(graph)
      modifies this
      ensures Gathered() == Then(old(Gathered()), WalkEntries(graph, current, names, old(visitedDirs), rules))
      decreases graph.directories - visitedDirs, 1
    {
      hide HandleEntry, WalkDirectory, SortNames;
      var i := 0;
      while i < |names|
        invariant i <= |names| && old(visitedDirs) <= visitedDirs
        invariant Then(Gathered(), WalkEntries(graph, current, names[i..], visitedDirs, rules))
          == Then(old(Gathered()), WalkEntries(graph, current, names, old(visitedDirs), rules))
      {
        var here := current + [names[i]];
        assert names[i..][0] == names[i] && names[i..][1..] == names[i + 1..];
        ghost var step := WalkEntry(graph, here, visitedDirs, rules);
        ThenAssociative(Gathered(), step, WalkEntries(graph, current, names[i + 1..], step.visited, rules));
        if graph.kind(here).Directory? {
          Walk(here);
        } else {
          var (cs, ws) := HandleEntry(graph, here, rules);
          candidates := candidates + cs;
          warnings := warnings + ws;
        }
        i := i + 1;
      }
      assert names[i..] == [];
    }
  }
}
