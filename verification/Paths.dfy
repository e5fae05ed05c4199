/**
 * The POSIX path operations the sources call: `path.resolve`, `path.relative`, and the escape test
 * that is made on the result of the latter. An absolute path is handled as its segments.
 */
module Paths {
  import opened JsText

  const DOTDOT: Text := [DOT, DOT]

  /** An ordinary path segment: what a directory entry can be called. */
  predicate IsPlain(seg: Text) {
    seg != [] && SLASH !in seg && seg != [DOT] && seg != DOTDOT
  }

  predicate ArePlain(segs: seq<Text>) { forall s <- segs :: IsPlain(s) }

  predicate IsAbsolute(p: Text) { p != [] && p[0] == SLASH }

  /** Normalization: empty and `.` segments vanish, `..` removes what precedes it, if anything does. */
  function Normalize(done: seq<Text>, segs: seq<Text>): (r: seq<Text>)
    requires ArePlain(done)
    requires forall s <- segs :: SLASH !in s
    ensures ArePlain(r)
    decreases |segs|
  {
    if segs == [] then done
    else if segs[0] == [] || segs[0] == [DOT] then Normalize(done, segs[1..])
    else if segs[0] == DOTDOT then Normalize(if done == [] then [] else done[..|done| - 1], segs[1..])
    else Normalize(done + [segs[0]], segs[1..])
  }

  function AbsoluteText(segs: seq<Text>): Text { [SLASH] + Join(segs, SLASH) }

  /** The arguments of `path.resolve` from the last absolute one on; the working directory comes first. */
  function Gather(cwd: Text, args: seq<Text>): Text {
    if args == [] then cwd
    else
      var last := args[|args| - 1];
      if IsAbsolute(last) then last
      else if last == [] then Gather(cwd, args[..|args| - 1])
      else Gather(cwd, args[..|args| - 1]) + [SLASH] + last
  }

  /** The segments of `path.resolve(...args)`. */
  function Resolve(cwd: Text, args: seq<Text>): (r: seq<Text>)
    ensures ArePlain(r)
  {
    Normalize([], Split(Gather(cwd, args), SLASH))
  }

  function Common(a: seq<Text>, b: seq<Text>): (n: nat)
    ensures n <= |a| && n <= |b|
    ensures n == |a| <==> a <= b
  {
    if a != [] && b != [] && a[0] == b[0] then 1 + Common(a[1..], b[1..]) else 0
  }

  function RelativeSegments(a: seq<Text>, b: seq<Text>): seq<Text> {
    seq(|a| - Common(a, b), _ => DOTDOT) + b[Common(a, b)..]
  }

  /** `path.relative` between two resolved paths. */
  function Relative(a: seq<Text>, b: seq<Text>): Text { Join(RelativeSegments(a, b), SLASH) }

  predicate Escapes(relative: Text) {
    || relative == DOTDOT
    || StartsWith(relative, DOTDOT + [SLASH])
    || IsAbsolute(relative)
  }

  // ---------- what they mean ----------

  lemma {:induction false} NormalizeAppend(done: seq<Text>, a: seq<Text>, b: seq<Text>)
    requires ArePlain(done)
    requires forall s <- a + b :: SLASH !in s
    ensures (forall s <- a :: SLASH !in s) && (forall s <- b :: SLASH !in s)
    ensures Normalize(done, a + b) == Normalize(Normalize(done, a), b)
    decreases |a|
  {
    forall s | s in a || s in b ensures SLASH !in s { assert s in a + b; }
    if a == [] {
      assert a + b == b;
    } else {
      assert (a + b)[0] == a[0] && (a + b)[1..] == a[1..] + b;
      var next :=
        if a[0] == [] || a[0] == [DOT] then done
        else if a[0] == DOTDOT then (if done == [] then [] else done[..|done| - 1])
        else done + [a[0]];
      NormalizeAppend(next, a[1..], b);
    }
  }

  lemma {:induction false} NormalizePlain(done: seq<Text>, segs: seq<Text>)
    requires ArePlain(done) && ArePlain(segs)
    ensures Normalize(done, segs) == done + segs
    decreases |segs|
  {
    if segs != [] {
      assert IsPlain(segs[0]);
      NormalizePlain(done + [segs[0]], segs[1..]);
      assert done + [segs[0]] + segs[1..] == done + segs;
    }
  }

  /** Resolving ordinary segments below any root appends exactly those segments. */
  lemma {:induction false} ResolveAppends(cwd: Text, root: Text, segs: seq<Text>)
    requires ArePlain(segs)
    ensures Resolve(cwd, [root] + segs) == Resolve(cwd, [root]) + segs
  {
    hide Normalize, Split;
    var args := [root] + segs;
    if segs == [] {
      assert args == [root];
    } else {
      var init, last := segs[..|segs| - 1], segs[|segs| - 1];
      ResolveAppends(cwd, root, init);
      assert args[..|args| - 1] == [root] + init;
      var g := Gather(cwd, [root] + init);
      assert IsPlain(last);
      SplitConcat(g, last, SLASH);
      SplitFree(last, SLASH);
      NormalizeAppend([], Split(g, SLASH), [last]);
      NormalizePlain(Resolve(cwd, [root] + init), [last]);
      assert segs == init + [last];
    }
  }

  /** The text of a resolved path resolves to itself. */
  lemma ResolveAbsolute(cwd: Text, segs: seq<Text>)
    requires ArePlain(segs)
    ensures Resolve(cwd, [AbsoluteText(segs)]) == segs
  {
    var t := AbsoluteText(segs);
    assert t == [] + [SLASH] + Join(segs, SLASH);
    SplitConcat([], Join(segs, SLASH), SLASH);
    if segs == [] {
      var none: seq<Text> := [[], []];
      assert Split(t, SLASH) == none;
      assert none[1..][1..] == [];
    } else {
      SplitJoin(segs, SLASH);
      assert Split(t, SLASH) == [[]] + segs;
      NormalizePlain([], segs);
    }
  }

  /** A root that is not absolute is taken from the working directory, an absolute one is not. */
  lemma ResolveRelative(cwd: seq<Text>, root: Text)
    requires ArePlain(cwd)
    ensures Resolve(AbsoluteText(cwd), [root]) == Normalize(if IsAbsolute(root) then [] else cwd, Split(root, SLASH))
  {
    var t := AbsoluteText(cwd);
    ResolveAbsolute([], cwd);
    if root == [] {
      assert [root][..0] == [];
      assert Gather(t, [root]) == t;
      assert Normalize(cwd, [[]]) == Normalize(cwd, [[]][1..]);
    } else if !IsAbsolute(root) {
      assert [root][..0] == [];
      assert Gather(t, [root]) == t + [SLASH] + root;
      SplitConcat(t, root, SLASH);
      NormalizeAppend([], Split(t, SLASH), Split(root, SLASH));
    }
  }

  /** `..` is the directory above, `.` and nothing the one itself. */
  lemma ResolveDots(cwd: seq<Text>, name: Text)
    requires ArePlain(cwd) && IsPlain(name)
    ensures Resolve(AbsoluteText(cwd + [name]), [Lit("..")]) == cwd
    ensures Resolve(AbsoluteText([]), [Lit("..")]) == []
    ensures Resolve(AbsoluteText(cwd), [Lit(".")]) == cwd && Resolve(AbsoluteText(cwd), [[]]) == cwd
    ensures Resolve(AbsoluteText(cwd), [name]) == cwd + [name]
  {
    var two, one, none: Text := Lit(".."), Lit("."), [];
    assert two == DOTDOT && one == [DOT];
    SplitFree(two, SLASH);
    SplitFree(one, SLASH);
    SplitFree(none, SLASH);
    SplitFree(name, SLASH);
    ResolveRelative(cwd + [name], two);
    ResolveRelative([], two);
    ResolveRelative(cwd, one);
    ResolveRelative(cwd, none);
    ResolveRelative(cwd, name);
    var nothing: seq<Text> := [];
    assert [two][1..] == nothing && [one][1..] == nothing && [none][1..] == nothing;
    NormalizePlain(cwd, [name]);
    assert (cwd + [name])[..|cwd|] == cwd;
  }

  lemma EscapeStartsBadly(t: Text)
    ensures Escapes(t) ==> !IsPlain(Split(t, SLASH)[0])
  {
    SplitFree(DOTDOT, SLASH);
    if StartsWith(t, DOTDOT + [SLASH]) {
      SplitAt(DOTDOT, t[3..], SLASH);
      assert t == DOTDOT + [SLASH] + t[3..];
    }
  }

  /** The three-way escape test on a relative path is exactly "not below the root". */
  lemma EscapesIff(a: seq<Text>, b: seq<Text>)
    requires ArePlain(a) && ArePlain(b)
    ensures Escapes(Relative(a, b)) <==> !(a <= b)
    ensures Relative(a, b) == [] <==> a == b
  {
    var rel, n := RelativeSegments(a, b), Common(a, b);
    if rel == [] {
      assert a <= b;
      assert b == a + b[n..];
    } else {
      var t := Join(rel, SLASH);
      assert rel[0] == if n < |a| then DOTDOT else b[n];
      assert |rel| == 1 ==> t == rel[0];
      assert |rel| > 1 ==> t[..|rel[0]| + 1] == rel[0] + [SLASH];
      assert n < |b| ==> b[n] in b;
      assert rel[0] != [];
      assert t[0] == rel[0][0];
      assert a == b ==> a <= b && n == |a| == |b|;
      if n == |a| {
        assert rel == b[n..];
        forall p | p in rel ensures IsPlain(p) { assert p in b; }
        SplitJoin(rel, SLASH);
        EscapeStartsBadly(t);
      }
    }
  }

  lemma {:induction false} CommonBelow(a: seq<Text>, segs: seq<Text>)
    ensures Common(a, a + segs) == |a|
    ensures RelativeSegments(a, a + segs) == segs
  {
    assert a <= a + segs;
  }

  lemma JoinInjective(a: seq<Text>, b: seq<Text>)
    requires ArePlain(a) && ArePlain(b)
    requires AbsoluteText(a) == AbsoluteText(b)
    ensures a == b
  {
    ResolveAbsolute([], a);
    ResolveAbsolute([], b);
  }
}
