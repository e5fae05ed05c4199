/**
 * `normalizeSlugValue` of packages/contracts/src/slug.ts: one pass over the code points, against
 * the staged pipeline that its header describes. `toLowerCase` is a parameter.
 */
module Slug {
  import opened JsText
  import Utf8

  /** The characters matched by `\s`, which are also those removed by `trim`. */
  predicate IsWhitespace(c: Unit) {
    || 0x09 <= c <= 0x0D || c == 0x20 || c == 0xA0 || c == 0x1680 || 0x2000 <= c <= 0x200A
    || c == 0x2028 || c == 0x2029 || c == 0x202F || c == 0x205F || c == 0x3000 || c == 0xFEFF
  }

  predicate IsSlugUnit(c: Unit) { IsLower(c) || IsDigit(c) || c == HYPHEN }

  // ---------- the stages ----------

  function TrimStart(s: Text): Text {
    if s != [] && IsWhitespace(s[0]) then TrimStart(s[1..]) else s
  }

  function TrimEnd(s: Text): Text {
    if s != [] && IsWhitespace(s[|s| - 1]) then TrimEnd(s[..|s| - 1]) else s
  }

  function Trim(s: Text): Text { TrimEnd(TrimStart(s)) }

  function SeparatorsToHyphen(s: Text): Text {
    seq<Unit>(|s|, i requires 0 <= i < |s| => if s[i] == UNDERSCORE || IsWhitespace(s[i]) then HYPHEN else s[i])
  }

  function DropOthers(s: Text): Text {
    if s == [] then []
    else DropOthers(s[..|s| - 1]) + (if IsSlugUnit(s[|s| - 1]) then [s[|s| - 1]] else [])
  }

  function CollapseHyphens(s: Text): Text {
    if s == [] then []
    else
      var init, c := CollapseHyphens(s[..|s| - 1]), s[|s| - 1];
      if c == HYPHEN && init != [] && init[|init| - 1] == HYPHEN then init else init + [c]
  }

  function StripStart(s: Text): Text {
    if s != [] && s[0] == HYPHEN then StripStart(s[1..]) else s
  }

  function StripEnd(s: Text): Text {
    if s != [] && s[|s| - 1] == HYPHEN then StripEnd(s[..|s| - 1]) else s
  }

  /** Every stage after lower-casing but the last. */
  function Open(s: Text): Text { StripStart(CollapseHyphens(DropOthers(SeparatorsToHyphen(s)))) }

  function Staged(lowered: Text): Text { StripEnd(Open(lowered)) }

  /** Trim, lower-case, separators to hyphens, drop the rest, collapse hyphens, strip both ends. */
  function Pipeline(input: Text, lower: Text -> Text): Text { Staged(lower(Trim(input))) }

  // ---------- the single pass ----------

  predicate EndsOpen(out: Text) { out == [] || out[|out| - 1] == HYPHEN }

  lemma {:induction false} StripStartAppend(s: Text, c: Unit)
    ensures StripStart(s + [c]) == if StripStart(s) == [] && c == HYPHEN then [] else StripStart(s) + [c]
  {
    if s == [] {
      assert [c][1..] == [];
    } else if s[0] == HYPHEN {
      StripStartAppend(s[1..], c);
      assert (s + [c])[1..] == s[1..] + [c];
    }
  }

  /** Stripping the start keeps the last unit unless it removes everything. */
  lemma {:induction false} StripStartLast(s: Text)
    ensures StripStart(s) != [] ==> s != [] && StripStart(s)[|StripStart(s)| - 1] == s[|s| - 1]
    ensures StripStart(s) == [] && s != [] ==> s[|s| - 1] == HYPHEN
  {
    if s != [] && s[0] == HYPHEN { StripStartLast(s[1..]); }
  }

  lemma OpenEmpty()
    ensures Open([]) == []
  {}

  /** One more unit of input: exactly what the loop body does with it. */
  lemma OpenAppend(s: Text, c: Unit)
    ensures Open(s + [c]) ==
      if IsLower(c) || IsDigit(c) then Open(s) + [c]
      else if (c == HYPHEN || c == UNDERSCORE || IsWhitespace(c)) && !EndsOpen(Open(s)) then Open(s) + [HYPHEN]
      else Open(s)
  {
    var m := SeparatorsToHyphen(s);
    var c' := SeparatorsToHyphen([c])[0];
    assert SeparatorsToHyphen(s + [c]) == m + [c'];
    assert (m + [c'])[..|m|] == m;
    var d := DropOthers(m);
    if IsSlugUnit(c') {
      assert DropOthers(m + [c']) == d + [c'];
      assert (d + [c'])[..|d|] == d;
      StripStartAppend(CollapseHyphens(d), c');
      StripStartLast(CollapseHyphens(d));
    } else {
      assert DropOthers(m + [c']) == d;
    }
  }

  /** `Open` leaves at most one hyphen at the end. */
  lemma {:induction false} OpenShape(s: Text)
    ensures forall c <- Open(s) :: IsSlugUnit(c)
    ensures Open(s) != [] ==> Open(s)[0] != HYPHEN
    ensures forall i | 0 <= i < |Open(s)| - 1 :: !(Open(s)[i] == HYPHEN && Open(s)[i + 1] == HYPHEN)
  {
    if s != [] {
      hide SeparatorsToHyphen, DropOthers, CollapseHyphens, StripStart;
      var init, c := s[..|s| - 1], s[|s| - 1];
      assert s == init + [c];
      OpenShape(init);
      OpenAppend(init, c);
    }
  }

  /** The units of the code point at `i`: a surrogate pair is visited as one. */
  function CodePointEnd(s: Text, i: nat): (j: nat)
    requires i < |s|
    ensures i < j <= |s| && j <= i + 2
  {
    if Utf8.IsHighSurrogate(s[i]) && i + 1 < |s| && Utf8.IsLowSurrogate(s[i + 1]) then i + 2 else i + 1
  }

  /** The next code point of the input: a surrogate pair adds nothing, a single unit as in `OpenAppend`. */
  lemma OpenVisit(s: Text, i: nat)
    requires i < |s|
    ensures var j, c, out := CodePointEnd(s, i), s[i], Open(s[..i]);
      Open(s[..j]) ==
        if j == i + 1 && (IsLower(c) || IsDigit(c)) then out + [c]
        else if (c == HYPHEN || c == UNDERSCORE || IsWhitespace(c)) && !EndsOpen(out) then out + [HYPHEN]
        else out
  {
    hide Open;
    OpenAppend(s[..i], s[i]);
    assert s[..i] + [s[i]] == s[..i + 1];
    if CodePointEnd(s, i) == i + 2 {
      OpenAppend(s[..i + 1], s[i + 1]);
      assert s[..i + 1] + [s[i + 1]] == s[..i + 2];
    }
  }

  method NormalizeSlugValue(input: Text, lower: Text -> Text) returns (out: Text)
    ensures out == Pipeline(input, lower)
  {
    hide Open;
    var lowered := lower(Trim(input));
    out := [];
    var lastWasHyphen := true;
    var i := 0;
    OpenEmpty();
    assert lowered[..0] == [];
    while i < |lowered|
      invariant i <= |lowered|
      invariant out == Open(lowered[..i])
      invariant lastWasHyphen == EndsOpen(out)
    {
      var j := CodePointEnd(lowered, i);
      var ch := lowered[i..j];
      if |ch| == 1 && (IsLower(ch[0]) || IsDigit(ch[0])) {
        out := out + ch;
        lastWasHyphen := false;
      } else if ch == [HYPHEN] || ch == [UNDERSCORE] || IsWhitespace(ch[0]) {
        if !lastWasHyphen {
          out := out + [HYPHEN];
          lastWasHyphen := true;
        }
      }
      OpenVisit(lowered, i);
      i := j;
    }
    assert lowered[..i] == lowered;
    OpenShape(lowered);
    if lastWasHyphen && EndsWith(out, [HYPHEN]) {
      assert out[..|out| - 1] == StripEnd(out);
      out := out[..|out| - 1];
    }
  }

  // ---------- trimming ----------

  lemma {:induction false} TrimStartRemoves(s: Text) returns (n: nat)
    ensures n <= |s| && TrimStart(s) == s[n..]
    ensures forall c <- s[..n] :: IsWhitespace(c)
    ensures n < |s| ==> !IsWhitespace(s[n])
  {
    if s != [] && IsWhitespace(s[0]) {
      var m := TrimStartRemoves(s[1..]);
      n := m + 1;
      assert s[..n] == [s[0]] + s[1..][..m];
      assert s[1..][m..] == s[n..];
    } else {
      n := 0;
    }
  }

  lemma {:induction false} TrimEndRemoves(s: Text) returns (n: nat)
    ensures n <= |s| && TrimEnd(s) == s[..n]
    ensures forall c <- s[n..] :: IsWhitespace(c)
    ensures n > 0 ==> !IsWhitespace(s[n - 1])
  {
    if s != [] && IsWhitespace(s[|s| - 1]) {
      n := TrimEndRemoves(s[..|s| - 1]);
      assert s[n..] == s[..|s| - 1][n..] + [s[|s| - 1]];
    } else {
      n := |s|;
    }
  }

  /** `trim` removes white space from both ends, all of it and nothing else. */
  lemma TrimRemoves(s: Text) returns (before: Text, after: Text)
    ensures s == before + Trim(s) + after
    ensures (forall c <- before :: IsWhitespace(c)) && (forall c <- after :: IsWhitespace(c))
    ensures Trim(s) != [] ==> !IsWhitespace(Trim(s)[0]) && !IsWhitespace(Trim(s)[|Trim(s)| - 1])
  {
    var i := TrimStartRemoves(s);
    var rest := TrimStart(s);
    var j := TrimEndRemoves(rest);
    before, after := s[..i], rest[j..];
    assert rest == rest[..j] + rest[j..];
    assert s == s[..i] + s[i..];
    AppendAssociative(before, Trim(s), after);
  }

  // ---------- the slug language ----------

  /** Lower-case letters and digits, in groups separated by single hyphens. */
  ghost predicate IsSlug(s: Text) {
    && s != [] && (forall c <- s :: IsSlugUnit(c))
    && s[0] != HYPHEN && s[|s| - 1] != HYPHEN
    && forall i | 0 <= i < |s| - 1 :: !(s[i] == HYPHEN && s[i + 1] == HYPHEN)
  }

  /** Every result is empty or a slug. */
  lemma NormalizedIsSlug(input: Text, lower: Text -> Text)
    ensures Pipeline(input, lower) == [] || IsSlug(Pipeline(input, lower))
  {
    hide Open;
    var open := Open(lower(Trim(input)));
    OpenShape(lower(Trim(input)));
    if open != [] && open[|open| - 1] == HYPHEN {
      assert StripEnd(open) == open[..|open| - 1];
    }
  }

  /** A prefix of a slug passes every stage but the last unchanged. */
  lemma {:induction false} OpenOfSlugPrefix(s: Text, n: nat)
    requires IsSlug(s) && n <= |s|
    ensures Open(s[..n]) == s[..n]
  {
    hide Open;
    if n == 0 {
      OpenEmpty();
      assert s[..0] == [];
    } else {
      OpenOfSlugPrefix(s, n - 1);
      OpenAppend(s[..n - 1], s[n - 1]);
      assert s[..n - 1] + [s[n - 1]] == s[..n];
      assert IsSlugUnit(s[n - 1]);
      assert n > 1 ==> !(s[n - 2] == HYPHEN && s[n - 2 + 1] == HYPHEN);
    }
  }

  /** Every slug, and the empty string, is its own normal form: the image is exactly these. */
  lemma SlugIsNormal(s: Text, lower: Text -> Text)
    requires s == [] || IsSlug(s)
    requires FixesLowerAscii(lower)
    ensures Pipeline(s, lower) == s
  {
    if s == [] {
      assert Open([]) == [];
    } else {
      OpenOfSlugPrefix(s, |s|);
      assert s[..|s|] == s;
      assert IsSlugUnit(s[0]) && IsSlugUnit(s[|s| - 1]);
      assert Trim(s) == s;
      assert lower(s) == s;
    }
  }

  /** Normalizing twice is normalizing once. */
  lemma NormalizeIdempotent(input: Text, lower: Text -> Text)
    requires FixesLowerAscii(lower)
    ensures Pipeline(Pipeline(input, lower), lower) == Pipeline(input, lower)
  {
    NormalizedIsSlug(input, lower);
    SlugIsNormal(Pipeline(input, lower), lower);
  }

  // ---------- words ----------

  lemma WhitespaceIs(c: Unit)
    ensures IsWhitespace(c) <==>
      c in {0x09, 0x0A, 0x0B, 0x0C, 0x0D, 0x20, 0xA0, 0x1680, 0x2000, 0x2001, 0x2002, 0x2003, 0x2004, 0x2005, 0x2006,
            0x2007, 0x2008, 0x2009, 0x200A, 0x2028, 0x2029, 0x202F, 0x205F, 0x3000, 0xFEFF}
  {}

  predicate IsWordUnit(c: Unit) { 0x61 <= c <= 0x7A || 0x30 <= c <= 0x39 }

  predicate IsSeparator(c: Unit) { c == 0x2D || c == 0x5F || IsWhitespace(c) }

  /** The letters and digits between separators; other characters do not count. The last word may go on. */
  function ReadWords(s: Text): (seq<Text>, Text) {
    if s == [] then ([], [])
    else
      var (words, word) := ReadWords(s[..|s| - 1]);
      var c := s[|s| - 1];
      if IsWordUnit(c) then (words, word + [c])
      else if IsSeparator(c) && word != [] then (words + [word], [])
      else (words, word)
  }

  function Words(s: Text): seq<Text> {
    var (words, word) := ReadWords(s);
    if word == [] then words else words + [word]
  }

  /** What has been read, with a hyphen after every finished word. */
  function Hyphened(words: seq<Text>, word: Text): Text {
    if words == [] then word else Join(words, HYPHEN) + [HYPHEN] + word
  }

  ghost predicate AreWords(words: seq<Text>) { forall w <- words :: w != [] && HYPHEN !in w }

  lemma {:induction false} OpenIsHyphened(s: Text)
    ensures var (words, word) := ReadWords(s);
      AreWords(words) && HYPHEN !in word && Open(s) == Hyphened(words, word)
  {
    hide Open, Join;
    if s == [] {
      OpenEmpty();
    } else {
      var init, c := s[..|s| - 1], s[|s| - 1];
      var (words, word) := ReadWords(init);
      OpenIsHyphened(init);
      OpenAppend(init, c);
      assert init + [c] == s;
      var out := Hyphened(words, word);
      assert word != [] ==> out[|out| - 1] == word[|word| - 1] && word[|word| - 1] in word;
      if IsWordUnit(c) {
        assert out + [c] == Hyphened(words, word + [c]);
      } else if IsSeparator(c) && word != [] {
        HyphenedMore(words, word);
      }
    }
  }

  lemma HyphenedMore(words: seq<Text>, word: Text)
    ensures Hyphened(words + [word], []) == Hyphened(words, word) + [HYPHEN]
  {
    if words == [] {
      assert words + [word] == [word];
    } else {
      JoinMore(words, word, HYPHEN);
    }
  }

  lemma {:induction false} JoinedEndsInWord(words: seq<Text>)
    requires AreWords(words) && words != []
    ensures Join(words, HYPHEN) != [] && Join(words, HYPHEN)[|Join(words, HYPHEN)| - 1] != HYPHEN
  {
    if |words| == 1 {
      assert words[0] in words && words[0][|words[0]| - 1] in words[0];
    } else {
      assert forall w <- words[1..] :: w in words;
      JoinedEndsInWord(words[1..]);
    }
  }

  /** The normal form is the lower-cased words, joined by hyphens. */
  lemma WordsAreJoined(input: Text, lower: Text -> Text)
    ensures Pipeline(input, lower) == Join(Words(lower(Trim(input))), HYPHEN)
  {
    hide Open, Join;
    var s := lower(Trim(input));
    var (words, word) := ReadWords(s);
    OpenIsHyphened(s);
    var open := Open(s);
    if word == [] {
      if words == [] {
        assert Join([], HYPHEN) == [] by { JoinNothing(); }
      } else {
        JoinedEndsInWord(words);
        assert open == Join(words, HYPHEN) + [HYPHEN];
        assert open[..|open| - 1] == Join(words, HYPHEN);
        assert StripEnd(Join(words, HYPHEN)) == Join(words, HYPHEN);
      }
    } else {
      assert word[|word| - 1] in word && open[|open| - 1] == word[|word| - 1];
      if words == [] {
        assert words + [word] == [word];
        JoinSingle(word);
      } else {
        JoinMore(words, word, HYPHEN);
      }
    }
  }

  lemma JoinNothing()
    ensures Join([], HYPHEN) == []
  {}

  lemma JoinSingle(word: Text)
    ensures Join([word], HYPHEN) == word
  {}

  /** What `toLowerCase` does to ASCII text. */
  ghost predicate LowersAscii(lower: Text -> Text) {
    forall s: Text :: (forall c <- s :: c < 0x80) ==> lower(s) == AsciiLower(s)
  }

  function AsciiLower(s: Text): Text {
    seq<Unit>(|s|, i requires 0 <= i < |s| => if 0x41 <= s[i] <= 0x5A then s[i] + 0x20 else s[i])
  }

  /** Of ASCII text: the words of the trimmed text, in lower case. */
  lemma AsciiWords(input: Text, lower: Text -> Text)
    requires LowersAscii(lower) && forall c <- input :: c < 0x80
    ensures Pipeline(input, lower) == Join(Words(AsciiLower(Trim(input))), HYPHEN)
  {
    hide Pipeline, Words, Trim;
    var before, after := TrimRemoves(input);
    assert forall c <- Trim(input) :: c in input;
    WordsAreJoined(input, lower);
  }

  /** `My App` becomes `my-app`. */
  lemma MyApp(lower: Text -> Text)
    requires LowersAscii(lower)
    ensures Pipeline(Lit("My App"), lower) == Lit("my-app")
  {
    hide Pipeline;
    hide Words, ReadWords, Trim;
    var s, t := Lit("My App"), Lit("my app");
    AsciiWords(s, lower);
    assert Trim(s) == s by { NothingToTrim(s); }
    assert AsciiLower(s) == t;
    MyAppWords();
    assert Join([Lit("my"), Lit("app")], HYPHEN) == Lit("my") + [HYPHEN] + Join([Lit("app")], HYPHEN);
  }

  lemma NothingToTrim(s: Text)
    requires s != [] && !IsWhitespace(s[0]) && !IsWhitespace(s[|s| - 1])
    ensures Trim(s) == s
  {}

  lemma ReadMore(s: Text, c: Unit)
    ensures ReadWords(s + [c]) ==
      var (words, word) := ReadWords(s);
      if IsWordUnit(c) then (words, word + [c])
      else if IsSeparator(c) && word != [] then (words + [word], [])
      else (words, word)
  {
    assert (s + [c])[..|s|] == s;
  }

  lemma MyAppWords()
    ensures Words(Lit("my app")) == [Lit("my"), Lit("app")]
  {
    hide ReadWords;
    var none: Text := [];
    assert ReadWords(none) == ([], []) by { NothingRead(); }
    ReadMore(none, 'm' as int);
    ReadMore(Lit("m"), 'y' as int);
    ReadMore(Lit("my"), ' ' as int);
    ReadMore(Lit("my "), 'a' as int);
    ReadMore(Lit("my a"), 'p' as int);
    ReadMore(Lit("my ap"), 'p' as int);
    assert none + ['m' as int] == Lit("m") && Lit("m") + ['y' as int] == Lit("my");
    assert Lit("my") + [' ' as int] == Lit("my ");
    assert Lit("my ") + ['a' as int] == Lit("my a") && Lit("my a") + ['p' as int] == Lit("my ap");
    assert Lit("my ap") + ['p' as int] == Lit("my app");
    assert none + ['a' as int] + ['p' as int] + ['p' as int] == Lit("app");
  }

  lemma NothingRead()
    ensures ReadWords([]) == ([], [])
  {}
}
