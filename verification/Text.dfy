/** JavaScript strings, finite sequences of UTF-16 code units with lone surrogates included, and bytes. */
module JsText {
  type Unit = n: int | 0 <= n < 0x10000
  type Text = seq<Unit>
  type Byte = n: int | 0 <= n < 0x100

  const SLASH: Unit := '/' as int
  const BACKSLASH: Unit := '\\' as int
  const DOT: Unit := '.' as int
  const HYPHEN: Unit := '-' as int
  const UNDERSCORE: Unit := '_' as int
  const PERCENT: Unit := '%' as int

  /** The text of a literal; characters that take two units do not occur in literals here. */
  function Lit(s: string): Text {
    seq<Unit>(|s|, i requires 0 <= i < |s| => if s[i] as int < 0x10000 then s[i] as int else 0xFFFD)
  }

  predicate IsDigit(c: Unit) { '0' as int <= c <= '9' as int }
  predicate IsLower(c: Unit) { 'a' as int <= c <= 'z' as int }
  predicate IsUpper(c: Unit) { 'A' as int <= c <= 'Z' as int }
  predicate IsHex(c: Unit) { IsDigit(c) || 'a' as int <= c <= 'f' as int || 'A' as int <= c <= 'F' as int }

  /** What `toLowerCase` does to text that has no upper-case and no non-ASCII unit: nothing. */
  ghost predicate FixesLowerAscii(lower: Text -> Text) {
    forall s: Text :: (forall c <- s :: c < 0x80 && !IsUpper(c)) ==> lower(s) == s
  }

  predicate StartsWith(s: Text, prefix: Text) { prefix <= s }

  predicate EndsWith(s: Text, suffix: Text) {
    |suffix| <= |s| && s[|s| - |suffix|..] == suffix
  }

  lemma AppendAssociative<T>(a: seq<T>, b: seq<T>, c: seq<T>)
    ensures a + (b + c) == (a + b) + c
  {}

  lemma HeadOfAppend<T>(a: seq<T>, b: seq<T>)
    requires a != []
    ensures (a + b)[0] == a[0] && (a + b)[1..] == a[1..] + b
  {}

  /** `s.split(sep)` for a one-unit separator. */
  function Split(s: Text, sep: Unit): (parts: seq<Text>)
    ensures |parts| > 0
    ensures forall p <- parts :: sep !in p
  {
    if s == [] then [[]]
    else if s[0] == sep then [[]] + Split(s[1..], sep)
    else
      var rest := Split(s[1..], sep);
      [[s[0]] + rest[0]] + rest[1..]
  }

  /** `parts.join(sep)`. */
  function Join(parts: seq<Text>, sep: Unit): Text {
    if |parts| == 0 then []
    else if |parts| == 1 then parts[0]
    else parts[0] + [sep] + Join(parts[1..], sep)
  }

  lemma {:induction false} JoinSplit(s: Text, sep: Unit)
    ensures Join(Split(s, sep), sep) == s
  {
    if s != [] {
      var rest := Split(s[1..], sep);
      JoinSplit(s[1..], sep);
      if s[0] == sep {
        assert Split(s, sep)[1..] == rest;
        assert s == [sep] + s[1..];
      } else {
        assert Split(s, sep)[1..] == rest[1..];
        if |rest| > 1 {
          assert s == [s[0]] + (rest[0] + [sep] + Join(rest[1..], sep));
        }
      }
    }
  }

  lemma {:induction false} SplitFree(s: Text, sep: Unit)
    requires sep !in s
    ensures Split(s, sep) == [s]
  {
    if s != [] {
      SplitFree(s[1..], sep);
      assert s == [s[0]] + s[1..];
    }
  }

  /** Splitting a text whose first separator is known. */
  lemma {:induction false} SplitAt(a: Text, b: Text, sep: Unit)
    requires sep !in a
    ensures Split(a + [sep] + b, sep) == [a] + Split(b, sep)
  {
    var s := a + [sep] + b;
    if a == [] {
      assert s[1..] == b;
    } else {
      assert s[1..] == a[1..] + [sep] + b;
      SplitAt(a[1..], b, sep);
      assert a == [a[0]] + a[1..];
    }
  }

  lemma {:induction false} SplitJoin(parts: seq<Text>, sep: Unit)
    requires |parts| > 0
    requires forall p <- parts :: sep !in p
    ensures Split(Join(parts, sep), sep) == parts
  {
    if |parts| == 1 {
      SplitFree(parts[0], sep);
    } else {
      SplitJoin(parts[1..], sep);
      SplitAt(parts[0], Join(parts[1..], sep), sep);
      assert parts == [parts[0]] + parts[1..];
    }
  }

  lemma {:induction false} SplitConcat(a: Text, b: Text, sep: Unit)
    ensures Split(a + [sep] + b, sep) == Split(a, sep) + Split(b, sep)
  {
    var s := a + [sep] + b;
    if a == [] {
      assert s[1..] == b;
    } else {
      SplitConcat(a[1..], b, sep);
      assert s[0] == a[0] && s[1..] == a[1..] + [sep] + b;
      var rest, after := Split(a[1..], sep), Split(b, sep);
      if a[0] == sep {
        AppendAssociative([[]], rest, after);
      } else {
        HeadOfAppend(rest, after);
        AppendAssociative([[a[0]] + rest[0]], rest[1..], after);
      }
    }
  }

  /** A start without separators stays in front of the first part. */
  lemma {:induction false} SplitPrefixed(a: Text, b: Text, sep: Unit)
    requires sep !in a
    ensures Split(a + b, sep) == [a + Split(b, sep)[0]] + Split(b, sep)[1..]
  {
    if a == [] {
      assert a + b == b && a + Split(b, sep)[0] == Split(b, sep)[0];
      assert [Split(b, sep)[0]] + Split(b, sep)[1..] == Split(b, sep);
    } else {
      SplitPrefixed(a[1..], b, sep);
      assert (a + b)[1..] == a[1..] + b;
      AppendAssociative([a[0]], a[1..], Split(b, sep)[0]);
      assert a == [a[0]] + a[1..];
    }
  }

  lemma {:induction false} JoinMore(parts: seq<Text>, last: Text, sep: Unit)
    requires parts != []
    ensures Join(parts + [last], sep) == Join(parts, sep) + [sep] + last
  {
    var all := parts + [last];
    if |parts| == 1 {
      assert all[1..] == [last];
    } else {
      JoinMore(parts[1..], last, sep);
      assert all[0] == parts[0] && all[1..] == parts[1..] + [last];
      var rest := Join(parts[1..], sep);
      assert parts[0] + [sep] + (rest + [sep] + last) == (parts[0] + [sep] + rest) + [sep] + last;
    }
  }

  lemma {:induction false} JoinPrefix(a: seq<Text>, b: seq<Text>, sep: Unit)
    requires a <= b
    ensures |Join(a, sep)| <= |Join(b, sep)|
    ensures |Join(a, sep)| == |Join(b, sep)| && a != [] ==> a == b
  {
    if |a| > 1 {
      JoinPrefix(a[1..], b[1..], sep);
      assert a == [a[0]] + a[1..] && b == [b[0]] + b[1..];
    }
  }

  /** Code-unit order, the order of `<` on JavaScript strings. */
  predicate Less(a: Text, b: Text) {
    if b == [] then false
    else if a == [] then true
    else a[0] < b[0] || (a[0] == b[0] && Less(a[1..], b[1..]))
  }

  lemma {:induction false} LessTotal(a: Text, b: Text)
    ensures Less(a, b) || a == b || Less(b, a)
    ensures !(Less(a, b) && Less(b, a))
    ensures !Less(a, a)
  {
    if a != [] { LessTotal(a[1..], a[1..]); }
    if a != [] && b != [] {
      LessTotal(a[1..], b[1..]);
      assert a == [a[0]] + a[1..] && b == [b[0]] + b[1..];
    }
  }

  lemma {:induction false} LessTransitive(a: Text, b: Text, c: Text)
    requires Less(a, b) && Less(b, c)
    ensures Less(a, c)
  {
    if a != [] && b != [] && c != [] && a[0] == b[0] && b[0] == c[0] {
      LessTransitive(a[1..], b[1..], c[1..]);
    }
  }
}
