/** `serializeParams` and the keys built from it (apps/web/lib/queries.ts). */
module QueryKeys {
  import opened JsText
  import opened Sorting

  const AMPERSAND: Unit := '&' as int
  const EQUALS: Unit := '=' as int

  /** A parameter value; `shown` is what `String()` makes of a number. */
  datatype Value = Str(s: Text) | Num(shown: Text) | Bool(b: bool) | Other

  datatype Entry = Entry(key: Text, value: Value)

  /** The entries of an object: no key twice. */
  ghost predicate HasDistinctKeys(params: seq<Entry>) {
    forall i, j | 0 <= i < j < |params| :: params[i].key != params[j].key
  }

  function Shown(v: Value): Text
    requires !v.Other?
  {
    match v
    case Str(s) => s
    case Num(shown) => shown
    case Bool(b) => if b then Lit("true") else Lit("false")
  }

  type Pair = (Text, Text)

  /** The entries that count, as key and `String(value)`. */
  function Kept(params: seq<Entry>): seq<Pair> {
    if params == [] then []
    else
      var rest, last := Kept(params[..|params| - 1]), params[|params| - 1];
      if last.value.Other? then rest else rest + [(last.key, Shown(last.value))]
  }

  function KeyOf(p: Pair): Text { p.0 }

  /** The entries that count, in key order. */
  function Fields(params: seq<Entry>): seq<Pair> { Sort(Kept(params), KeyOf) }

  function Show(p: Pair): Text { p.0 + [EQUALS] + p.1 }

  function ShowAll(pairs: seq<Pair>): seq<Text> { seq(|pairs|, i requires 0 <= i < |pairs| => Show(pairs[i])) }

  function Shared(pairs: seq<Pair>): Text { Join(ShowAll(pairs), AMPERSAND) }

  function Serialize(params: seq<Entry>): Text { Shared(Fields(params)) }

  // ---------- independent of field order ----------

  lemma HasElement(b: seq<Pair>)
    requires b != []
    ensures exists q :: q in b
  {
    assert b[0] in b;
  }

  /** Strictly ascending sequences with the same elements are the same. */
  lemma {:induction false} AscendingUnique(a: seq<Pair>, b: seq<Pair>)
    requires IsAscending(a, KeyOf) && IsAscending(b, KeyOf)
    requires forall q :: q in a <==> q in b
    ensures a == b
    decreases |a|
  {
    if a == [] {
      if b != [] { HasElement(b); }
    } else {
      assert a[0] in a && b != [];
      HeadsAgree(a, b);
      HeadsAgree(b, a);
      LessTotal(a[0].0, b[0].0);
      var j :| 0 <= j < |b| && b[j] == a[0];
      assert j == 0;
      forall q ensures q in a[1..] <==> q in b[1..] {
        TailOf(a, q);
        TailOf(b, q);
      }
      AscendingUnique(a[1..], b[1..]);
      assert a == [a[0]] + a[1..] && b == [b[0]] + b[1..];
    }
  }

  lemma HeadsAgree(a: seq<Pair>, b: seq<Pair>)
    requires a != [] && b != [] && IsAscending(a, KeyOf) && forall q :: q in a <==> q in b
    ensures !Less(b[0].0, a[0].0)
  {
    assert b[0] in b;
    var i :| 0 <= i < |a| && a[i] == b[0];
    LessTotal(a[0].0, a[i].0);
  }

  lemma TailOf(a: seq<Pair>, q: Pair)
    requires a != [] && IsAscending(a, KeyOf)
    ensures q in a[1..] <==> q in a && q != a[0]
  {
    if q in a[1..] {
      var i :| 0 < i < |a| && a[i] == q;
      LessTotal(a[0].0, a[i].0);
    }
  }

  lemma {:induction false} KeptOnce(params: seq<Entry>)
    requires HasDistinctKeys(params)
    ensures AreKeysDistinct(Kept(params), KeyOf)
    ensures forall q <- Kept(params) :: exists e <- params :: e.key == q.0
  {
    if params != [] {
      var init, last := params[..|params| - 1], params[|params| - 1];
      KeptOnce(init);
      assert params == init + [last];
      forall q | q in Kept(init) ensures q.0 != last.key {
        var e :| e in init && e.key == q.0;
      }
    }
  }

  lemma {:induction false} KeptContains(params: seq<Entry>, q: Pair)
    ensures q in Kept(params) <==> exists e <- params :: !e.value.Other? && q == (e.key, Shown(e.value))
  {
    if params != [] {
      var init, last := params[..|params| - 1], params[|params| - 1];
      KeptContains(init, q);
      assert params == init + [last];
    }
  }

  /** The same fields in any order give the same text. */
  lemma OrderDoesNotMatter(a: seq<Entry>, b: seq<Entry>)
    requires HasDistinctKeys(a) && HasDistinctKeys(b)
    requires forall e :: e in a <==> e in b
    ensures Serialize(a) == Serialize(b)
  {
    FieldsOf(a);
    FieldsOf(b);
    forall q ensures q in Kept(a) <==> q in Kept(b) {
      KeptContains(a, q);
      KeptContains(b, q);
    }
    AscendingUnique(Fields(a), Fields(b));
  }

  // ---------- reading a text back ----------

  function FirstEquals(piece: Text): (n: nat)
    requires EQUALS in piece
    ensures n < |piece| && piece[n] == EQUALS && EQUALS !in piece[..n]
  {
    if piece[0] == EQUALS then 0
    else
      var n := FirstEquals(piece[1..]);
      assert piece[..n + 1] == [piece[0]] + piece[1..][..n];
      n + 1
  }

  /** What a piece with a `=` says: the key before its first `=`, and the rest. */
  function Cut(piece: Text): (p: Pair)
    requires EQUALS in piece
    ensures Show(p) == piece
  {
    var n := FirstEquals(piece);
    (piece[..n], piece[n + 1..])
  }

  lemma CutOfShow(p: Pair, rest: Text)
    requires EQUALS !in p.0
    ensures EQUALS in Show(p) + rest && Cut(Show(p) + rest) == (p.0, p.1 + rest)
  {
    var piece, tail := Show(p) + rest, p.1 + rest;
    assert piece == p.0 + ([EQUALS] + tail);
    assert piece[|p.0|] == EQUALS;
    var n := FirstEquals(piece);
    assert forall i | 0 <= i < |p.0| :: piece[i] == p.0[i];
    assert forall i | 0 <= i < n :: piece[i] == piece[..n][i];
    assert n == |p.0|;
    assert piece[..n] == p.0;
    assert piece[n + 1..] == tail;
  }

  /** The finest reading of the pieces between `&`: each piece with a `=` starts an entry. */
  function Read(pieces: seq<Text>): (r: seq<Pair>)
    requires pieces != [] ==> EQUALS in pieces[0]
    ensures pieces != [] ==> r != []
  {
    if pieces == [] then []
    else
      var init, last := Read(pieces[..|pieces| - 1]), pieces[|pieces| - 1];
      if EQUALS in last then init + [Cut(last)] else Longer(init, last)
  }

  /** The last value goes on, with an `&` in it. */
  function Longer(pairs: seq<Pair>, more: Text): seq<Pair>
    requires pairs != []
  {
    var p := pairs[|pairs| - 1];
    pairs[..|pairs| - 1] + [(p.0, p.1 + [AMPERSAND] + more)]
  }

  ghost predicate IsReadable(text: Text) { text != [] ==> EQUALS in Split(text, AMPERSAND)[0] }

  function Reading(text: Text): seq<Pair>
    requires IsReadable(text)
  {
    if text == [] then [] else Read(Split(text, AMPERSAND))
  }

  /** Keys hold neither `=` nor `&`. */
  ghost predicate HasCleanKeys(pairs: seq<Pair>) {
    forall q <- pairs :: EQUALS !in q.0 && AMPERSAND !in q.0
  }

  /** No `=` after an `&`. */
  ghost predicate IsCleanValue(v: Text) {
    forall i | 0 < i < |Split(v, AMPERSAND)| :: EQUALS !in Split(v, AMPERSAND)[i]
  }

  ghost predicate HasCleanValues(pairs: seq<Pair>) { forall q <- pairs :: IsCleanValue(q.1) }

  ghost predicate IsClean(pairs: seq<Pair>) { HasCleanKeys(pairs) && HasCleanValues(pairs) }

  lemma SharedOfMore(init: seq<Pair>, p: Pair)
    ensures Shared(init + [p]) == if init == [] then Show(p) else Shared(init) + [AMPERSAND] + Show(p)
  {
    assert ShowAll(init + [p]) == ShowAll(init) + [Show(p)];
    if init != [] { JoinMore(ShowAll(init), Show(p), AMPERSAND); }
  }

  /** Reading loses nothing. */
  lemma {:induction false} SharedOfRead(pieces: seq<Text>)
    requires pieces != [] && EQUALS in pieces[0]
    ensures Shared(Read(pieces)) == Join(pieces, AMPERSAND)
  {
    hide Cut;
    var before, last := pieces[..|pieces| - 1], pieces[|pieces| - 1];
    var init := Read(before);
    assert pieces == before + [last];
    if before != [] {
      SharedOfRead(before);
      JoinMore(before, last, AMPERSAND);
    }
    if EQUALS in last {
      SharedOfMore(init, Cut(last));
    } else {
      SharedOfLonger(init, last);
    }
  }

  /** More of the last value is more of the text. */
  lemma SharedOfLonger(init: seq<Pair>, more: Text)
    requires init != []
    ensures Shared(Longer(init, more)) == Shared(init) + [AMPERSAND] + more
  {
    hide Shared;
    var p, front := init[|init| - 1], init[..|init| - 1];
    var longer := (p.0, p.1 + [AMPERSAND] + more);
    assert init == front + [p];
    SharedOfMore(front, p);
    SharedOfMore(front, longer);
    assert Show(longer) == Show(p) + [AMPERSAND] + more;
    if front != [] { AppendAssociative(Shared(front) + [AMPERSAND], Show(p), [AMPERSAND] + more); }
  }

  lemma SharedOfReading(text: Text)
    requires IsReadable(text)
    ensures Shared(Reading(text)) == text
  {
    if text != [] {
      SharedOfRead(Split(text, AMPERSAND));
      JoinSplit(text, AMPERSAND);
    }
  }

  /** What is read has clean keys and clean values. */
  lemma {:induction false} ReadIsClean(pieces: seq<Text>)
    requires pieces != [] ==> EQUALS in pieces[0]
    requires forall t <- pieces :: AMPERSAND !in t
    ensures IsClean(Read(pieces))
  {
    if pieces != [] {
      var before, last := pieces[..|pieces| - 1], pieces[|pieces| - 1];
      assert last in pieces;
      ReadIsClean(before);
      var init := Read(before);
      if EQUALS in last {
        var p := Cut(last);
        assert Show(p) == last;
        assert forall c <- p.1 :: c in last;
        SplitFree(p.1, AMPERSAND);
      } else {
        var p := init[|init| - 1];
        assert p in init;
        SplitConcat(p.1, last, AMPERSAND);
        SplitFree(last, AMPERSAND);
        assert IsCleanValue(p.1 + [AMPERSAND] + last);
      }
    }
  }

  lemma ReadOne(pieces: seq<Text>, last: Text)
    requires EQUALS in (if pieces == [] then last else pieces[0])
    ensures Read(pieces + [last]) ==
      if EQUALS in last then Read(pieces) + [Cut(last)] else Longer(Read(pieces), last)
  {
    assert (pieces + [last])[..|pieces|] == pieces;
  }

  /** The pieces of one entry after its first carry on its value. */
  lemma {:induction false} ReadMore(before: seq<Text>, head: Text, more: seq<Text>)
    requires before != [] ==> EQUALS in before[0]
    requires EQUALS in head && forall t <- more :: EQUALS !in t
    ensures Read(before + ([head] + more))
      == Read(before) + [(Cut(head).0, Join([Cut(head).1] + more, AMPERSAND))]
    decreases |more|
  {
    hide Cut, Join, Read;
    var key, value := Cut(head).0, Cut(head).1;
    if more == [] {
      ReadOne(before, head);
      OneJoined(value);
      assert [head] + more == [head] && [value] + more == [value];
    } else {
      var fewer, last := more[..|more| - 1], more[|more| - 1];
      ReadMore(before, head, fewer);
      var pieces := before + ([head] + fewer);
      assert pieces[0] == if before == [] then head else before[0];
      ReadOne(pieces, last);
      JoinMore([value] + fewer, last, AMPERSAND);
      assert fewer + [last] == more;
      assert pieces + [last] == before + ([head] + more) && [value] + fewer + [last] == [value] + more;
    }
  }

  lemma OneJoined(t: Text)
    ensures Join([t], AMPERSAND) == t
  {}

  /** The pieces of an entry: the first has its `=`. */
  lemma PiecesOfShow(p: Pair)
    requires AMPERSAND !in p.0 && EQUALS !in p.0
    ensures var pieces, parts := Split(Show(p), AMPERSAND), Split(p.1, AMPERSAND);
      && pieces == [Show((p.0, parts[0]))] + parts[1..]
      && EQUALS in pieces[0] && Cut(pieces[0]) == (p.0, parts[0])
  {
    SplitPrefixed(p.0 + [EQUALS], p.1, AMPERSAND);
    var first := (p.0, Split(p.1, AMPERSAND)[0]);
    CutOfShow(first, []);
    assert Show(first) + [] == Show(first) && first.1 + [] == first.1;
  }

  /** A shared text starts with the key of the first entry and its `=`. */
  lemma {:induction false} SharedIsReadable(pairs: seq<Pair>)
    requires HasCleanKeys(pairs) && pairs != []
    ensures Shared(pairs) != [] && EQUALS in Split(Shared(pairs), AMPERSAND)[0]
    ensures Cut(Split(Shared(pairs), AMPERSAND)[0]).0 == pairs[0].0
  {
    hide Cut;
    var init, last := pairs[..|pairs| - 1], pairs[|pairs| - 1];
    assert pairs == init + [last];
    SharedOfMore(init, last);
    PiecesOfShow(last);
    if init != [] {
      SharedIsReadable(init);
      SplitConcat(Shared(init), Show(last), AMPERSAND);
    }
  }

  lemma TextIsReadable(params: seq<Entry>)
    requires HasCleanKeys(Fields(params))
    ensures IsReadable(Serialize(params))
  {
    if Fields(params) != [] { SharedIsReadable(Fields(params)); }
  }

  /** Clean entries are what is read off their text. */
  lemma {:induction false} ReadingOfShared(pairs: seq<Pair>)
    requires IsClean(pairs)
    ensures IsReadable(Shared(pairs)) && Reading(Shared(pairs)) == pairs
  {
    hide Cut, Show, IsCleanValue;
    if pairs != [] {
      var init, last := pairs[..|pairs| - 1], pairs[|pairs| - 1];
      assert pairs == init + [last];
      SharedIsReadable(pairs);
      ReadingOfShared(init);
      SharedOfMore(init, last);
      PiecesOfShow(last);
      var parts := Split(last.1, AMPERSAND);
      var head, more := Split(Show(last), AMPERSAND)[0], parts[1..];
      CleanTail(last.1);
      JoinSplit(last.1, AMPERSAND);
      assert [parts[0]] + more == parts;
      if init == [] {
        ReadMore([], head, more);
        assert [] + ([head] + more) == Split(Shared(pairs), AMPERSAND);
      } else {
        SharedIsReadable(init);
        SplitConcat(Shared(init), Show(last), AMPERSAND);
        ReadMore(Split(Shared(init), AMPERSAND), head, more);
      }
    }
  }

  lemma CleanTail(v: Text)
    requires IsCleanValue(v)
    ensures forall t <- Split(v, AMPERSAND)[1..] :: EQUALS !in t
  {}

  // ---------- injective under a condition ----------

  lemma FieldsOf(params: seq<Entry>)
    requires HasDistinctKeys(params)
    ensures IsAscending(Fields(params), KeyOf)
    ensures forall q :: q in Fields(params) <==> q in Kept(params)
  {
    KeptOnce(params);
    SortAscending(Kept(params), KeyOf);
    forall q ensures q in Fields(params) <==> q in Kept(params) { SortedIff(Kept(params), KeyOf, q); }
  }

  /**
   * For clean parameters the text determines the fields up to `String()`: distinct filter states have
   * distinct cache keys.
   */
  lemma SerializeInjective(a: seq<Entry>, b: seq<Entry>)
    requires HasDistinctKeys(a) && HasDistinctKeys(b)
    requires IsClean(Kept(a)) && IsClean(Kept(b))
    ensures Serialize(a) == Serialize(b) <==> forall q :: q in Kept(a) <==> q in Kept(b)
  {
    hide HasCleanKeys, HasCleanValues, Shared, Kept, Sort, Less;
    FieldsOf(a);
    FieldsOf(b);
    if Serialize(a) == Serialize(b) {
      CleanFields(a);
      CleanFields(b);
      ReadingOfShared(Fields(a));
      ReadingOfShared(Fields(b));
    } else if forall q :: q in Kept(a) <==> q in Kept(b) {
      AscendingUnique(Fields(a), Fields(b));
    }
  }

  lemma CleanFields(params: seq<Entry>)
    requires HasDistinctKeys(params)
    ensures HasCleanKeys(Kept(params)) <==> HasCleanKeys(Fields(params))
    ensures HasCleanValues(Kept(params)) <==> HasCleanValues(Fields(params))
  {
    hide IsCleanValue;
    FieldsOf(params);
  }

  // ---------- exactly when two states share a text ----------

  /** A state with these fields. */
  function StateOf(pairs: seq<Pair>): seq<Entry> {
    seq(|pairs|, i requires 0 <= i < |pairs| => Entry(pairs[i].0, Str(pairs[i].1)))
  }

  lemma {:induction false} KeptOfState(pairs: seq<Pair>)
    ensures Kept(StateOf(pairs)) == pairs
  {
    if pairs != [] {
      var init := pairs[..|pairs| - 1];
      KeptOfState(init);
      assert StateOf(pairs)[..|pairs| - 1] == StateOf(init);
    }
  }

  lemma FieldsOfState(pairs: seq<Pair>)
    requires IsAscending(pairs, KeyOf)
    ensures HasDistinctKeys(StateOf(pairs)) && Fields(StateOf(pairs)) == pairs
  {
    hide Less;
    KeptOfState(pairs);
    forall i, j | 0 <= i < j < |pairs| ensures pairs[i].0 != pairs[j].0 {
      assert Less(KeyOf(pairs[i]), KeyOf(pairs[j]));
      LessTotal(pairs[i].0, pairs[j].0);
    }
    SortAscending(pairs, KeyOf);
    forall q ensures q in Sort(pairs, KeyOf) <==> q in pairs { SortedIff(pairs, KeyOf, q); }
    AscendingUnique(Sort(pairs, KeyOf), pairs);
  }

  /** The state is another one, has clean keys too, and shares the text of `params`. */
  ghost predicate CollidesWith(params: seq<Entry>, other: seq<Entry>) {
    && HasDistinctKeys(other) && HasCleanKeys(Kept(other))
    && Serialize(other) == Serialize(params) && Fields(other) != Fields(params)
  }

  /**
   * Some clean state shares the text if and only if the keys of the pieces with a `=` ascend; it is
   * another state if and only if a value has a `=` after an `&`.
   */
  lemma CollidesWithCleanIff(params: seq<Entry>)
    requires HasDistinctKeys(params) && HasCleanKeys(Kept(params))
    ensures IsReadable(Serialize(params))
    ensures (exists other :: CollidesWith(params, other) && HasCleanValues(Kept(other))) <==>
      IsAscending(Reading(Serialize(params)), KeyOf) && !HasCleanValues(Kept(params))
  {
    hide Less, Read, Cut, IsCleanValue;
    var fields, text := Fields(params), Serialize(params);
    FieldsOf(params);
    CleanFields(params);
    TextIsReadable(params);
    var reading := Reading(text);
    if other :| CollidesWith(params, other) && HasCleanValues(Kept(other)) {
      FieldsOf(other);
      CleanFields(other);
      ReadingOfShared(Fields(other));
      if HasCleanValues(Kept(params)) { ReadingOfShared(fields); }
    }
    if IsAscending(reading, KeyOf) && !HasCleanValues(Kept(params)) {
      assert IsClean(reading) by { if text != [] { ReadIsClean(Split(text, AMPERSAND)); } }
      var other := StateOf(reading);
      FieldsOfState(reading);
      KeptOfState(reading);
      SharedOfReading(text);
      assert CollidesWith(params, other);
    }
  }

  /** The keys of the entries behind the first are read off the text. */
  lemma {:induction false} KeyIsRead(pieces: seq<Text>, piece: Text)
    requires pieces != [] && EQUALS in pieces[0] && piece in pieces && EQUALS in piece
    ensures exists i | 0 <= i < |Read(pieces)| :: Read(pieces)[i].0 == Cut(piece).0
    ensures Read(pieces)[0].0 == Cut(pieces[0]).0
  {
    hide Cut, Read;
    var before, last := pieces[..|pieces| - 1], pieces[|pieces| - 1];
    assert pieces == before + [last];
    if before != [] {
      KeyIsRead(before, if piece in before then piece else pieces[0]);
    }
    ReadOne(before, last);
    assert Read([]) == [] by { ReadNothing(); }
    var r := Read(pieces);
    if piece in before {
      var i :| 0 <= i < |Read(before)| && Read(before)[i].0 == Cut(piece).0;
      assert r[i].0 == Cut(piece).0;
    } else {
      assert r[|r| - 1] == Cut(last);
    }
  }

  lemma ReadNothing()
    ensures Read([]) == []
  {}

  /** All entries from `i` on, taken as the value of one. */
  function Merged(pairs: seq<Pair>): (p: Pair)
    requires HasCleanKeys(pairs) && pairs != []
    ensures Show(p) == Shared(pairs) && p.0 == pairs[0].0
  {
    var text := Shared(pairs);
    MergeFits(pairs);
    (pairs[0].0, text[|pairs[0].0| + 1..])
  }

  lemma MergeFits(pairs: seq<Pair>)
    requires HasCleanKeys(pairs) && pairs != []
    ensures var text, key := Shared(pairs), pairs[0].0;
      |key| < |text| && text == key + [EQUALS] + text[|key| + 1..]
  {
    var key, text := pairs[0].0, Shared(pairs);
    assert ShowAll(pairs)[0] == Show(pairs[0]);
    if |pairs| > 1 {
      var rest := Join(ShowAll(pairs)[1..], AMPERSAND);
      assert text == key + [EQUALS] + (pairs[0].1 + [AMPERSAND] + rest);
    }
  }

  /**
   * Exactly when another state with clean keys has the same text: when a piece with a `=` has a key
   * behind that of the first. So every state with two fields or more can be confused with another.
   */
  lemma CollidesIff(params: seq<Entry>)
    requires HasDistinctKeys(params) && HasCleanKeys(Kept(params))
    ensures IsReadable(Serialize(params))
    ensures var reading := Reading(Serialize(params));
      (exists other :: CollidesWith(params, other)) <==>
      exists i | 0 < i < |reading| :: Less(reading[0].0, reading[i].0)
  {
    hide Less, Read, Cut, Show, Shared;
    var fields, text := Fields(params), Serialize(params);
    FieldsOf(params);
    CleanFields(params);
    TextIsReadable(params);
    var reading := Reading(text);
    if other :| CollidesWith(params, other) {
      FieldsOf(other);
      CleanFields(other);
      TwoFieldsShow(fields, Fields(other));
    }
    if i :| 0 < i < |reading| && Less(reading[0].0, reading[i].0) {
      MergedCollides(params, i);
    }
  }

  /** Everything as the value of the first key, or split before a piece with a greater key. */
  lemma MergedCollides(params: seq<Entry>, i: nat)
    requires HasDistinctKeys(params) && IsReadable(Serialize(params))
    requires var reading := Reading(Serialize(params)); 0 < i < |reading| && Less(reading[0].0, reading[i].0)
    ensures exists other :: CollidesWith(params, other)
  {
    hide Less, Read, Cut, Show, Shared, Split;
    var text := Serialize(params);
    var reading := Reading(text);
    ReadIsClean(Split(text, AMPERSAND));
    SharedOfReading(text);
    var one, two := [Merged(reading)], [Merged(reading[..i]), Merged(reading[i..])];
    MergedShared(reading, i);
    FieldsOfState(one);
    FieldsOfState(two);
    KeptOfState(one);
    KeptOfState(two);
    assert CollidesWith(params, StateOf(if Fields(params) == one then two else one));
  }

  lemma MergedShared(pairs: seq<Pair>, i: nat)
    requires HasCleanKeys(pairs) && 0 < i < |pairs|
    ensures HasCleanKeys(pairs[..i]) && HasCleanKeys(pairs[i..])
    ensures Shared([Merged(pairs)]) == Shared(pairs)
    ensures Shared([Merged(pairs[..i]), Merged(pairs[i..])]) == Shared(pairs)
  {
    hide Show, Shared, Merged;
    var a, b := Merged(pairs[..i]), Merged(pairs[i..]);
    SharedOfMore([], Merged(pairs));
    SharedOfMore([], a);
    SharedOfMore([a], b);
    assert [] + [a] == [a] && [a] + [b] == [a, b] && [] + [Merged(pairs)] == [Merged(pairs)];
    SharedConcat(pairs[..i], pairs[i..]);
    assert pairs[..i] + pairs[i..] == pairs;
  }

  lemma {:induction false} SharedConcat(a: seq<Pair>, b: seq<Pair>)
    requires a != [] && b != []
    ensures Shared(a + b) == Shared(a) + [AMPERSAND] + Shared(b)
    decreases |b|
  {
    hide Show, Shared;
    var init, last := b[..|b| - 1], b[|b| - 1];
    assert b == init + [last] && a + b == a + init + [last];
    SharedOfMore(a + init, last);
    SharedOfMore(init, last);
    if init == [] {
      assert a + init == a;
    } else {
      SharedConcat(a, init);
      assert Shared(a) + [AMPERSAND] + (Shared(init) + [AMPERSAND] + Show(last))
        == Shared(a) + [AMPERSAND] + Shared(init) + [AMPERSAND] + Show(last);
    }
  }

  /** Two different field lists with one text: one of them has a second field, which is read off the text. */
  lemma TwoFieldsShow(a: seq<Pair>, b: seq<Pair>)
    requires HasCleanKeys(a) && HasCleanKeys(b) && IsAscending(a, KeyOf) && IsAscending(b, KeyOf)
    requires Shared(a) == Shared(b) && a != b && IsReadable(Shared(a))
    ensures var reading := Reading(Shared(a));
      exists i | 0 < i < |reading| :: Less(reading[0].0, reading[i].0)
  {
    hide Less, Read, Cut;
    if |a| >= 2 {
      SecondIsRead(a);
    } else if |b| >= 2 {
      SecondIsRead(b);
    } else {
      AtMostOneField(a, b);
      assert false;
    }
  }

  lemma AtMostOneField(a: seq<Pair>, b: seq<Pair>)
    requires HasCleanKeys(a) && HasCleanKeys(b) && |a| <= 1 && |b| <= 1 && Shared(a) == Shared(b)
    ensures a == b
  {
    hide Cut;
    if a != [] {
      SharedIsReadable(a);
      assert ShowAll(a) == [Show(a[0])];
      CutOfShow(a[0], []);
      assert Show(a[0]) + [] == Show(a[0]) && a[0].1 + [] == a[0].1;
    }
    if b != [] {
      SharedIsReadable(b);
      assert ShowAll(b) == [Show(b[0])];
      CutOfShow(b[0], []);
      assert Show(b[0]) + [] == Show(b[0]) && b[0].1 + [] == b[0].1;
    }
  }

  lemma SecondIsRead(a: seq<Pair>)
    requires HasCleanKeys(a) && IsAscending(a, KeyOf) && |a| >= 2
    ensures IsReadable(Shared(a))
    ensures var reading := Reading(Shared(a));
      exists i | 0 < i < |reading| :: Less(reading[0].0, reading[i].0)
  {
    hide Less, Read, Cut;
    var first, rest := a[..1], a[1..];
    assert first + rest == a;
    SharedConcat(first, rest);
    SplitConcat(Shared(first), Shared(rest), AMPERSAND);
    SharedIsReadable(a);
    SharedIsReadable(rest);
    var pieces, piece := Split(Shared(a), AMPERSAND), Split(Shared(rest), AMPERSAND)[0];
    assert piece in pieces;
    KeyIsRead(pieces, piece);
    var i :| 0 <= i < |Read(pieces)| && Read(pieces)[i].0 == a[1].0;
    assert Less(KeyOf(a[0]), KeyOf(a[1]));
    LessTotal(a[0].0, a[1].0);
    assert Reading(Shared(a))[0].0 == a[0].0;
  }

  /** Every state with two fields or more can be confused with another. */
  lemma TwoFieldsCollide(params: seq<Entry>)
    requires HasDistinctKeys(params) && HasCleanKeys(Kept(params)) && |Fields(params)| >= 2
    ensures exists other :: CollidesWith(params, other)
  {
    hide Less, Read, Kept;
    FieldsOf(params);
    CleanFields(params);
    SecondIsRead(Fields(params));
    CollidesIff(params);
  }

  // ---------- all the states that share a text ----------

  function WithLast(ys: set<seq<Pair>>, last: Pair): set<seq<Pair>> { set y | y in ys :: y + [last] }

  function WithLonger(ys: set<seq<Pair>>, more: Text): set<seq<Pair>> {
    set y | y in ys && y != [] :: Longer(y, more)
  }

  /** All ways to take entries together with those before them: the last entry ends the one before it, or not. */
  function Coarsenings(pairs: seq<Pair>): set<seq<Pair>> {
    if |pairs| <= 1 then {pairs}
    else
      var rest, last := Coarsenings(pairs[..|pairs| - 1]), pairs[|pairs| - 1];
      WithLast(rest, last) + WithLonger(rest, Show(last))
  }

  lemma CoarseningsUnfold(pairs: seq<Pair>, last: Pair)
    requires pairs != []
    ensures Coarsenings(pairs + [last])
      == WithLast(Coarsenings(pairs), last) + WithLonger(Coarsenings(pairs), Show(last))
  {
    hide WithLast, WithLonger, Show;
    assert (pairs + [last])[..|pairs|] == pairs;
  }

  lemma CoarseningsOfMore(pairs: seq<Pair>, last: Pair, y: seq<Pair>)
    requires y in Coarsenings(pairs)
    ensures y + [last] in Coarsenings(pairs + [last])
    ensures pairs != [] && y != [] ==> Longer(y, Show(last)) in Coarsenings(pairs + [last])
  {
    if pairs == [] {
      assert y + [last] == pairs + [last];
    } else {
      CoarseningsUnfold(pairs, last);
      hide Coarsenings, Longer, Show;
    }
  }

  lemma {:induction false} CoarseningsShare(pairs: seq<Pair>, y: seq<Pair>)
    requires HasCleanKeys(pairs) && y in Coarsenings(pairs)
    ensures HasCleanKeys(y) && Shared(y) == Shared(pairs) && (y == [] <==> pairs == [])
  {
    hide Show, Shared;
    if |pairs| > 1 {
      var init, last := pairs[..|pairs| - 1], pairs[|pairs| - 1];
      assert pairs == init + [last];
      SharedOfMore(init, last);
      if z :| z in Coarsenings(init) && y == z + [last] {
        CoarseningsShare(init, z);
        SharedOfMore(z, last);
      } else {
        var z :| z in Coarsenings(init) && z != [] && y == Longer(z, Show(last));
        CoarseningsShare(init, z);
        SharedOfLonger(z, Show(last));
        assert z[|z| - 1] in z;
      }
    }
  }

  lemma LongerTwice(z: seq<Pair>, a: Text, b: Text)
    requires z != []
    ensures Longer(Longer(z, a), b) == Longer(z, a + [AMPERSAND] + b)
  {
    var p := z[|z| - 1];
    assert Longer(z, a)[..|z| - 1] == z[..|z| - 1];
    AppendAssociative(p.1 + [AMPERSAND], a, [AMPERSAND] + b);
    assert p.1 + [AMPERSAND] + a + [AMPERSAND] + b == p.1 + [AMPERSAND] + (a + [AMPERSAND] + b);
  }

  /** A longer last entry makes every way of taking entries together longer at its end. */
  lemma CoarseningsOfLonger(pairs: seq<Pair>, more: Text, y: seq<Pair>)
    requires y in Coarsenings(pairs) && y != [] && pairs != []
    ensures Longer(y, more) in Coarsenings(Longer(pairs, more))
  {
    hide Show;
    if |pairs| > 1 {
      var init, last := pairs[..|pairs| - 1], pairs[|pairs| - 1];
      var longer := (last.0, last.1 + [AMPERSAND] + more);
      assert Longer(pairs, more) == init + [longer];
      if z :| z in Coarsenings(init) && y == z + [last] {
        assert y[..|y| - 1] == z;
        CoarseningsOfMore(init, longer, z);
      } else {
        var z :| z in Coarsenings(init) && z != [] && y == Longer(z, Show(last));
        LongerTwice(z, Show(last), more);
        ShowLonger(last, more);
        CoarseningsOfMore(init, longer, z);
      }
    }
  }

  lemma ShowLonger(p: Pair, more: Text)
    ensures Show(p) + [AMPERSAND] + more == Show((p.0, p.1 + [AMPERSAND] + more))
  {}

  /** Taking the last piece off a text with an `&` in its last value. */
  lemma LastPiece(y: seq<Pair>, front: Text, piece: Text)
    requires HasCleanKeys(y) && y != [] && y[|y| - 1].1 == front + [AMPERSAND] + piece && AMPERSAND !in piece
    ensures var z := y[..|y| - 1] + [(y[|y| - 1].0, front)];
      && HasCleanKeys(z) && y == Longer(z, piece)
      && Shared(y) == Shared(z) + [AMPERSAND] + piece
      && Split(Shared(y), AMPERSAND) == Split(Shared(z), AMPERSAND) + [piece]
  {
    hide Shared;
    var p := y[|y| - 1];
    var z := y[..|y| - 1] + [(p.0, front)];
    assert p in y && forall q <- z :: q in y || q == (p.0, front);
    assert z[..|z| - 1] == y[..|y| - 1];
    assert y == y[..|y| - 1] + [p];
    SharedOfLonger(z, piece);
    SplitConcat(Shared(z), piece, AMPERSAND);
    SplitFree(piece, AMPERSAND);
  }

  /** An entry without an `&` in its value is the last entry read. */
  lemma ReadingOfMore(init: seq<Pair>, last: Pair)
    requires HasCleanKeys(init + [last]) && HasCleanKeys(init) && AMPERSAND !in last.1
    ensures IsReadable(Shared(init)) && IsReadable(Shared(init + [last]))
    ensures Reading(Shared(init + [last])) == Reading(Shared(init)) + [last]
    ensures |Shared(init)| < |Shared(init + [last])|
  {
    hide Read, Cut, Split;
    var y, piece := init + [last], Show(last);
    assert last in y;
    SharedIsReadable(y);
    SharedOfMore(init, last);
    SplitFree(piece, AMPERSAND);
    CutOfShow(last, []);
    assert piece + [] == piece && last.1 + [] == last.1;
    if init == [] {
      ReadNothing();
      ReadOne([], piece);
      assert [] + [piece] == [piece];
    } else {
      SharedIsReadable(init);
      SplitConcat(Shared(init), piece, AMPERSAND);
      ReadOne(Split(Shared(init), AMPERSAND), piece);
    }
  }

  /** One more piece: it starts an entry or goes on with the last, and may be taken with it either way. */
  lemma CoarseningStep(z: seq<Pair>, piece: Text, text: Text)
    requires HasCleanKeys(z) && z != [] && IsReadable(Shared(z)) && z in Coarsenings(Reading(Shared(z)))
    requires text != [] && Shared(z) != []
    requires Split(text, AMPERSAND) == Split(Shared(z), AMPERSAND) + [piece]
    ensures IsReadable(text) && Longer(z, piece) in Coarsenings(Reading(text))
  {
    hide Show, Cut, Read, Longer, Shared, Coarsenings, Split;
    var pieces := Split(Shared(z), AMPERSAND);
    ReadOne(pieces, piece);
    if EQUALS in piece {
      CoarseningsOfMore(Read(pieces), Cut(piece), z);
    } else {
      CoarseningsOfLonger(Read(pieces), piece, z);
    }
  }

  /** A value without `&`, or its last piece and what is before. */
  lemma LastOfValue(v: Text) returns (front: Text, piece: Text)
    ensures AMPERSAND !in v || (v == front + [AMPERSAND] + piece && AMPERSAND !in piece)
  {
    var parts := Split(v, AMPERSAND);
    JoinSplit(v, AMPERSAND);
    if |parts| > 1 {
      front, piece := Join(parts[..|parts| - 1], AMPERSAND), parts[|parts| - 1];
      JoinMore(parts[..|parts| - 1], piece, AMPERSAND);
      assert parts == parts[..|parts| - 1] + [piece];
    } else {
      front, piece := [], [];
      assert parts[0] == v && parts[0] in parts;
    }
  }

  lemma NothingIsCoarsening()
    ensures Shared([]) == [] && [] in Coarsenings([])
  {}

  /** Every state with a text is among the ways of taking its pieces together. */
  lemma {:induction false} SharedIsCoarsening(y: seq<Pair>)
    requires HasCleanKeys(y)
    ensures IsReadable(Shared(y)) && y in Coarsenings(Reading(Shared(y)))
    decreases |Shared(y)|
  {
    hide Show, Cut, Read, Longer, Split, Shared, Coarsenings;
    if y == [] {
      NothingIsCoarsening();
    } else {
      var init, last := y[..|y| - 1], y[|y| - 1];
      assert y == init + [last] && last in y;
      var front, piece := LastOfValue(last.1);
      if AMPERSAND !in last.1 {
        ReadingOfMore(init, last);
        SharedIsCoarsening(init);
        CoarseningsOfMore(Reading(Shared(init)), last, init);
      } else {
        LastPiece(y, front, piece);
        var z := init + [(last.0, front)];
        SharedIsReadable(z);
        SharedIsCoarsening(z);
        CoarseningStep(z, piece, Shared(y));
      }
    }
  }

  lemma ReadingIsClean(text: Text)
    requires IsReadable(text)
    ensures IsClean(Reading(text))
  {
    if text != [] { ReadIsClean(Split(text, AMPERSAND)); }
  }

  /** The states with clean keys that have a text are exactly the ways of taking its pieces together. */
  lemma SharesTextIff(text: Text, y: seq<Pair>)
    requires IsReadable(text)
    ensures HasCleanKeys(y) && Shared(y) == text <==> y in Coarsenings(Reading(text))
  {
    hide Shared, Reading, Coarsenings;
    if HasCleanKeys(y) && Shared(y) == text { SharedIsCoarsening(y); }
    if y in Coarsenings(Reading(text)) {
      ReadingIsClean(text);
      CoarseningsShare(Reading(text), y);
      SharedOfReading(text);
    }
  }

  /** The type of a parameter object: which keys it has, and which values each key takes. */
  type ParamType = (Text, Text) -> bool

  ghost predicate IsOfType(pairs: seq<Pair>, allows: ParamType) { forall q <- pairs :: allows(q.0, q.1) }

  /**
   * Exactly when a state shares its text with another state of some parameter type: when another of
   * the finitely many ways to take the pieces together has ascending keys and values of that type.
   */
  lemma CollidesInTypeIff(params: seq<Entry>, allows: ParamType)
    requires HasDistinctKeys(params) && HasCleanKeys(Kept(params))
    ensures IsReadable(Serialize(params))
    ensures (exists other :: CollidesWith(params, other) && IsOfType(Fields(other), allows)) <==>
      exists y <- Coarsenings(Reading(Serialize(params))) ::
        y != Fields(params) && IsAscending(y, KeyOf) && IsOfType(y, allows)
  {
    hide Less, Reading, Coarsenings, Shared, Kept, IsOfType;
    var text := Serialize(params);
    FieldsOf(params);
    CleanFields(params);
    TextIsReadable(params);
    if other :| CollidesWith(params, other) && IsOfType(Fields(other), allows) {
      FieldsOf(other);
      CleanFields(other);
      SharesTextIff(text, Fields(other));
    }
    if y :| y in Coarsenings(Reading(text)) && y != Fields(params) && IsAscending(y, KeyOf) && IsOfType(y, allows) {
      SharesTextIff(text, y);
      FieldsOfState(y);
      KeptOfState(y);
      assert CollidesWith(params, StateOf(y));
    }
  }

  /** Some keys take any text, the values of the others hold no `&`: numbers, booleans, listed words. */
  ghost predicate IsTwoSorted(allows: ParamType, free: Text -> bool) {
    forall key, v :: (free(key) ==> allows(key, v)) && (!free(key) && allows(key, v) ==> AMPERSAND !in v)
  }

  lemma {:induction false} CoarseningKey(pairs: seq<Pair>, y: seq<Pair>)
    requires y in Coarsenings(pairs) && y != []
    ensures exists j | 0 <= j < |pairs| :: pairs[j].0 == y[|y| - 1].0
  {
    if |pairs| > 1 {
      var init, last := pairs[..|pairs| - 1], pairs[|pairs| - 1];
      if z :| z in Coarsenings(init) && y == z + [last] {
        assert pairs[|pairs| - 1].0 == y[|y| - 1].0;
      } else {
        var z: seq<Pair> :| z in Coarsenings(init) && z != [] && y == Longer(z, Show(last));
        CoarseningKey(init, z);
        var j :| 0 <= j < |init| && init[j].0 == z[|z| - 1].0;
        assert pairs[j].0 == y[|y| - 1].0;
      }
    } else {
      assert pairs[0].0 == y[|y| - 1].0;
    }
  }

  /** An entry taken together with others holds an `&`. */
  lemma LongerNeedsFree(z: seq<Pair>, more: Text, allows: ParamType, free: Text -> bool)
    requires z != [] && IsTwoSorted(allows, free) && IsOfType(Longer(z, more), allows)
    ensures free(z[|z| - 1].0)
  {
    var p: Pair, y := z[|z| - 1], Longer(z, more);
    var value := p.1 + [AMPERSAND] + more;
    assert y[|y| - 1] == (p.0, value) && y[|y| - 1] in y;
    assert value[|p.1|] == AMPERSAND;
  }

  /** Two entries can be taken together within a type only under a free key. */
  lemma {:induction false} CoarserNeedsFree(pairs: seq<Pair>, y: seq<Pair>, allows: ParamType, free: Text -> bool)
    requires IsTwoSorted(allows, free) && y in Coarsenings(pairs) && y != pairs && IsOfType(y, allows)
    ensures exists i | 0 <= i < |pairs| - 1 :: free(pairs[i].0)
  {
    hide IsTwoSorted, Longer, Show;
    if |pairs| > 1 {
      var init, last := pairs[..|pairs| - 1], pairs[|pairs| - 1];
      assert pairs == init + [last];
      if z :| z in Coarsenings(init) && y == z + [last] {
        assert forall q <- z :: q in y;
        CoarserNeedsFree(init, z, allows, free);
        var i :| 0 <= i < |init| - 1 && free(init[i].0);
        assert free(pairs[i].0);
      } else {
        var z: seq<Pair> :| z in Coarsenings(init) && z != [] && y == Longer(z, Show(last));
        LongerNeedsFree(z, Show(last), allows, free);
        CoarseningKey(init, z);
        var j :| 0 <= j < |init| && init[j].0 == z[|z| - 1].0;
        assert free(pairs[j].0);
      }
    }
  }

  /** The entry at `i` takes in the one after it. */
  function TakenIn(pairs: seq<Pair>, i: nat): seq<Pair>
    requires i + 1 < |pairs|
  {
    Longer(pairs[..i + 1], Show(pairs[i + 1])) + pairs[i + 2..]
  }

  lemma TakenInShares(pairs: seq<Pair>, i: nat)
    requires i + 1 < |pairs|
    ensures Shared(TakenIn(pairs, i)) == Shared(pairs)
  {
    hide Shared, Show;
    var front, next, rest := pairs[..i + 1], pairs[i + 1], pairs[i + 2..];
    SharedOfLonger(front, Show(next));
    SharedOfMore(front, next);
    assert pairs == front + [next] + rest;
    if rest == [] {
      assert front + [next] + rest == front + [next];
      assert Longer(front, Show(next)) + rest == Longer(front, Show(next));
    } else {
      SharedConcat(front + [next], rest);
      SharedConcat(Longer(front, Show(next)), rest);
    }
  }

  lemma TakenInKeys(pairs: seq<Pair>, i: nat)
    requires i + 1 < |pairs|
    ensures |TakenIn(pairs, i)| == |pairs| - 1
    ensures forall j | 0 <= j < |pairs| - 1 :: TakenIn(pairs, i)[j].0 == pairs[if j <= i then j else j + 1].0
    ensures forall j | 0 <= j < |pairs| - 1 && j != i :: TakenIn(pairs, i)[j] == pairs[if j < i then j else j + 1]
  {
    hide Show;
  }

  /** What takes in a field under a free key is of the type, and its keys ascend. */
  lemma TakenInIsFit(pairs: seq<Pair>, i: nat, allows: ParamType, free: Text -> bool)
    requires i + 1 < |pairs| && HasCleanKeys(pairs) && IsAscending(pairs, KeyOf) && IsOfType(pairs, allows)
    requires IsTwoSorted(allows, free) && free(pairs[i].0)
    ensures var y := TakenIn(pairs, i); HasCleanKeys(y) && IsAscending(y, KeyOf) && IsOfType(y, allows)
  {
    hide Less, TakenIn;
    var y := TakenIn(pairs, i);
    TakenInKeys(pairs, i);
    forall j | 0 <= j < |y| ensures allows(y[j].0, y[j].1) && EQUALS !in y[j].0 && AMPERSAND !in y[j].0 {
      assert pairs[if j <= i then j else j + 1] in pairs;
    }
    forall j, k | 0 <= j < k < |y| ensures Less(KeyOf(y[j]), KeyOf(y[k])) {
      assert Less(KeyOf(pairs[if j <= i then j else j + 1]), KeyOf(pairs[if k <= i then k else k + 1]));
    }
  }

  /**
   * A clean state of a parameter type shares its text with another state of the type if and only if
   * some field but its last one takes any text.
   */
  lemma CleanCollidesInTypeIff(params: seq<Entry>, allows: ParamType, free: Text -> bool)
    requires HasDistinctKeys(params) && IsClean(Kept(params))
    requires IsTwoSorted(allows, free) && IsOfType(Fields(params), allows)
    ensures (exists other :: CollidesWith(params, other) && IsOfType(Fields(other), allows)) <==>
      exists i | 0 <= i < |Fields(params)| - 1 :: free(Fields(params)[i].0)
  {
    hide Less, Reading, Coarsenings, Shared, Kept, IsCleanValue, Longer, Show;
    var fields := Fields(params);
    FieldsOf(params);
    CleanFields(params);
    ReadingOfShared(fields);
    CollidesInTypeIff(params, allows);
    if y :| y in Coarsenings(fields) && y != fields && IsAscending(y, KeyOf) && IsOfType(y, allows) {
      CoarserNeedsFree(fields, y, allows, free);
    }
    if i: nat :| i < |fields| - 1 && free(fields[i].0) {
      var y := TakenIn(fields, i);
      TakenInShares(fields, i);
      TakenInIsFit(fields, i, allows, free);
      TakenInKeys(fields, i);
      SharesTextIff(Serialize(params), y);
    }
  }

  // ---------- the issue list ----------

  const Q: Text := ['q' as int]
  const RELEASE := Lit("release")

  /** The fields of `IssuesParams` that take any text. */
  predicate IsFreeIssueField(key: Text) {
    key in {
      Lit("cursor"), Lit("environment"), Lit("release"), Lit("assigneeId"), Lit("tag"), Lit("since"), Lit("until"), Q}
  }

  predicate IsIssueStatus(v: Text) { v in {Lit("open"), Lit("investigating"), Lit("resolved"), Lit("ignored")} }

  predicate IsIssueKind(v: Text) {
    v in {Lit("exception"), Lit("unhandled_rejection"), Lit("console_error"), Lit("network"), Lit("message")}
  }

  predicate IsIssueOrder(v: Text) {
    v in {Lit("last_seen"), Lit("first_seen"), Lit("occurrence_count"), Lit("affected_sessions")}
  }

  /** The values of the fields of `IssuesParams`; `isNumber` says which texts `String()` gives for numbers. */
  function IssuesParams(isNumber: Text -> bool): ParamType {
    (key, v) =>
      || IsFreeIssueField(key)
      || (key == Lit("limit") && isNumber(v))
      || (key == Lit("unassigned") && v in {Lit("true"), Lit("false")})
      || (key == Lit("status") && IsIssueStatus(v))
      || (key == Lit("type") && IsIssueKind(v))
      || (key == Lit("sort") && IsIssueOrder(v))
      || (key == Lit("order") && v in {Lit("asc"), Lit("desc")})
  }

  lemma NoAmpersand(word: string)
    requires '&' !in word
    ensures AMPERSAND !in Lit(word)
  {}

  lemma ListedWordsHaveNone(v: Text)
    requires IsIssueStatus(v) || IsIssueKind(v) || IsIssueOrder(v) || v in {Lit("true"), Lit("false")}
      || v in {Lit("asc"), Lit("desc")}
    ensures AMPERSAND !in v
  {
    hide Lit;
    if IsIssueStatus(v) {
      NoAmpersand("open");
      NoAmpersand("investigating");
      NoAmpersand("resolved");
      NoAmpersand("ignored");
    } else if IsIssueKind(v) {
      NoAmpersand("exception");
      NoAmpersand("unhandled_rejection");
      NoAmpersand("console_error");
      NoAmpersand("network");
      NoAmpersand("message");
    } else if IsIssueOrder(v) {
      NoAmpersand("last_seen");
      NoAmpersand("first_seen");
      NoAmpersand("occurrence_count");
      NoAmpersand("affected_sessions");
    } else {
      NoAmpersand("true");
      NoAmpersand("false");
      NoAmpersand("asc");
      NoAmpersand("desc");
    }
  }

  lemma IssueFieldsTwoSorted(isNumber: Text -> bool)
    requires forall t: Text :: isNumber(t) ==> AMPERSAND !in t
    ensures IsTwoSorted(IssuesParams(isNumber), IsFreeIssueField)
  {
    hide IsFreeIssueField, IsIssueStatus, IsIssueKind, IsIssueOrder, Lit;
    forall key: Text, v | !IsFreeIssueField(key) && IssuesParams(isNumber)(key, v) ensures AMPERSAND !in v {
      if !isNumber(v) { ListedWordsHaveNone(v); }
    }
  }

  /** Two clean states of the issue list share a cache key only if a text field comes before another field. */
  lemma IssuesCollideIff(params: seq<Entry>, isNumber: Text -> bool)
    requires forall t: Text :: isNumber(t) ==> AMPERSAND !in t
    requires HasDistinctKeys(params) && IsClean(Kept(params)) && IsOfType(Fields(params), IssuesParams(isNumber))
    ensures (exists other :: CollidesWith(params, other) && IsOfType(Fields(other), IssuesParams(isNumber))) <==>
      exists i | 0 <= i < |Fields(params)| - 1 :: IsFreeIssueField(Fields(params)[i].0)
  {
    IssueFieldsTwoSorted(isNumber);
    hide IsFreeIssueField, IsClean, IsTwoSorted, IsOfType;
    CleanCollidesInTypeIff(params, IssuesParams(isNumber), IsFreeIssueField);
  }

  /** The issue list: a search for `x&release=y` has the cache key of a search for `x` in release `y`. */
  lemma SearchCollides(x: Text, y: Text)
    ensures var a := [Entry(Lit("q"), Str(x + Lit("&") + Lit("release") + Lit("=") + y))];
      var b := [Entry(Lit("q"), Str(x)), Entry(Lit("release"), Str(y))];
      CollidesWith(a, b)
  {
    assert Lit("q") == Q && Lit("&") == [AMPERSAND] && Lit("=") == [EQUALS];
    var p, q, r: Pair := (Q, x + [AMPERSAND] + RELEASE + [EQUALS] + y), (Q, x), (RELEASE, y);
    assert Less(KeyOf(q), KeyOf(r));
    assert HasCleanKeys([q, r]);
    assert Show(p) == Show(q) + [AMPERSAND] + Show(r);
    hide Less, Kept, Sort, Join, RELEASE;
    assert StateOf([p]) == [Entry(p.0, Str(p.1))] && StateOf([q, r]) == [Entry(q.0, Str(q.1)), Entry(r.0, Str(r.1))];
    FieldsOfState([p]);
    FieldsOfState([q, r]);
    KeptOfState([q, r]);
    SharedOfMore([], p);
    SharedOfMore([], q);
    SharedOfMore([q], r);
    assert [] + [p] == [p] && [] + [q] == [q] && [q] + [r] == [q, r];
  }

  /** One field is its key and its value, numbers and truth values spelled out; what is neither is left out. */
  lemma SerializeOne(key: Text, s: Text)
    ensures Serialize([Entry(key, Str(s))]) == key + Lit("=") + s
    ensures Serialize([Entry(key, Num(s))]) == key + Lit("=") + s
    ensures Serialize([Entry(key, Bool(true))]) == key + Lit("=true")
    ensures Serialize([Entry(key, Bool(false))]) == key + Lit("=false")
    ensures Serialize([Entry(key, Other)]) == []
  {
    assert [EQUALS] == Lit("=") && [EQUALS] + Lit("true") == Lit("=true") && [EQUALS] + Lit("false") == Lit("=false");
    KeptOne(Entry(key, Str(s)));
    KeptOne(Entry(key, Num(s)));
    KeptOne(Entry(key, Bool(true)));
    KeptOne(Entry(key, Bool(false)));
    KeptOne(Entry(key, Other));
    SharedOne((key, s));
    SharedOne((key, Lit("true")));
    SharedOne((key, Lit("false")));
    hide Shared, Fields, Lit;
    AppendAssociative(key, [EQUALS], Lit("true"));
    AppendAssociative(key, [EQUALS], Lit("false"));
  }

  lemma KeptOne(e: Entry)
    ensures Fields([e]) == if e.value.Other? then [] else [(e.key, Shown(e.value))]
  {
    assert [e][..0] == [];
    assert Kept([]) == [];
    assert Kept([e]) == if e.value.Other? then [] else [(e.key, Shown(e.value))];
    if !e.value.Other? {
      var p: Pair := (e.key, Shown(e.value));
      assert StateOf([p]) == [Entry(p.0, Str(p.1))];
      KeptOfState([p]);
      FieldsOfState([p]);
    }
  }

  lemma SharedOne(p: Pair)
    ensures Shared([p]) == p.0 + [EQUALS] + p.1 && Shared([]) == []
  {}

  lemma Marks()
    ensures [EQUALS] == Lit("=") && [AMPERSAND] == Lit("&")
  {}

  /** Two fields are written in key order, with an ampersand between. */
  lemma SerializeTwo(a: Text, s: Text, b: Text, t: Text)
    requires Less(a, b)
    ensures Serialize([Entry(a, Str(s)), Entry(b, Str(t))]) == (a + Lit("=") + s) + Lit("&") + (b + Lit("=") + t)
    ensures Serialize([Entry(b, Str(t)), Entry(a, Str(s))]) == (a + Lit("=") + s) + Lit("&") + (b + Lit("=") + t)
  {
    hide Less, Kept, Sort, Join, Lit;
    Marks();
    var p, q: Pair := (a, s), (b, t);
    assert Less(KeyOf(p), KeyOf(q));
    LessTotal(a, b);
    assert StateOf([p, q]) == [Entry(a, Str(s)), Entry(b, Str(t))];
    FieldsOfState([p, q]);
    SharedOfMore([], p);
    SharedOfMore([p], q);
    assert [] + [p] == [p] && [p] + [q] == [p, q];
    var other := [Entry(b, Str(t)), Entry(a, Str(s))];
    assert HasDistinctKeys(StateOf([p, q])) && HasDistinctKeys(other);
    OrderDoesNotMatter(StateOf([p, q]), other);
  }

  /** The fields of the issue list that take any text. */
  lemma FreeIssueFields()
    ensures forall key :: IsFreeIssueField(key) <==>
      || key == Lit("cursor") || key == Lit("environment") || key == Lit("release") || key == Lit("assigneeId")
      || key == Lit("tag") || key == Lit("since") || key == Lit("until") || key == Lit("q")
  {
    assert Lit("q") == Q;
    hide Lit;
  }

  /** What the others take. */
  lemma ListedIssueWords(v: Text)
    ensures IsIssueStatus(v) <==>
      v == Lit("open") || v == Lit("investigating") || v == Lit("resolved") || v == Lit("ignored")
    ensures IsIssueKind(v) <==>
      || v == Lit("exception") || v == Lit("unhandled_rejection") || v == Lit("console_error")
      || v == Lit("network") || v == Lit("message")
    ensures IsIssueOrder(v) <==>
      v == Lit("last_seen") || v == Lit("first_seen") || v == Lit("occurrence_count") || v == Lit("affected_sessions")
  {
    hide Lit;
  }

  lemma ListedIssueFields(isNumber: Text -> bool, v: Text)
    ensures isNumber(v) ==> IssuesParams(isNumber)(Lit("limit"), v)
    ensures IsIssueStatus(v) ==> IssuesParams(isNumber)(Lit("status"), v)
    ensures IsIssueKind(v) ==> IssuesParams(isNumber)(Lit("type"), v)
    ensures IsIssueOrder(v) ==> IssuesParams(isNumber)(Lit("sort"), v)
    ensures v == Lit("true") || v == Lit("false") ==> IssuesParams(isNumber)(Lit("unassigned"), v)
    ensures v == Lit("asc") || v == Lit("desc") ==> IssuesParams(isNumber)(Lit("order"), v)
  {
    hide Lit, IsIssueStatus, IsIssueKind, IsIssueOrder, IsFreeIssueField;
  }

  // ---------- the keys ----------

  /** A cache key: fixed words and ids, then the serialized parameters. */
  function ListKey(projectId: Text, scope: Text, params: seq<Entry>): seq<Text> {
    [Lit("projects"), projectId, scope, Lit("list"), Serialize(params)]
  }

  /** Two clean filter states of the same or different lists share a key only if they are the same. */
  lemma ListKeysDistinct(p1: Text, scope1: Text, a: seq<Entry>, p2: Text, scope2: Text, b: seq<Entry>)
    requires HasDistinctKeys(a) && HasDistinctKeys(b)
    requires IsClean(Kept(a)) && IsClean(Kept(b))
    ensures ListKey(p1, scope1, a) == ListKey(p2, scope2, b) <==>
      p1 == p2 && scope1 == scope2 && forall q :: q in Kept(a) <==> q in Kept(b)
  {
    SerializeInjective(a, b);
    var k1, k2 := ListKey(p1, scope1, a), ListKey(p2, scope2, b);
    assert k1 == k2 ==> k1[1] == k2[1] && k1[2] == k2[2] && k1[4] == k2[4];
  }
}
