/** Sorting by a text key in code-unit order, as the sources do with a comparator on `<`. */
module Sorting {
  import opened JsText

  function Insert<T>(x: T, sorted: seq<T>, key: T -> Text): seq<T> {
    if sorted == [] || !Less(key(sorted[0]), key(x)) then [x] + sorted
    else [sorted[0]] + Insert(x, sorted[1..], key)
  }

  function Sort<T>(xs: seq<T>, key: T -> Text): seq<T> {
    if xs == [] then [] else Insert(xs[0], Sort(xs[1..], key), key)
  }

  ghost predicate IsSorted<T>(xs: seq<T>, key: T -> Text) {
    forall i, j | 0 <= i < j < |xs| :: !Less(key(xs[j]), key(xs[i]))
  }

  /** Keys strictly increasing. */
  ghost predicate IsAscending<T>(xs: seq<T>, key: T -> Text) {
    forall i, j | 0 <= i < j < |xs| :: Less(key(xs[i]), key(xs[j]))
  }

  ghost predicate AreKeysDistinct<T>(xs: seq<T>, key: T -> Text) {
    forall i, j | 0 <= i < j < |xs| :: key(xs[i]) != key(xs[j])
  }

  lemma {:induction false} InsertedElements<T>(x: T, sorted: seq<T>, key: T -> Text)
    ensures multiset(Insert(x, sorted, key)) == multiset(sorted) + multiset{x}
  {
    if sorted != [] {
      InsertedElements(x, sorted[1..], key);
      assert sorted == [sorted[0]] + sorted[1..];
    }
  }

  lemma InsertedIff<T>(x: T, sorted: seq<T>, key: T -> Text, y: T)
    ensures y in Insert(x, sorted, key) <==> y == x || y in sorted
  {
    hide Insert;
    InsertedElements(x, sorted, key);
    assert y in Insert(x, sorted, key) <==> y in multiset(Insert(x, sorted, key));
  }

  /** Not before in order, and so not before what follows. */
  lemma NotBefore(a: Text, b: Text, c: Text)
    requires !Less(b, a) && !Less(c, b)
    ensures !Less(c, a)
  {
    if Less(c, a) {
      LessTotal(a, b);
      LessTotal(b, c);
      if b != c && a != b { LessTransitive(c, a, b); }
    }
  }

  lemma {:induction false} InsertedInOrder<T>(x: T, sorted: seq<T>, key: T -> Text)
    requires IsSorted(sorted, key)
    ensures IsSorted(Insert(x, sorted, key), key)
  {
    hide Less;
    if sorted == [] {
    } else if Less(key(sorted[0]), key(x)) {
      var r := Insert(x, sorted[1..], key);
      InsertedInOrder(x, sorted[1..], key);
      LessTotal(key(sorted[0]), key(x));
      forall j | 0 <= j < |r| ensures !Less(key(r[j]), key(sorted[0])) {
        InsertedIff(x, sorted[1..], key, r[j]);
      }
    } else {
      forall j | 0 <= j < |sorted| ensures !Less(key(sorted[j]), key(x)) {
        if j > 0 { NotBefore(key(x), key(sorted[0]), key(sorted[j])); }
      }
    }
  }

  lemma {:induction false} InsertedDistinct<T>(x: T, sorted: seq<T>, key: T -> Text)
    requires AreKeysDistinct(sorted, key) && forall y <- sorted :: key(y) != key(x)
    ensures AreKeysDistinct(Insert(x, sorted, key), key)
  {
    hide Less;
    if sorted != [] && Less(key(sorted[0]), key(x)) {
      var r := Insert(x, sorted[1..], key);
      InsertedDistinct(x, sorted[1..], key);
      forall j | 0 <= j < |r| ensures key(r[j]) != key(sorted[0]) {
        InsertedIff(x, sorted[1..], key, r[j]);
      }
    }
  }

  /** Sorting gives a permutation in order. */
  lemma {:induction false} Sorted<T>(xs: seq<T>, key: T -> Text)
    ensures IsSorted(Sort(xs, key), key) && multiset(Sort(xs, key)) == multiset(xs)
  {
    hide Insert;
    if xs != [] {
      var rest := Sort(xs[1..], key);
      Sorted(xs[1..], key);
      InsertedInOrder(xs[0], rest, key);
      InsertedElements(xs[0], rest, key);
      assert xs == [xs[0]] + xs[1..];
    }
  }

  lemma SortedIff<T>(xs: seq<T>, key: T -> Text, x: T)
    ensures x in Sort(xs, key) <==> x in xs
  {
    Sorted(xs, key);
    assert x in Sort(xs, key) <==> x in multiset(Sort(xs, key));
  }

  lemma {:induction false} SortedDistinct<T>(xs: seq<T>, key: T -> Text)
    requires AreKeysDistinct(xs, key)
    ensures AreKeysDistinct(Sort(xs, key), key)
  {
    hide Insert;
    if xs != [] {
      var rest := Sort(xs[1..], key);
      SortedDistinct(xs[1..], key);
      forall y | y in rest ensures key(y) != key(xs[0]) { SortedIff(xs[1..], key, y); }
      InsertedDistinct(xs[0], rest, key);
    }
  }

  /** Distinct keys come out strictly ascending. */
  lemma SortAscending<T>(xs: seq<T>, key: T -> Text)
    requires AreKeysDistinct(xs, key)
    ensures IsAscending(Sort(xs, key), key)
  {
    hide Less, Sort;
    Sorted(xs, key);
    SortedDistinct(xs, key);
    var r := Sort(xs, key);
    forall i, j | 0 <= i < j < |r| ensures Less(key(r[i]), key(r[j])) { LessTotal(key(r[i]), key(r[j])); }
  }
}
