/**
 * `truncateToBytes` of packages/db/src/sanitize.ts: bisection over the UTF-8 bytes of a string.
 * The probed predicate ("this prefix decodes") is not monotone, so the search need not end at the
 * largest boundary; it is idempotent all the same.
 */
module Truncate {
  import opened Wrappers
  import opened JsText
  import opened Utf8

  const ELLIPSIS: Scalar := 0x2026
  const BOM: Scalar := 0xFEFF

  /** `TextEncoder.encode`. */
  function Bytes(s: Text): seq<Byte> { Encode(Scalars(s)) }

  /** A `TextDecoder` drops one leading byte order mark from what it returns. */
  function WithoutBom(cs: seq<Scalar>): seq<Scalar> {
    if cs != [] && cs[0] == BOM then cs[1..] else cs
  }

  predicate Decodes(bytes: seq<Byte>, m: nat)
    requires m <= |bytes|
  {
    Decode(bytes[..m]).Some?
  }

  function Limit(bytes: seq<Byte>, maxBytes: int): int {
    if maxBytes < |bytes| then maxBytes else |bytes|
  }

  /** The length at which the bisection ends. */
  function Search(bytes: seq<Byte>, low: nat, high: int): (r: nat)
    requires low <= |bytes| && high <= |bytes|
    ensures low <= r && (r == low || r <= high) && r <= |bytes|
    ensures Decodes(bytes, low) ==> Decodes(bytes, r)
    decreases high - low
  {
    if low >= high then low
    else
      var mid := (low + high + 1) / 2;
      if Decodes(bytes, mid) then Search(bytes, mid, high) else Search(bytes, low, mid - 1)
  }

  function Kept(input: Text, maxBytes: int): nat {
    Search(Bytes(input), 0, Limit(Bytes(input), maxBytes))
  }

  function Truncated(input: Text, maxBytes: int): Text {
    var bytes := Bytes(input);
    if |bytes| <= maxBytes then input
    else FromScalars(WithoutBom(Decode(bytes[..Kept(input, maxBytes)]).value)) + [ELLIPSIS]
  }

  /** `r` is the first `k` code points, within the budget, and an ellipsis. */
  ghost predicate ShortenedTo(cs: seq<Scalar>, k: nat, maxBytes: int, r: Text) {
    && k <= |cs|
    && Offset(cs, k) <= (if maxBytes < 0 then 0 else maxBytes)
    && r == FromScalars(WithoutBom(cs[..k])) + [0x2026]
  }

  method TruncateToBytes(input: Text, maxBytes: int) returns (r: Text)
    ensures |Bytes(input)| <= maxBytes ==> r == input
    ensures |Bytes(input)| > maxBytes ==>
      exists k: nat :: ShortenedTo(Scalars(input), k, maxBytes, r)
    ensures r == Truncated(input, maxBytes)
  {
    hide DecodeOne, Encode, Scalars, FromScalars;
    var bytes := Bytes(input);
    if |bytes| <= maxBytes {
      return input;
    }
    var low: nat, high := 0, Limit(bytes, maxBytes);
    while low < high
      invariant low <= |bytes| && high <= |bytes|
      invariant low == 0 || low <= maxBytes
      invariant high <= maxBytes
      invariant Decodes(bytes, low)
      invariant Search(bytes, low, high) == Kept(input, maxBytes)
      decreases high - low
    {
      var mid := (low + high + 1) / 2;
      if Decode(bytes[..mid]).Some? {
        low := mid;
      } else {
        high := mid - 1;
      }
    }
    r := FromScalars(WithoutBom(Decode(bytes[..low]).value)) + [ELLIPSIS];
    ghost var cs := Scalars(input);
    DecodePrefix(cs, low);
    ghost var k: nat :| k <= |cs| && Offset(cs, k) == low;
    assert Decode(bytes[..low]) == Some(cs[..k]);
    assert ShortenedTo(cs, k, maxBytes, r);
  }

  /** A second byte string that agrees up to the result and decodes nowhere after it is searched alike. */
  lemma {:induction false} SearchAgrees(a: seq<Byte>, b: seq<Byte>, low: nat, high: int)
    requires low <= |a| && high <= |a| && low <= |b| && high <= |b|
    requires var r := Search(a, low, high); r <= |b| && a[..r] == b[..r]
    requires forall m: nat | Search(a, low, high) < m <= high :: !Decodes(b, m)
    ensures Search(b, low, high) == Search(a, low, high)
    decreases high - low
  {
    hide Decode;
    if low < high {
      var mid, r := (low + high + 1) / 2, Search(a, low, high);
      if mid <= r {
        assert a[..mid] == a[..r][..mid] == b[..r][..mid] == b[..mid];
      }
      if Decodes(a, mid) {
        SearchAgrees(a, b, mid, high);
      } else {
        SearchAgrees(a, b, low, mid - 1);
      }
    }
  }

  lemma EllipsisIsThreeBytes(cs: seq<Scalar>)
    ensures Encode(cs + [ELLIPSIS]) == Encode(cs) + EncodeOne(ELLIPSIS)
    ensures |Encode(cs + [ELLIPSIS])| == |Encode(cs)| + 3
  {
    EncodeAppend(cs, [ELLIPSIS]);
    assert Encode([ELLIPSIS]) == EncodeOne(ELLIPSIS) + Encode([]);
  }

  /** No byte position inside a trailing ellipsis is a boundary. */
  lemma InsideEllipsis(cs: seq<Scalar>, m: nat)
    requires |Encode(cs)| < m < |Encode(cs)| + 3
    ensures |Encode(cs + [ELLIPSIS])| > m && !Decodes(Encode(cs + [ELLIPSIS]), m)
  {
    var all := cs + [ELLIPSIS];
    EllipsisIsThreeBytes(cs);
    DecodePrefix(all, m);
    forall k: nat | k <= |all| ensures Offset(all, k) != m {
      if k <= |cs| {
        assert all[..k] + cs[k..] == cs;
        EncodeAppend(all[..k], cs[k..]);
      } else {
        assert all[..k] == all;
      }
    }
  }

  /** The scalar values, and so the bytes, of a shortened result. */
  lemma TruncatedScalars(input: Text, maxBytes: int) returns (ds: seq<Scalar>)
    requires |Bytes(input)| > maxBytes
    ensures Encode(ds) == Bytes(input)[..Kept(input, maxBytes)]
    ensures Decode(Bytes(input)[..Kept(input, maxBytes)]) == Some(ds)
    ensures Truncated(input, maxBytes) == FromScalars(WithoutBom(ds)) + [ELLIPSIS]
    ensures Scalars(Truncated(input, maxBytes)) == WithoutBom(ds) + [ELLIPSIS]
  {
    var prefix := Bytes(input)[..Kept(input, maxBytes)];
    ds := Decode(prefix).value;
    EncodeDecode(prefix);
    FromScalarsAppend(WithoutBom(ds), [ELLIPSIS]);
    assert FromScalars([ELLIPSIS]) == Units(ELLIPSIS) + FromScalars([]) == Units(ELLIPSIS);
    assert Units(ELLIPSIS) == [ELLIPSIS];
    ScalarsRoundTrip(WithoutBom(ds) + [ELLIPSIS]);
  }

  /** A shortened result takes three bytes more than the bytes kept, minus a dropped byte order mark. */
  lemma TruncatedSize(input: Text, maxBytes: int)
    requires |Bytes(input)| > maxBytes
    ensures var kept, bom := Kept(input, maxBytes), Scalars(input) != [] && Scalars(input)[0] == 0xFEFF;
      |Bytes(Truncated(input, maxBytes))| == if bom && kept > 0 then kept else kept + 3
  {
    var kept, cs := Kept(input, maxBytes), Scalars(input);
    var ds := TruncatedScalars(input, maxBytes);
    EllipsisIsThreeBytes(WithoutBom(ds));
    DecodePrefix(cs, kept);
    var k: nat :| k <= |cs| && Offset(cs, k) == kept;
    assert ds == cs[..k];
    assert kept > 0 <==> ds != [];
    if ds != [] && ds[0] == BOM {
      assert Encode(ds) == EncodeOne(BOM) + Encode(ds[1..]);
    }
  }

  /** Truncating twice is truncating once, for every string and every budget. */
  lemma TruncateIdempotent(input: Text, maxBytes: int)
    ensures Truncated(Truncated(input, maxBytes), maxBytes) == Truncated(input, maxBytes)
  {
    var a := Bytes(input);
    var out := Truncated(input, maxBytes);
    var b := Bytes(out);
    if |a| > maxBytes && |b| > maxBytes {
      var low := Kept(input, maxBytes);
      var ds := TruncatedScalars(input, maxBytes);
      if ds != [] && ds[0] == BOM {
        assert Encode(ds) == EncodeOne(BOM) + Encode(ds[1..]);
        EllipsisIsThreeBytes(ds[1..]);
      } else {
        EllipsisIsThreeBytes(ds);
        assert b[..low] == a[..low];
        forall m: nat | low < m <= maxBytes ensures !Decodes(b, m) {
          InsideEllipsis(ds, m);
        }
        SearchAgrees(a, b, 0, maxBytes);
      }
    }
  }

  // ---------- where the bisection meets the largest boundary ----------

  ghost predicate IsLargestBoundary(cs: seq<Scalar>, best: nat, limit: nat) {
    && best <= limit && IsBoundary(cs, best)
    && forall m | best < m <= limit :: !IsBoundary(cs, m)
  }

  /** The probes lead to `b`: of the midpoints tried, those up to `b` end a code point, the others do not. */
  ghost predicate ProbesLeadTo(cs: seq<Scalar>, b: nat, low: nat, high: int)
    decreases high - low
  {
    low < high ==>
      var mid := (low + high + 1) / 2;
      if mid <= b then IsBoundary(cs, mid) && ProbesLeadTo(cs, b, mid, high)
      else !IsBoundary(cs, mid) && ProbesLeadTo(cs, b, low, mid - 1)
  }

  /** The search ends at a position if and only if the probes lead there. */
  lemma {:induction false} SearchEndsAtIff(cs: seq<Scalar>, b: nat, low: nat, high: nat)
    requires low <= b <= high <= |Encode(cs)|
    ensures Search(Encode(cs), low, high) == b <==> ProbesLeadTo(cs, b, low, high)
    decreases high - low
  {
    hide Decode, Encode;
    if low < high {
      var mid := (low + high + 1) / 2;
      DecodePrefix(cs, mid);
      if mid <= b {
        if IsBoundary(cs, mid) { SearchEndsAtIff(cs, b, mid, high); }
      } else {
        if !IsBoundary(cs, mid) { SearchEndsAtIff(cs, b, low, mid - 1); }
      }
    }
  }

  /** Bisecting for the largest boundary, every midpoint not beyond it ends a code point. */
  ghost predicate ProbesAreBoundaries(cs: seq<Scalar>, best: nat, low: nat, high: int)
    decreases high - low
  {
    low < high ==>
      var mid := (low + high + 1) / 2;
      if mid <= best then IsBoundary(cs, mid) && ProbesAreBoundaries(cs, best, mid, high)
      else ProbesAreBoundaries(cs, best, low, mid - 1)
  }

  lemma {:induction false} LeadToLargestIff(cs: seq<Scalar>, best: nat, low: nat, high: nat)
    requires low <= best <= high && forall m | best < m <= high :: !IsBoundary(cs, m)
    ensures ProbesLeadTo(cs, best, low, high) <==> ProbesAreBoundaries(cs, best, low, high)
    decreases high - low
  {
    if low < high {
      var mid := (low + high + 1) / 2;
      if mid <= best {
        LeadToLargestIff(cs, best, mid, high);
      } else {
        LeadToLargestIff(cs, best, low, mid - 1);
      }
    }
  }

  /**
   * The comment in the source promises the largest boundary within the budget. It is found if and
   * only if no midpoint probed on the way to it falls inside a code point.
   */
  lemma LargestBoundaryKeptIff(input: Text, maxBytes: nat, best: nat)
    requires |Bytes(input)| > maxBytes
    requires IsLargestBoundary(Scalars(input), best, maxBytes)
    ensures Kept(input, maxBytes) == best <==> ProbesAreBoundaries(Scalars(input), best, 0, maxBytes)
  {
    SearchEndsAtIff(Scalars(input), best, 0, maxBytes);
    LeadToLargestIff(Scalars(input), best, 0, maxBytes);
  }

  // ---------- when the result is longer than the budget ----------

  /** A position in the last three bytes of the budget to which the probes lead. */
  ghost predicate ReachesLastThree(cs: seq<Scalar>, maxBytes: nat) {
    exists b: nat | maxBytes - 3 < b <= maxBytes :: ProbesLeadTo(cs, b, 0, maxBytes)
  }

  predicate BeginsWithBom(cs: seq<Scalar>) { cs != [] && cs[0] == 0xFEFF }

  lemma LastThreeIff(cs: seq<Scalar>, maxBytes: nat)
    requires maxBytes <= |Encode(cs)|
    ensures ReachesLastThree(cs, maxBytes) <==> Search(Encode(cs), 0, maxBytes) + 3 > maxBytes
  {
    hide Search, Encode, ProbesLeadTo;
    var r := Search(Encode(cs), 0, maxBytes);
    SearchEndsAtIff(cs, r, 0, maxBytes);
    if b: nat :| maxBytes - 3 < b <= maxBytes && ProbesLeadTo(cs, b, 0, maxBytes) {
      SearchEndsAtIff(cs, b, 0, maxBytes);
    }
  }

  /** A search below the length of a byte order mark finds nothing of it. */
  lemma NoBomBelowThree(cs: seq<Scalar>, maxBytes: nat)
    requires BeginsWithBom(cs) && maxBytes <= |Encode(cs)|
    ensures maxBytes < 3 ==> Search(Encode(cs), 0, maxBytes) == 0
  {
    var r := Search(Encode(cs), 0, maxBytes);
    assert Encode(cs) == EncodeOne(BOM) + Encode(cs[1..]);
    DecodePrefix(cs, 0);
    assert cs[..0] == [];
    DecodePrefix(cs, r);
    var k: nat :| k <= |cs| && Offset(cs, k) == r;
    if k > 0 { assert cs[..k][0] == BOM; }
  }

  /**
   * The result takes more bytes than the budget exactly if the input did not fit and: the budget is
   * negative; or the input begins with a byte order mark and the budget is below three; or it does
   * not, and the probes lead into the last three bytes of the budget.
   */
  lemma ExceedsBudgetIff(input: Text, maxBytes: int)
    ensures |Bytes(Truncated(input, maxBytes))| > maxBytes <==>
      && |Bytes(input)| > maxBytes
      && (|| maxBytes < 0
          || if BeginsWithBom(Scalars(input)) then maxBytes < 3 else ReachesLastThree(Scalars(input), maxBytes))
  {
    if |Bytes(input)| > maxBytes {
      TruncatedSize(input, maxBytes);
      if maxBytes >= 0 {
        LastThreeIff(Scalars(input), maxBytes);
        if BeginsWithBom(Scalars(input)) { NoBomBelowThree(Scalars(input), maxBytes); }
      }
    }
  }

  /** Every ASCII text that does not fit ends up three bytes over the budget. */
  lemma AsciiExceedsBudget(input: Text, maxBytes: nat)
    requires |input| > maxBytes && forall c <- input :: c < 0x80
    ensures |Bytes(input)| == |input| && |Bytes(Truncated(input, maxBytes))| == maxBytes + 3
  {
    hide Search, Encode, Truncated, Scalars;
    AsciiSize(input);
    AsciiScalars(input);
    assert input[0] in input;
    forall m: nat | m <= maxBytes ensures IsBoundary(input, m) {
      assert forall c <- input[..m] :: c in input;
      AsciiScalars(input[..m]);
      AsciiSize(input[..m]);
      assert Offset(input, m) == m;
    }
    SearchDense(input, 0, maxBytes);
    TruncatedSize(input, maxBytes);
  }

  /** `abcd` cut to 3 bytes takes 6. */
  lemma BudgetExceededExample()
    ensures |Bytes(Truncated(Lit("abcd"), 3))| == 6
  {
    AsciiExceedsBudget(Lit("abcd"), 3);
  }

  lemma {:induction false} AsciiScalars(s: Text)
    requires forall c <- s :: c < 0x80
    ensures Scalars(s) == s
  {
    if s != [] {
      assert s[0] in s && forall c <- s[1..] :: c in s;
      AsciiScalars(s[1..]);
      assert s == [s[0]] + s[1..];
    }
  }

  /** In particular it is found when every position up to the budget ends a code point, as in ASCII text. */
  lemma {:induction false} SearchDense(cs: seq<Scalar>, low: nat, high: nat)
    requires low <= high <= |Encode(cs)|
    requires forall m: nat | m <= high :: IsBoundary(cs, m)
    ensures Search(Encode(cs), low, high) == high
    decreases high - low
  {
    if low < high {
      DecodePrefix(cs, (low + high + 1) / 2);
      SearchDense(cs, (low + high + 1) / 2, high);
    }
  }

  /** Three four-byte characters and a budget of ten bytes: nothing is kept although eight bytes fit. */
  lemma LargestBoundaryMissed()
    ensures var input := [0xD83C, 0xDF89, 0xD83C, 0xDF89, 0xD83C, 0xDF89];
      && IsLargestBoundary(Scalars(input), 8, 10)
      && Kept(input, 10) == 0
      && Truncated(input, 10) == [0x2026]
  {
    var input: Text := [0xD83C, 0xDF89, 0xD83C, 0xDF89, 0xD83C, 0xDF89];
    var c: Scalar := 0x1F389;
    var cs := [c, c, c];
    assert Scalars([]) == [];
    assert input[2..] == [0xD83C, 0xDF89, 0xD83C, 0xDF89];
    assert input[2..][2..] == [0xD83C, 0xDF89];
    assert Scalars(input) == cs;
    assert Encode([c]) == EncodeOne(c) + Encode([]);
    assert Encode([c, c]) == EncodeOne(c) + Encode([c]);
    assert Encode(cs) == EncodeOne(c) + Encode([c, c]);
    assert cs[..0] == [] && cs[..1] == [c] && cs[..2] == [c, c] && cs[..3] == cs;
    assert Offset(cs, 0) == 0 && Offset(cs, 1) == 4 && Offset(cs, 2) == 8 && Offset(cs, 3) == 12;
    forall m: nat | m <= 12 ensures IsBoundary(cs, m) <==> m in {0, 4, 8, 12} {
      if m == 0 { assert Offset(cs, 0) == m; }
      if m == 4 { assert Offset(cs, 1) == m; }
      if m == 8 { assert Offset(cs, 2) == m; }
      if m == 12 { assert Offset(cs, 3) == m; }
    }
    SearchMissed(cs);
    DecodePrefix(cs, 0);
  }

  lemma SearchMissed(cs: seq<Scalar>)
    requires |Encode(cs)| == 12
    requires forall m: nat | m <= 12 :: IsBoundary(cs, m) <==> m in {0, 4, 8, 12}
    ensures Search(Encode(cs), 0, 10) == 0
  {
    DecodePrefix(cs, 5);
    DecodePrefix(cs, 2);
    DecodePrefix(cs, 1);
    assert Search(Encode(cs), 0, 1) == 0;
    assert Search(Encode(cs), 0, 4) == 0;
  }

  /** ASCII text has as many bytes as units. */
  lemma {:induction false} AsciiSize(s: Text)
    requires forall c <- s :: c < 0x80
    ensures |Bytes(s)| == |s|
  {
    if s != [] {
      assert forall c <- s[1..] :: c in s;
      AsciiSize(s[1..]);
      assert s[0] in s;
      assert Scalars(s)[1..] == Scalars(s[1..]);
    }
  }
}
