/**
 * UTF-16 strings, Unicode scalar values and UTF-8 bytes (sections 3 and 4 of RFC 3629):
 * what `TextEncoder.encode` and a fatal `TextDecoder.decode` compute.
 */
module Utf8 {
  import opened Wrappers
  import opened JsText

  type Scalar = n: int | 0 <= n < 0xD800 || 0xE000 <= n < 0x110000

  const REPLACEMENT: Scalar := 0xFFFD

  // ---------- UTF-16 ----------

  predicate IsHighSurrogate(u: Unit) { 0xD800 <= u < 0xDC00 }
  predicate IsLowSurrogate(u: Unit) { 0xDC00 <= u < 0xE000 }

  /** The scalar values of a string; a surrogate without its partner becomes U+FFFD. */
  function Scalars(s: Text): seq<Scalar> {
    if s == [] then []
    else if IsHighSurrogate(s[0]) && |s| > 1 && IsLowSurrogate(s[1]) then
      [0x10000 + (s[0] - 0xD800) * 0x400 + (s[1] - 0xDC00)] + Scalars(s[2..])
    else if IsHighSurrogate(s[0]) || IsLowSurrogate(s[0]) then [REPLACEMENT] + Scalars(s[1..])
    else [s[0]] + Scalars(s[1..])
  }

  function Units(c: Scalar): (s: Text)
    ensures |s| == if c < 0x10000 then 1 else 2
  {
    if c < 0x10000 then [c]
    else [0xD800 + (c - 0x10000) / 0x400, 0xDC00 + (c - 0x10000) % 0x400]
  }

  function FromScalars(cs: seq<Scalar>): Text {
    if cs == [] then [] else Units(cs[0]) + FromScalars(cs[1..])
  }

  lemma ScalarsOfUnits(c: Scalar, rest: Text)
    ensures Scalars(Units(c) + rest) == [c] + Scalars(rest)
  {
    var s := Units(c) + rest;
    if c < 0x10000 {
      assert s[1..] == rest;
    } else {
      assert s[2..] == rest;
    }
  }

  /** Writing scalar values as UTF-16 loses nothing. */
  lemma {:induction false} ScalarsRoundTrip(cs: seq<Scalar>)
    ensures Scalars(FromScalars(cs)) == cs
  {
    if cs != [] {
      ScalarsRoundTrip(cs[1..]);
      ScalarsOfUnits(cs[0], FromScalars(cs[1..]));
    }
  }

  lemma {:induction false} FromScalarsAppend(a: seq<Scalar>, b: seq<Scalar>)
    ensures FromScalars(a + b) == FromScalars(a) + FromScalars(b)
  {
    hide Units;
    if a == [] {
      assert a + b == b;
    } else {
      FromScalarsAppend(a[1..], b);
      HeadOfAppend(a, b);
      AppendAssociative(Units(a[0]), FromScalars(a[1..]), FromScalars(b));
    }
  }

  // ---------- UTF-8 ----------

  function Width(c: Scalar): nat {
    if c < 0x80 then 1 else if c < 0x800 then 2 else if c < 0x10000 then 3 else 4
  }

  function EncodeOne(c: Scalar): (bs: seq<Byte>)
    ensures |bs| == Width(c)
  {
    if c < 0x80 then [c]
    else if c < 0x800 then [0xC0 + c / 0x40, 0x80 + c % 0x40]
    else if c < 0x10000 then [0xE0 + c / 0x40 / 0x40, 0x80 + c / 0x40 % 0x40, 0x80 + c % 0x40]
    else [0xF0 + c / 0x40 / 0x40 / 0x40, 0x80 + c / 0x40 / 0x40 % 0x40, 0x80 + c / 0x40 % 0x40, 0x80 + c % 0x40]
  }

  function Encode(cs: seq<Scalar>): seq<Byte> {
    if cs == [] then [] else EncodeOne(cs[0]) + Encode(cs[1..])
  }

  predicate IsTail(b: Byte) { 0x80 <= b < 0xC0 }

  /** The number of bytes a lead byte announces; 0 when it cannot start a sequence. */
  function Announced(lead: Byte): nat {
    if lead < 0x80 then 1
    else if 0xC2 <= lead < 0xE0 then 2
    else if 0xE0 <= lead < 0xF0 then 3
    else if 0xF0 <= lead < 0xF5 then 4
    else 0
  }

  /** Shortest form only, no surrogates, nothing above U+10FFFF. */
  predicate SecondByteAllowed(lead: Byte, second: Byte) {
    && IsTail(second)
    && (lead == 0xE0 ==> second >= 0xA0)
    && (lead == 0xED ==> second < 0xA0)
    && (lead == 0xF0 ==> second >= 0x90)
    && (lead == 0xF4 ==> second < 0x90)
  }

  /** The first scalar value of a byte string, when it starts with a well-formed sequence. */
  function DecodeOne(bs: seq<Byte>): (r: Option<Scalar>)
    requires bs != []
    ensures r.Some? ==> Width(r.value) == Announced(bs[0]) <= |bs|
  {
    var n := Announced(bs[0]);
    if n == 0 || n > |bs| then None
    else if n == 1 then Some(bs[0])
    else if !SecondByteAllowed(bs[0], bs[1]) then None
    else if n == 2 then Some(Shift6(bs[0] - 0xC0, bs[1]))
    else if !IsTail(bs[2]) then None
    else if n == 3 then Some(Shift6(Shift6(bs[0] - 0xE0, bs[1]), bs[2]))
    else if !IsTail(bs[3]) then None
    else Some(Shift6(Shift6(Shift6(bs[0] - 0xF0, bs[1]), bs[2]), bs[3]))
  }

  /** Append the six payload bits of a tail byte. */
  function Shift6(high: int, tail: int): int { high * 0x40 + (tail - 0x80) }

  lemma Shift6Undone(high: int, tail: Byte)
    requires IsTail(tail)
    ensures Shift6(high, tail) / 0x40 == high && Shift6(high, tail) % 0x40 == tail - 0x80
  {}

  /** Fatal decoding: `None` where `TextDecoder` throws. */
  function Decode(bs: seq<Byte>): Option<seq<Scalar>> {
    if bs == [] then Some([])
    else match DecodeOne(bs)
      case None => None
      case Some(c) =>
        match Decode(bs[Width(c)..])
        case None => None
        case Some(cs) => Some([c] + cs)
  }

  lemma DecodeOneOfEncoded(c: Scalar, rest: seq<Byte>)
    ensures DecodeOne(EncodeOne(c) + rest) == Some(c)
  {
    var e, bs := EncodeOne(c), EncodeOne(c) + rest;
    assert forall i | 0 <= i < |e| :: bs[i] == e[i];
  }

  /** The examples of section 7 of RFC 3629, and a character of two UTF-16 units. */
  lemma Examples()
    ensures EncodeOne(0x41) == [0x41] && EncodeOne(0x391) == [0xCE, 0x91] && EncodeOne(0x2262) == [0xE2, 0x89, 0xA2]
    ensures EncodeOne(0xD55C) == [0xED, 0x95, 0x9C] && EncodeOne(0xFEFF) == [0xEF, 0xBB, 0xBF]
    ensures EncodeOne(0x65E5) == [0xE6, 0x97, 0xA5] && EncodeOne(0x233B4) == [0xF0, 0xA3, 0x8E, 0xB4]
    ensures Units(0x233B4) == [0xD84C, 0xDFB4]
  {}

  /** A surrogate without its partner becomes U+FFFD, a pair one character. */
  lemma LoneSurrogates(u: Unit, low: Unit)
    requires IsHighSurrogate(u) && IsLowSurrogate(low)
    ensures Scalars([u]) == [0xFFFD] && Scalars([low]) == [0xFFFD] && Scalars([low, u]) == [0xFFFD, 0xFFFD]
    ensures |Scalars([u, low])| == 1 && Units(Scalars([u, low])[0]) == [u, low]
  {
    assert [u][1..] == [] && [low, u][1..] == [u] && [u, low][2..] == [];
  }

  lemma DecodeOneOfTruncated(c: Scalar, m: nat)
    requires 0 < m < Width(c)
    ensures DecodeOne(EncodeOne(c)[..m]) == None
  {}

  /** Only the shortest encoding of a scalar value decodes to it. */
  lemma DecodeOneIsCanonical(bs: seq<Byte>)
    requires bs != [] && DecodeOne(bs).Some?
    ensures EncodeOne(DecodeOne(bs).value) == bs[..Announced(bs[0])]
  {
    var n, e := Announced(bs[0]), EncodeOne(DecodeOne(bs).value);
    if n == 2 {
      Shift6Undone(bs[0] - 0xC0, bs[1]);
    } else if n == 3 {
      Shift6Undone(bs[0] - 0xE0, bs[1]);
      Shift6Undone(Shift6(bs[0] - 0xE0, bs[1]), bs[2]);
    } else if n == 4 {
      var c1 := Shift6(bs[0] - 0xF0, bs[1]);
      Shift6Undone(bs[0] - 0xF0, bs[1]);
      Shift6Undone(c1, bs[2]);
      Shift6Undone(Shift6(c1, bs[2]), bs[3]);
    }
    assert |e| == n && forall i | 0 <= i < n :: e[i] == bs[i];
  }

  lemma {:induction false} EncodeAppend(a: seq<Scalar>, b: seq<Scalar>)
    ensures Encode(a + b) == Encode(a) + Encode(b)
  {
    hide EncodeOne;
    if a == [] {
      assert a + b == b;
    } else {
      EncodeAppend(a[1..], b);
      HeadOfAppend(a, b);
      AppendAssociative(EncodeOne(a[0]), Encode(a[1..]), Encode(b));
    }
  }

  /** Decoding undoes encoding, and whatever decodes is the encoding of the result. */
  lemma {:induction false} DecodeEncode(cs: seq<Scalar>)
    ensures Decode(Encode(cs)) == Some(cs)
  {
    if cs != [] {
      DecodeEncode(cs[1..]);
      DecodeOneOfEncoded(cs[0], Encode(cs[1..]));
      assert Encode(cs)[Width(cs[0])..] == Encode(cs[1..]);
      assert cs == [cs[0]] + cs[1..];
    }
  }

  lemma EncodeCons(c: Scalar, cs: seq<Scalar>)
    ensures Encode([c] + cs) == EncodeOne(c) + Encode(cs)
  {
    assert ([c] + cs)[1..] == cs;
  }

  lemma {:induction false} EncodeDecode(bs: seq<Byte>)
    requires Decode(bs).Some?
    ensures Encode(Decode(bs).value) == bs
  {
    hide DecodeOne, EncodeOne, Encode;
    if bs == [] {
      EncodeNothing();
    } else {
      var c := DecodeOne(bs).value;
      var rest := bs[Width(c)..];
      DecodeOneIsCanonical(bs);
      EncodeDecode(rest);
      EncodeCons(c, Decode(rest).value);
      assert bs == bs[..Width(c)] + rest;
    }
  }

  lemma EncodeNothing()
    ensures Encode([]) == []
  {}

  /** The byte offset at which the first `k` scalar values end. */
  function Offset(cs: seq<Scalar>, k: nat): nat
    requires k <= |cs|
  {
    |Encode(cs[..k])|
  }

  ghost predicate IsBoundary(cs: seq<Scalar>, m: int) {
    exists k: nat | k <= |cs| :: Offset(cs, k) == m
  }

  lemma OffsetStep(cs: seq<Scalar>, k: nat)
    requires 0 < k <= |cs|
    ensures Offset(cs, k) == Width(cs[0]) + Offset(cs[1..], k - 1)
  {
    assert cs[..k][1..] == cs[1..][..k - 1];
  }

  /** The prefixes of an encoding that decode are exactly those that end at a code point. */
  lemma {:induction false} DecodePrefix(cs: seq<Scalar>, m: nat)
    requires m <= |Encode(cs)|
    ensures Decode(Encode(cs)[..m]).Some? <==> IsBoundary(cs, m)
    ensures forall k: nat | k <= |cs| && Offset(cs, k) == m :: Decode(Encode(cs)[..m]) == Some(cs[..k])
  {
    hide DecodeOne, EncodeOne;
    var bs := Encode(cs);
    if m == 0 {
      assert Offset(cs, 0) == 0;
      forall k: nat | k <= |cs| && Offset(cs, k) == 0 ensures k == 0 {
        if k > 0 { OffsetStep(cs, k); }
      }
    } else {
      var w := Width(cs[0]);
      forall k: nat | k <= |cs| && Offset(cs, k) == m ensures k > 0 && m == w + Offset(cs[1..], k - 1) {
        if k > 0 { OffsetStep(cs, k); }
      }
      if m < w {
        assert bs[..m] == EncodeOne(cs[0])[..m];
        DecodeOneOfTruncated(cs[0], m);
      } else {
        assert bs[..m] == EncodeOne(cs[0]) + Encode(cs[1..])[..m - w];
        DecodeOneOfEncoded(cs[0], Encode(cs[1..])[..m - w]);
        assert bs[..m][w..] == Encode(cs[1..])[..m - w];
        DecodePrefix(cs[1..], m - w);
        if IsBoundary(cs[1..], m - w) {
          var j: nat :| j <= |cs[1..]| && Offset(cs[1..], j) == m - w;
          OffsetStep(cs, j + 1);
          assert Offset(cs, j + 1) == m;
        }
        forall k: nat | k <= |cs| && Offset(cs, k) == m
          ensures Decode(bs[..m]) == Some(cs[..k])
        {
          assert Offset(cs[1..], k - 1) == m - w;
          assert cs[..k] == [cs[0]] + cs[1..][..k - 1];
        }
      }
    }
  }
}
