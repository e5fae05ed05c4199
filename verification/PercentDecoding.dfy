/**
 * `decodeURIComponent` (percent-encoding, section 2.1 of RFC 3986) and the bounded decoding rounds of
 * packages/artifacts/src/artifact-paths.ts.
 */
module PercentDecoding {
  import opened Wrappers
  import opened JsText
  import opened Utf8

  function HexValue(c: Unit): nat
    requires IsHex(c)
  {
    if IsDigit(c) then c - '0' as int
    else if IsLower(c) then c - 'a' as int + 10
    else c - 'A' as int + 10
  }

  /** The octet written `%XX` at the start of `s`. */
  function Octet(s: Text): (r: Option<Byte>) {
    if |s| >= 3 && s[0] == PERCENT && IsHex(s[1]) && IsHex(s[2]) then
      Some(HexValue(s[1]) * 16 + HexValue(s[2]))
    else None
  }

  /** The first `n` octets, when `s` starts with that many triplets. */
  function Octets(s: Text, n: nat): (r: Option<seq<Byte>>)
    ensures r.Some? ==> |r.value| == n && 3 * n <= |s|
    decreases n
  {
    if n == 0 then Some([])
    else match Octet(s)
      case None => None
      case Some(b) =>
        match Octets(s[3..], n - 1)
        case None => None
        case Some(bs) => Some([b] + bs)
  }

  /** `decodeURIComponent`; `None` is a `URIError`. */
  function DecodeUri(s: Text): Option<Text> {
    if s == [] then Some([])
    else if s[0] != PERCENT then
      match DecodeUri(s[1..])
      case None => None
      case Some(t) => Some([s[0]] + t)
    else match Octet(s)
      case None => None
      case Some(lead) =>
        var n := Announced(lead);
        if n == 0 then None
        else match Octets(s, n)
          case None => None
          case Some(bs) =>
            match DecodeOne(bs)
            case None => None
            case Some(c) =>
              match DecodeUri(s[3 * n..])
              case None => None
              case Some(t) => Some(Units(c) + t)
  }

  /** One round: text without `%` and malformed text stay as they are. */
  function Round(s: Text): Text {
    if PERCENT !in s then s
    else match DecodeUri(s)
      case None => s
      case Some(t) => t
  }

  function Rounds(s: Text, n: nat): Text
    decreases n
  {
    if n == 0 then s else Rounds(Round(s), n - 1)
  }

  const MAX_ROUNDS := 3

  /** Whether decoding has come to rest when the rounds run out. */
  predicate Settles(s: Text) { Round(Rounds(s, MAX_ROUNDS)) == Rounds(s, MAX_ROUNDS) }

  lemma {:induction false} RoundsAtRest(s: Text, n: nat)
    requires Round(s) == s
    ensures Rounds(s, n) == s
  {
    if n > 0 { RoundsAtRest(s, n - 1); }
  }

  method DecodePercentEncodings(value: Text) returns (current: Text)
    ensures current == Rounds(value, MAX_ROUNDS)
  {
    current := value;
    for round := 0 to MAX_ROUNDS
      invariant Rounds(current, MAX_ROUNDS - round) == Rounds(value, MAX_ROUNDS)
    {
      if PERCENT !in current {
        RoundsAtRest(current, MAX_ROUNDS - round);
        return;
      }
      match DecodeUri(current)
      case None =>
        RoundsAtRest(current, MAX_ROUNDS - round);
        return;
      case Some(decoded) =>
        if decoded == current {
          RoundsAtRest(current, MAX_ROUNDS - round);
          return;
        }
        current := decoded;
    }
  }

  /** Decoding leaves text without `%` alone and strictly shortens all other text. */
  lemma {:induction false} DecodeShortens(s: Text)
    requires DecodeUri(s).Some?
    ensures PERCENT !in s ==> DecodeUri(s).value == s
    ensures PERCENT in s ==> |DecodeUri(s).value| < |s|
  {
    if s != [] {
      assert s == [s[0]] + s[1..];
      if s[0] != PERCENT {
        DecodeShortens(s[1..]);
      } else {
        var n := Announced(Octet(s).value);
        var rest := s[3 * n..];
        DecodeShortens(rest);
        assert |DecodeUri(rest).value| <= |rest|;
      }
    }
  }

  lemma RoundShortens(s: Text)
    ensures Round(s) == s || |Round(s)| < |s|
  {
    if DecodeUri(s).Some? { DecodeShortens(s); }
  }

  lemma {:induction false} RoundsShorten(s: Text, n: nat)
    ensures |Rounds(s, n)| <= |s|
    ensures Round(s) != s && n > 0 ==> |Rounds(s, n)| < |s|
    decreases n
  {
    if n > 0 {
      RoundShortens(s);
      RoundsShorten(Round(s), n - 1);
    }
  }

  /** Decoding until nothing changes; it ends because every round that changes the text shortens it. */
  function DecodeFully(s: Text): (r: Text)
    ensures Round(r) == r
    decreases |s|
  {
    RoundShortens(s);
    if Round(s) == s then s else DecodeFully(Round(s))
  }

  /** Three rounds reach the fixed point exactly for the texts that settle. */
  lemma {:induction false} RoundsReachFixpoint(s: Text, n: nat)
    ensures Rounds(s, n) == DecodeFully(s) <==> Round(Rounds(s, n)) == Rounds(s, n)
    ensures DecodeFully(Rounds(s, n)) == DecodeFully(s)
    decreases n
  {
    hide Round;
    if Round(s) == s {
      RoundsAtRest(s, n);
    } else if n > 0 {
      RoundsReachFixpoint(Round(s), n - 1);
    }
  }

  // ---------- what decoding undoes ----------

  /** Which of the hexadecimal digits that are written are capitals; none but these. */
  type Capitals = seq<bool>

  function HexDigit(n: nat, capital: bool): Unit
    requires n < 16
  {
    if capital then "0123456789ABCDEF"[n] as int else "0123456789abcdef"[n] as int
  }

  function Triplet(b: Byte, first: bool, second: bool): Text {
    [PERCENT, HexDigit(b / 16, first), HexDigit(b % 16, second)]
  }

  predicate IsFirst(capitals: Capitals) { capitals != [] && capitals[0] }

  function Others(capitals: Capitals): Capitals { if capitals == [] then [] else capitals[1..] }

  function Triplets(bytes: seq<Byte>, capitals: Capitals): Text {
    if bytes == [] then []
    else
      Triplet(bytes[0], IsFirst(capitals), IsFirst(Others(capitals))) + Triplets(bytes[1..], Others(Others(capitals)))
  }

  /** A unit that is written as it is, or a character written as the octets of its UTF-8 encoding. */
  datatype Piece = Plain(u: Unit) | Escaped(c: Scalar, capitals: Capitals)

  function Write(pieces: seq<Piece>): Text {
    if pieces == [] then []
    else
      (match pieces[0]
       case Plain(u) => [u]
       case Escaped(c, capitals) => Triplets(EncodeOne(c), capitals)) + Write(pieces[1..])
  }

  /** The text that is written. */
  function Meant(pieces: seq<Piece>): Text {
    if pieces == [] then []
    else (match pieces[0] case Plain(u) => [u] case Escaped(c, _) => Units(c)) + Meant(pieces[1..])
  }

  predicate EscapesPercent(pieces: seq<Piece>) { forall p <- pieces :: p.Plain? ==> p.u != PERCENT }

  lemma HexDigitRead(n: nat, capital: bool)
    requires n < 16
    ensures IsHex(HexDigit(n, capital)) && HexValue(HexDigit(n, capital)) == n
  {
    assert n in {0, 1, 2, 3, 4, 5, 6, 7, 8, 9, 10, 11, 12, 13, 14, 15};
  }

  lemma OctetOfTriplet(b: Byte, first: bool, second: bool, rest: Text)
    ensures Octet(Triplet(b, first, second) + rest) == Some(b)
  {
    HexDigitRead(b / 16, first);
    HexDigitRead(b % 16, second);
  }

  lemma {:induction false} OctetsOfTriplets(bytes: seq<Byte>, capitals: Capitals, rest: Text)
    ensures |Triplets(bytes, capitals)| == 3 * |bytes|
    ensures Octets(Triplets(bytes, capitals) + rest, |bytes|) == Some(bytes)
  {
    hide Triplet, Octet, IsFirst, Others;
    if bytes != [] {
      var first, second := IsFirst(capitals), IsFirst(Others(capitals));
      var head, tail := Triplet(bytes[0], first, second), Triplets(bytes[1..], Others(Others(capitals)));
      OctetsOfTriplets(bytes[1..], Others(Others(capitals)), rest);
      OctetOfTriplet(bytes[0], first, second, tail + rest);
      TripletLength(bytes[0], first, second);
      assert head + tail + rest == head + (tail + rest);
      assert (head + (tail + rest))[3..] == tail + rest;
      assert bytes == [bytes[0]] + bytes[1..];
    }
  }

  lemma TripletLength(b: Byte, first: bool, second: bool)
    ensures |Triplet(b, first, second)| == 3 && Triplet(b, first, second)[0] == PERCENT
  {}

  lemma AnnouncedWidth(c: Scalar)
    ensures Announced(EncodeOne(c)[0]) == Width(c) && DecodeOne(EncodeOne(c)) == Some(c)
  {
    DecodeOneOfEncoded(c, []);
    assert EncodeOne(c) + [] == EncodeOne(c);
  }

  lemma TripletsFront(bytes: seq<Byte>, capitals: Capitals, rest: Text)
    requires bytes != []
    ensures var s := Triplets(bytes, capitals) + rest; s[0] == PERCENT && Octet(s) == Some(bytes[0])
  {
    hide HexDigit, Octet, Triplet, IsFirst, Others;
    var first, second := IsFirst(capitals), IsFirst(Others(capitals));
    var head, tail := Triplet(bytes[0], first, second), Triplets(bytes[1..], Others(Others(capitals)));
    OctetOfTriplet(bytes[0], first, second, tail + rest);
    TripletLength(bytes[0], first, second);
    AppendAssociative(head, tail, rest);
  }

  lemma EscapedDecodes(c: Scalar, capitals: Capitals, rest: Text)
    requires DecodeUri(rest).Some?
    ensures DecodeUri(Triplets(EncodeOne(c), capitals) + rest) == Some(Units(c) + DecodeUri(rest).value)
  {
    var s := Triplets(EncodeOne(c), capitals) + rest;
    OctetsOfTriplets(EncodeOne(c), capitals, rest);
    TripletsFront(EncodeOne(c), capitals, rest);
    AnnouncedWidth(c);
    assert s[3 * Width(c)..] == rest;
    hide Triplets, EncodeOne, DecodeOne, Octet, Octets, Announced, Units;
  }

  lemma PlainDecodes(u: Unit, rest: Text)
    requires u != PERCENT && DecodeUri(rest).Some?
    ensures DecodeUri([u] + rest) == Some([u] + DecodeUri(rest).value)
  {
    assert ([u] + rest)[1..] == rest;
  }

  /**
   * `decodeURIComponent` gives back every text in which any characters, and all percent signs, are
   * written as the octets of their UTF-8 encoding in hexadecimal, in capitals or not, digit by digit.
   */
  lemma {:induction false} DecodeUndoesEscaping(pieces: seq<Piece>)
    requires EscapesPercent(pieces)
    ensures DecodeUri(Write(pieces)) == Some(Meant(pieces))
  {
    hide DecodeUri, Triplets, Units;
    if pieces == [] {
      DecodeNothing();
    } else {
      DecodeUndoesEscaping(pieces[1..]);
      match pieces[0]
      case Plain(u) => PlainDecodes(u, Write(pieces[1..]));
      case Escaped(c, capitals) => EscapedDecodes(c, capitals, Write(pieces[1..]));
    }
  }

  /** One round undoes one such writing. */
  lemma RoundUndoesEscaping(pieces: seq<Piece>)
    requires EscapesPercent(pieces)
    ensures Round(Write(pieces)) == Meant(pieces)
  {
    hide DecodeUri, Write, Meant;
    DecodeUndoesEscaping(pieces);
    if PERCENT !in Write(pieces) { DecodeShortens(Write(pieces)); }
  }

  lemma DecodeNothing()
    ensures DecodeUri([]) == Some([])
  {}

  lemma OctetIsTriplet(s: Text)
    requires Octet(s).Some?
    ensures s[..3] == Triplet(Octet(s).value, IsUpper(s[1]), IsUpper(s[2]))
  {
    hide HexValue, HexDigit, IsUpper;
    DigitWritten(s[1]);
    DigitWritten(s[2]);
    var high, low := HexValue(s[1]), HexValue(s[2]);
    assert (high * 16 + low) / 16 == high && (high * 16 + low) % 16 == low;
  }

  lemma DigitWritten(u: Unit)
    requires IsHex(u)
    ensures HexValue(u) < 16 && HexDigit(HexValue(u), IsUpper(u)) == u
  {
    assert HexValue(u) in {0, 1, 2, 3, 4, 5, 6, 7, 8, 9, 10, 11, 12, 13, 14, 15};
  }

  lemma {:induction false} OctetsAreTriplets(s: Text, n: nat) returns (capitals: Capitals)
    requires Octets(s, n).Some?
    ensures Triplets(Octets(s, n).value, capitals) == s[..3 * n]
    decreases n
  {
    hide Octet, Triplet, IsUpper;
    if n == 0 {
      capitals := [];
    } else {
      OctetIsTriplet(s);
      var rest := OctetsAreTriplets(s[3..], n - 1);
      capitals := [IsUpper(s[1]), IsUpper(s[2])] + rest;
      assert Others(Others(capitals)) == rest;
      assert Octets(s, n).value[1..] == Octets(s[3..], n - 1).value;
      assert s[..3] + s[3..][..3 * (n - 1)] == s[..3 * n];
    }
  }

  /** The first character of what is decoded, if it was escaped. */
  lemma EscapedFirst(s: Text) returns (c: Scalar, capitals: Capitals)
    requires s != [] && s[0] == PERCENT && DecodeUri(s).Some?
    ensures var n := 3 * Width(c);
      && n <= |s| && Triplets(EncodeOne(c), capitals) == s[..n]
      && DecodeUri(s[n..]).Some? && DecodeUri(s).value == Units(c) + DecodeUri(s[n..]).value
  {
    hide DecodeOne, EncodeOne, Units, Octet, Triplets;
    var n := Announced(Octet(s).value);
    var bytes := Octets(s, n).value;
    FirstOctet(s, n);
    c := DecodeOne(bytes).value;
    capitals := OctetsAreTriplets(s, n);
    DecodeOneIsCanonical(bytes);
    assert bytes[..n] == bytes;
  }

  lemma FirstOctet(s: Text, n: nat)
    requires n > 0 && Octets(s, n).Some?
    ensures Octet(s) == Some(Octets(s, n).value[0])
  {}

  /** Nothing else decodes: whatever does is such a writing of the result. */
  lemma {:induction false} DecodedWasEscaped(s: Text) returns (pieces: seq<Piece>)
    requires DecodeUri(s).Some?
    ensures EscapesPercent(pieces) && Write(pieces) == s && Meant(pieces) == DecodeUri(s).value
  {
    hide Triplets, Units, Octet, Octets, DecodeOne, EncodeOne, Announced;
    if s == [] {
      pieces := [];
    } else if s[0] != PERCENT {
      var rest := DecodedWasEscaped(s[1..]);
      pieces := [Plain(s[0])] + rest;
      assert pieces[1..] == rest;
    } else {
      var c, capitals := EscapedFirst(s);
      var after := s[3 * Width(c)..];
      var rest := DecodedWasEscaped(after);
      pieces := [Escaped(c, capitals)] + rest;
      assert pieces[1..] == rest;
      assert s == s[..3 * Width(c)] + after;
    }
  }

  /** Exactly what `decodeURIComponent` decodes, and to what. */
  lemma DecodesIff(s: Text, t: Text)
    ensures DecodeUri(s) == Some(t) <==>
      exists pieces :: EscapesPercent(pieces) && Write(pieces) == s && Meant(pieces) == t
  {
    hide DecodeUri, Write, Meant, EscapesPercent;
    if DecodeUri(s) == Some(t) { var pieces := DecodedWasEscaped(s); }
    if pieces :| EscapesPercent(pieces) && Write(pieces) == s && Meant(pieces) == t { DecodeUndoesEscaping(pieces); }
  }

  // ---------- backslashes do not matter to decoding ----------

  /** `replace(/\\/g, "/")`. */
  function Slashed(s: Text): (t: Text)
    ensures |t| == |s| && BACKSLASH !in t
    ensures forall i | 0 <= i < |s| :: t[i] == if s[i] == BACKSLASH then SLASH else s[i]
  {
    seq<Unit>(|s|, i requires 0 <= i < |s| => if s[i] == BACKSLASH then SLASH else s[i])
  }

  lemma SlashedNothing(s: Text)
    requires BACKSLASH !in s
    ensures Slashed(s) == s
  {}

  lemma {:induction false} SlashedOctets(s: Text, n: nat)
    ensures Octets(Slashed(s), n) == Octets(s, n)
    decreases n
  {
    if n > 0 && |s| >= 3 {
      SlashedOctets(s[3..], n - 1);
      assert Slashed(s)[3..] == Slashed(s[3..]);
    }
  }

  lemma {:induction false} SlashedDecodes(s: Text)
    ensures DecodeUri(Slashed(s)).Some? <==> DecodeUri(s).Some?
  {
    if s != [] {
      if s[0] != PERCENT {
        SlashedDecodes(s[1..]);
        assert Slashed(s)[1..] == Slashed(s[1..]);
      } else {
        SlashedOctets(s, 1);
        assert Octet(Slashed(s)) == Octet(s);
        if Octet(s).Some? {
          var n := Announced(Octet(s).value);
          SlashedOctets(s, n);
          if n > 0 && Octets(s, n).Some? {
            SlashedDecodes(s[3 * n..]);
            assert Slashed(s)[3 * n..] == Slashed(s[3 * n..]);
          }
        }
      }
    }
  }

  lemma SlashedAtRest(s: Text)
    ensures Round(Slashed(s)) == Slashed(s) <==> Round(s) == s
  {
    SlashedDecodes(s);
    if i :| 0 <= i < |s| && s[i] == PERCENT { assert Slashed(s)[i] == PERCENT; }
    if DecodeUri(s).Some? {
      DecodeShortens(s);
      DecodeShortens(Slashed(s));
    }
  }
}
