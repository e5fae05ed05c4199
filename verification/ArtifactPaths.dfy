/**
 * Upload-path canonicalization and containment (packages/artifacts/src/artifact-paths.ts).
 * `toUpperCase`, used only to look up reserved device names, is a parameter.
 */
module ArtifactPaths {
  import opened Wrappers
  import opened JsText
  import opened Paths
  import opened PercentDecoding

  const PATH_MAX_LENGTH := 1024
  const SEGMENT_MAX_LENGTH := 255

  datatype PathError =
    | Empty
    | InvalidCharacters
    | BadLength
    | Absolute
    | DrivePath
    | EmptySegment
    | DotSegment
    | LongSegment
    | TrailingDotOrSpace
    | ReservedName
    | EmptyRoot
    | EscapesRoot

  predicate HasControl(s: Text) { exists c <- s :: c <= 31 || c == 127 }

  predicate IsDrive(s: Text) { |s| >= 2 && (IsLower(s[0]) || IsUpper(s[0])) && s[1] == ':' as int }

  predicate Begins(name: Text, a: char, b: char, c: char)
    requires a as int < 0x80 && b as int < 0x80 && c as int < 0x80
  {
    |name| >= 3 && name[0] == a as int && name[1] == b as int && name[2] == c as int
  }

  /** CON, PRN, AUX, NUL, COM1 to COM9 and LPT1 to LPT9. */
  predicate IsReserved(name: Text) {
    || (|name| == 3 && (Begins(name, 'C', 'O', 'N') || Begins(name, 'P', 'R', 'N')
                        || Begins(name, 'A', 'U', 'X') || Begins(name, 'N', 'U', 'L')))
    || (|name| == 4 && (Begins(name, 'C', 'O', 'M') || Begins(name, 'L', 'P', 'T'))
        && '1' as int <= name[3] <= '9' as int)
  }

  /**
   * The reserved-name test on a segment: its part before the first dot, upper-cased. Everything below
   * holds for any test on segments; this is the one the source makes.
   */
  function DeviceName(upper: Text -> Text): Text -> bool {
    segment => IsReserved(upper(Split(segment, DOT)[0]))
  }

  function AsciiUpper(s: Text): Text {
    seq<Unit>(|s|, i requires 0 <= i < |s| => if IsLower(s[i]) then s[i] - 32 else s[i])
  }

  /** What `toUpperCase` does to ASCII text. */
  ghost predicate UppersAscii(upper: Text -> Text) {
    forall s: Text :: (forall c <- s :: c < 0x80) ==> upper(s) == AsciiUpper(s)
  }

  /** The first objection to a segment. */
  function Objection(segment: Text, reserved: Text -> bool): Option<PathError> {
    if segment == [] then Some(EmptySegment)
    else if segment == [DOT] || segment == DOTDOT then Some(DotSegment)
    else if |segment| > SEGMENT_MAX_LENGTH then Some(LongSegment)
    else if segment[|segment| - 1] == DOT || segment[|segment| - 1] == ' ' as int then Some(TrailingDotOrSpace)
    else if reserved(segment) then Some(ReservedName)
    else None
  }

  function FirstObjection(segments: seq<Text>, reserved: Text -> bool): Option<PathError> {
    if segments == [] then None
    else match Objection(segments[0], reserved)
      case Some(e) => Some(e)
      case None => FirstObjection(segments[1..], reserved)
  }

  /** The verdict on a decoded path with POSIX separators. */
  function Judge(slashed: Text, reserved: Text -> bool): Result<Text, PathError> {
    if |slashed| == 0 || |slashed| > PATH_MAX_LENGTH then Err(BadLength)
    else if IsAbsolute(slashed) then Err(Absolute)
    else if IsDrive(slashed) then Err(DrivePath)
    else match FirstObjection(Split(slashed, SLASH), reserved)
      case Some(e) => Err(e)
      case None => Ok(slashed)
  }

  function Canonicalize(raw: Text, reserved: Text -> bool): Result<Text, PathError> {
    if |raw| == 0 then Err(Empty)
    else if HasControl(raw) then Err(InvalidCharacters)
    else
      var decoded := Rounds(raw, MAX_ROUNDS);
      if HasControl(decoded) then Err(InvalidCharacters) else Judge(Slashed(decoded), reserved)
  }

  /** Where an upload path is resolved to, as segments; the path is canonicalized once more. */
  function ResolveUploadPath(cwd: Text, root: Text, path: Text, reserved: Text -> bool)
    : Result<seq<Text>, PathError>
  {
    if root == [] then Err(EmptyRoot)
    else match Canonicalize(path, reserved)
      case Err(e) => Err(e)
      case Ok(canonical) =>
        var resolvedRoot := Resolve(cwd, [root]);
        var resolved := Resolve(cwd, [AbsoluteText(resolvedRoot)] + Split(canonical, SLASH));
        var relative := Relative(resolvedRoot, resolved);
        if relative == [] || Escapes(relative) then Err(EscapesRoot) else Ok(resolved)
  }

  /** `canonicalizeArtifactPath` with the optional proof of containment in an upload root. */
  function CanonicalizeWithin(raw: Text, uploadRoot: Option<Text>, cwd: Text, reserved: Text -> bool)
    : Result<Text, PathError>
  {
    match Canonicalize(raw, reserved)
    case Err(e) => Err(e)
    case Ok(c) =>
      if uploadRoot == None then Ok(c)
      else match ResolveUploadPath(cwd, uploadRoot.value, c, reserved)
        case Err(e) => Err(e)
        case Ok(_) => Ok(c)
  }

  /** The loop over the segments of a decoded path, which pushes each accepted one. */
  method CollectSegments(segments: seq<Text>, reserved: Text -> bool) returns (r: Result<seq<Text>, PathError>)
    ensures r == match FirstObjection(segments, reserved)
                 case Some(e) => Err(e)
                 case None => Ok(segments)
  {
    var canonical: seq<Text> := [];
    for i := 0 to |segments|
      invariant canonical == segments[..i]
      invariant FirstObjection(segments, reserved) == FirstObjection(segments[i..], reserved)
    {
      var objection := Objection(segments[i], reserved);
      assert segments[i..][0] == segments[i] && segments[i..][1..] == segments[i + 1..];
      if objection.Some? {
        return Err(objection.value);
      }
      canonical := canonical + [segments[i]];
    }
    assert canonical == segments;
    return Ok(canonical);
  }

  method CanonicalizeArtifactPath(raw: Text, uploadRoot: Option<Text>, cwd: Text, reserved: Text -> bool)
    returns (r: Result<Text, PathError>)
    ensures r == CanonicalizeWithin(raw, uploadRoot, cwd, reserved)
  {
    if |raw| == 0 { return Err(Empty); }
    if HasControl(raw) { return Err(InvalidCharacters); }
    var decoded := DecodePercentEncodings(raw);
    if HasControl(decoded) { return Err(InvalidCharacters); }
    var slashed := Slashed(decoded);
    if |slashed| == 0 || |slashed| > PATH_MAX_LENGTH { return Err(BadLength); }
    if IsAbsolute(slashed) { return Err(Absolute); }
    if IsDrive(slashed) { return Err(DrivePath); }
    var collected := CollectSegments(Split(slashed, SLASH), reserved);
    if collected.Err? { return Err(collected.error); }
    var result := Join(collected.value, SLASH);
    JoinSplit(slashed, SLASH);
    if |result| == 0 || |result| > PATH_MAX_LENGTH { return Err(BadLength); }
    if uploadRoot.Some? {
      var resolved := ResolveUploadPath(cwd, uploadRoot.value, result, reserved);
      if resolved.Err? { return Err(resolved.error); }
    }
    return Ok(result);
  }

  // ---------- the accepted language ----------

  ghost predicate IsSafeSegment(s: Text, reserved: Text -> bool) {
    && IsPlain(s) && |s| <= 255
    && s[|s| - 1] != DOT && s[|s| - 1] != ' ' as int
    && !reserved(s)
  }

  /** A letter and a colon. */
  predicate BeginsWithDrive(path: Text) {
    |path| >= 2 && path[1] == 0x3A && (0x41 <= path[0] <= 0x5A || 0x61 <= path[0] <= 0x7A)
  }

  /** What every accepted path looks like: relative, ordinary segments, nothing left to normalize. */
  ghost predicate IsSafe(path: Text, reserved: Text -> bool) {
    && 1 <= |path| <= 1024
    && BACKSLASH !in path && (forall c <- path :: 0x20 <= c != 0x7F) && !BeginsWithDrive(path)
    && forall s <- Split(path, SLASH) :: IsSafeSegment(s, reserved)
  }

  lemma ObjectionIff(s: Text, reserved: Text -> bool)
    requires SLASH !in s
    ensures Objection(s, reserved) == None <==> IsSafeSegment(s, reserved)
  {}

  lemma {:induction false} NoObjectionIff(segments: seq<Text>, reserved: Text -> bool)
    requires forall s <- segments :: SLASH !in s
    ensures FirstObjection(segments, reserved) == None <==> forall s <- segments :: IsSafeSegment(s, reserved)
  {
    if segments != [] {
      var head, tail := segments[0], segments[1..];
      assert forall s :: s in segments <==> s == head || s in tail;
      NoObjectionIff(tail, reserved);
      ObjectionIff(head, reserved);
    }
  }

  lemma JudgeIff(path: Text, reserved: Text -> bool)
    requires BACKSLASH !in path && !HasControl(path)
    ensures Judge(path, reserved).Ok? <==> IsSafe(path, reserved)
    ensures Judge(path, reserved).Ok? ==> Judge(path, reserved) == Ok(path)
  {
    var segments := Split(path, SLASH);
    NoObjectionIff(segments, reserved);
    if path != [] && path[0] == SLASH { assert segments[0] == []; assert segments[0] in segments; }
  }

  lemma SlashedControl(s: Text)
    ensures HasControl(Slashed(s)) <==> HasControl(s)
  {
    var t := Slashed(s);
    if HasControl(s) {
      var i :| 0 <= i < |s| && (s[i] <= 31 || s[i] == 127);
      assert t[i] in t;
    }
    if HasControl(t) {
      var i :| 0 <= i < |s| && (t[i] <= 31 || t[i] == 127);
      assert s[i] in s;
    }
  }

  /** Whatever is accepted is a safe relative path: the decoded input with POSIX separators. */
  lemma AcceptedIsSafe(raw: Text, reserved: Text -> bool)
    requires Canonicalize(raw, reserved).Ok?
    ensures Canonicalize(raw, reserved) == Ok(Slashed(Rounds(raw, MAX_ROUNDS)))
    ensures IsSafe(Canonicalize(raw, reserved).value, reserved)
  {
    var decoded := Rounds(raw, MAX_ROUNDS);
    SlashedControl(decoded);
    JudgeIff(Slashed(decoded), reserved);
  }

  /** Exactly which inputs are accepted: those without control characters that decode to a safe path. */
  lemma AcceptedIff(raw: Text, reserved: Text -> bool)
    ensures Canonicalize(raw, reserved).Ok? <==>
      raw != [] && !HasControl(raw) && IsSafe(Slashed(Rounds(raw, MAX_ROUNDS)), reserved)
  {
    var decoded := Rounds(raw, MAX_ROUNDS);
    SlashedControl(decoded);
    if !HasControl(decoded) { JudgeIff(Slashed(decoded), reserved); }
  }

  const DEVICES := {
    "CON", "PRN", "AUX", "NUL",
    "COM1", "COM2", "COM3", "COM4", "COM5", "COM6", "COM7", "COM8", "COM9",
    "LPT1", "LPT2", "LPT3", "LPT4", "LPT5", "LPT6", "LPT7", "LPT8", "LPT9"}

  /** The same letters, in any case. */
  predicate Spells(stem: Text, name: string) {
    && |stem| == |name|
    && forall i | 0 <= i < |name| ::
      stem[i] == name[i] as int || ('A' <= name[i] <= 'Z' && stem[i] == name[i] as int + 32)
  }

  /** CON, com1, Nul and so on, in any case and with any extension. */
  ghost predicate IsDevice(segment: Text) {
    exists name <- DEVICES :: Spells(Split(segment, DOT)[0], name)
  }

  lemma DeviceIsReserved(stem: Text, name: string)
    requires name in DEVICES && Spells(stem, name)
    ensures (forall c <- stem :: c < 0x80) && IsReserved(AsciiUpper(stem))
  {}

  lemma ReservedIsDevice(stem: Text)
    requires (forall c <- stem :: c < 0x80) && IsReserved(AsciiUpper(stem))
    ensures exists name <- DEVICES :: Spells(stem, name)
  {
    var up := AsciiUpper(stem);
    assert forall i | 0 <= i < |stem| ::
      stem[i] == up[i] || (stem[i] == up[i] + 32 && 'A' as int <= up[i] <= 'Z' as int);
    if |up| == 3 {
      ThreeLetters(up, stem);
    } else {
      FourLetters(up, stem);
    }
  }

  lemma ThreeLetters(up: Text, stem: Text)
    requires |up| == 3 == |stem| && IsReserved(up)
    requires forall i | 0 <= i < 3 :: stem[i] == up[i] || (stem[i] == up[i] + 32 && 'A' as int <= up[i] <= 'Z' as int)
    ensures exists name <- DEVICES :: Spells(stem, name)
  {
    var name :=
      if Begins(up, 'C', 'O', 'N') then "CON" else if Begins(up, 'P', 'R', 'N') then "PRN"
      else if Begins(up, 'A', 'U', 'X') then "AUX" else "NUL";
    assert Spells(stem, name) && name in DEVICES;
  }

  lemma FourLetters(up: Text, stem: Text)
    requires |up| == 4 == |stem| && IsReserved(up)
    requires forall i | 0 <= i < 4 :: stem[i] == up[i] || (stem[i] == up[i] + 32 && 'A' as int <= up[i] <= 'Z' as int)
    ensures exists name <- DEVICES :: Spells(stem, name)
  {
    var prefix := if Begins(up, 'C', 'O', 'M') then "COM" else "LPT";
    assert Spells(stem, prefix + [up[3] as char]);
    DigitedIsDevice(prefix, up[3] as char);
  }

  lemma DigitedIsDevice(prefix: string, digit: char)
    requires prefix in {"COM", "LPT"} && '1' <= digit <= '9'
    ensures prefix + [digit] in DEVICES
  {
    var com, lpt := "COM" + [digit], "LPT" + [digit];
    assert com == "COM1" || com == "COM2" || com == "COM3" || com == "COM4" || com == "COM5" || com == "COM6"
      || com == "COM7" || com == "COM8" || com == "COM9";
    assert lpt == "LPT1" || lpt == "LPT2" || lpt == "LPT3" || lpt == "LPT4" || lpt == "LPT5" || lpt == "LPT6"
      || lpt == "LPT7" || lpt == "LPT8" || lpt == "LPT9";
  }

  /** The reserved segments are exactly those named like a device, if nothing before the dot is beyond ASCII. */
  lemma DeviceNameIff(segment: Text, upper: Text -> Text)
    requires UppersAscii(upper) && forall c <- Split(segment, DOT)[0] :: c < 0x80
    ensures DeviceName(upper)(segment) <==> IsDevice(segment)
  {
    hide IsReserved, Spells, DEVICES, Split;
    var stem := Split(segment, DOT)[0];
    if IsReserved(AsciiUpper(stem)) { ReservedIsDevice(stem); }
    if name :| name in DEVICES && Spells(stem, name) { DeviceIsReserved(stem, name); }
  }

  lemma DeviceIsAscii(segment: Text)
    requires IsDevice(segment)
    ensures forall c <- Split(segment, DOT)[0] :: c < 0x80
  {
    hide IsReserved, Spells, DEVICES, Split;
    var name :| name in DEVICES && Spells(Split(segment, DOT)[0], name);
    DeviceIsReserved(Split(segment, DOT)[0], name);
  }

  /** A path that decodes to one with a device name anywhere, in any case and with any extension, is refused. */
  lemma DeviceNamesAreRefused(raw: Text, upper: Text -> Text, segment: Text)
    requires UppersAscii(upper) && segment in Split(Slashed(Rounds(raw, MAX_ROUNDS)), SLASH) && IsDevice(segment)
    ensures Canonicalize(raw, DeviceName(upper)).Err?
  {
    hide Canonicalize, Rounds, IsDevice, DeviceName;
    AcceptedIff(raw, DeviceName(upper));
    DeviceIsAscii(segment);
    DeviceNameIff(segment, upper);
  }

  /** The fixed points of canonicalization: safe paths that no decoding round changes. */
  lemma FixedPointIff(path: Text, reserved: Text -> bool)
    ensures Canonicalize(path, reserved) == Ok(path) <==> IsSafe(path, reserved) && Round(path) == path
  {
    if Canonicalize(path, reserved) == Ok(path) {
      AcceptedIsSafe(path, reserved);
      RoundsShorten(path, MAX_ROUNDS);
    }
    if IsSafe(path, reserved) && Round(path) == path {
      RoundsAtRest(path, MAX_ROUNDS);
      SlashedNothing(path);
      JudgeIff(path, reserved);
    }
  }

  lemma SafeTextIsFixed(path: Text, reserved: Text -> bool)
    requires IsSafe(path, reserved) && PERCENT !in path
    ensures Canonicalize(path, reserved) == Ok(path)
  {
    FixedPointIff(path, reserved);
  }

  /**
   * An accepted result is accepted again unchanged if and only if decoding came to rest within the
   * three rounds; otherwise a second call rejects it or returns a different, shorter path.
   */
  lemma CanonicalIsFixedIff(raw: Text, reserved: Text -> bool)
    requires Canonicalize(raw, reserved).Ok?
    ensures var c := Canonicalize(raw, reserved).value;
      Canonicalize(c, reserved) == Ok(c) <==> Settles(raw)
    ensures var c := Canonicalize(raw, reserved).value;
      !Settles(raw) && Canonicalize(c, reserved).Ok? ==> |Canonicalize(c, reserved).value| < |c|
  {
    AcceptedIsSafe(raw, reserved);
    var c := Canonicalize(raw, reserved).value;
    SlashedAtRest(Rounds(raw, MAX_ROUNDS));
    FixedPointIff(c, reserved);
    if Canonicalize(c, reserved).Ok? {
      AcceptedIsSafe(c, reserved);
      RoundsShorten(c, MAX_ROUNDS);
    }
  }

  lemma RoundsOfChain(s: Text, t: Text, u: Text, v: Text)
    requires Round(s) == t && Round(t) == u && Round(u) == v
    ensures Rounds(s, MAX_ROUNDS) == v
  {
    assert Rounds(v, 0) == v;
    assert Rounds(u, 1) == v;
    assert Rounds(t, 2) == v;
  }

  const TWENTY_FIVE: Text := ['2' as int, '5' as int]

  /** `%` written `%252525` outlasts the rounds, whatever follows. */
  lemma ThreeLayers(rest: Text)
    requires PERCENT !in rest
    ensures Rounds([PERCENT] + TWENTY_FIVE + (TWENTY_FIVE + TWENTY_FIVE + rest), MAX_ROUNDS) == [PERCENT] + rest
  {
    hide Round, Rounds;
    var p: Text, d := [PERCENT], TWENTY_FIVE;
    PercentStep(rest);
    PercentStep(d + rest);
    PercentStep(d + d + rest);
    assert p + (d + d + rest) == p + d + (d + rest) && p + (d + rest) == p + d + rest;
    RoundsOfChain(p + d + (d + d + rest), p + d + (d + rest), p + d + rest, p + rest);
  }

  lemma PercentStep(rest: Text)
    requires PERCENT !in rest
    ensures Round([PERCENT] + TWENTY_FIVE + rest) == [PERCENT] + rest
  {
    DecodesTriplet([PERCENT] + TWENTY_FIVE + rest, rest, [PERCENT] + rest, 0x25);
  }

  const DOT_MAP: Text := [DOT, 'm' as int, 'a' as int, 'p' as int]
  const SIXTY_ONE: Text := ['6' as int, '1' as int] + DOT_MAP
  const LAYERED: Text := [PERCENT] + TWENTY_FIVE + (TWENTY_FIVE + TWENTY_FIVE + SIXTY_ONE)
  const ENCODED_A: Text := [PERCENT] + SIXTY_ONE
  const A_MAP: Text := ['a' as int] + DOT_MAP

  lemma EncodedADecodes()
    ensures Round(ENCODED_A) == A_MAP && Rounds(ENCODED_A, MAX_ROUNDS) == A_MAP
  {
    DecodesTriplet(ENCODED_A, DOT_MAP, A_MAP, 0x61);
    assert PERCENT !in A_MAP;
    RoundsOfChain(ENCODED_A, A_MAP, A_MAP, A_MAP);
  }

  lemma ExampleNamesAreNoDevices(upper: Text -> Text)
    requires UppersAscii(upper)
    ensures !DeviceName(upper)(ENCODED_A) && !DeviceName(upper)(A_MAP)
  {
    var ext: Text := ['m' as int, 'a' as int, 'p' as int];
    NotADevice(upper, [PERCENT, '6' as int, '1' as int], ext);
    NotADevice(upper, ['a' as int], ext);
    assert ENCODED_A == [PERCENT, '6' as int, '1' as int] + [DOT] + ext;
    assert A_MAP == ['a' as int] + [DOT] + ext;
  }

  lemma EncodedAIsA(upper: Text -> Text)
    requires UppersAscii(upper)
    ensures Canonicalize(ENCODED_A, DeviceName(upper)) == Ok(A_MAP)
  {
    hide Round, Rounds, DeviceName;
    EncodedADecodes();
    ExampleNamesAreNoDevices(upper);
    AcceptsName(ENCODED_A, A_MAP, DeviceName(upper));
  }

  const LAYERS: Text := TWENTY_FIVE + TWENTY_FIVE + TWENTY_FIVE + SIXTY_ONE
  const MORE_LAYERED: Text := [PERCENT] + TWENTY_FIVE + (TWENTY_FIVE + TWENTY_FIVE + LAYERS)

  const LAYERED_STEM: Text := [
    PERCENT, '2' as int, '5' as int, '2' as int, '5' as int, '2' as int, '5' as int, '6' as int, '1' as int]
  const MAP: Text := ['m' as int, 'a' as int, 'p' as int]

  lemma LayeredParts()
    ensures LAYERED == LAYERED_STEM + [DOT] + MAP
    ensures DOT !in LAYERED_STEM && SLASH !in LAYERED_STEM && forall c <- LAYERED_STEM :: c < 0x80
  {}

  lemma LayeredIsSimple(upper: Text -> Text)
    requires UppersAscii(upper)
    ensures IsSimpleName(LAYERED, DeviceName(upper))
  {
    LayeredParts();
    hide DeviceName;
    NotADevice(upper, LAYERED_STEM, MAP);
  }

  /** `%25252525252561.map` becomes `%25252561.map`. */
  lemma SixLayers(upper: Text -> Text)
    requires UppersAscii(upper)
    ensures Canonicalize(MORE_LAYERED, DeviceName(upper)) == Ok(LAYERED)
  {
    hide Round, Rounds, DeviceName, IsSimpleName;
    ThreeLayers(LAYERS);
    assert [PERCENT] + LAYERS == LAYERED;
    LayeredIsSimple(upper);
    AcceptsName(MORE_LAYERED, LAYERED, DeviceName(upper));
  }

  /** `%25252561.map` becomes `%61.map`, which becomes `a.map` when it is canonicalized again. */
  lemma UnsettledExample(upper: Text -> Text)
    requires UppersAscii(upper)
    ensures Canonicalize(LAYERED, DeviceName(upper)) == Ok(ENCODED_A)
    ensures Canonicalize(ENCODED_A, DeviceName(upper)) == Ok(A_MAP)
    ensures !Settles(LAYERED)
  {
    hide Round, Rounds, DeviceName;
    ThreeLayers(SIXTY_ONE);
    EncodedADecodes();
    assert |A_MAP| < |ENCODED_A|;
    ExampleNamesAreNoDevices(upper);
    AcceptsName(LAYERED, ENCODED_A, DeviceName(upper));
    EncodedAIsA(upper);
  }

  lemma NotADevice(upper: Text -> Text, stem: Text, extension: Text)
    requires UppersAscii(upper) && DOT !in stem && forall c <- stem :: c < 0x80
    requires !IsReserved(AsciiUpper(stem))
    ensures !DeviceName(upper)(stem + [DOT] + extension)
  {
    SplitAt(stem, extension, DOT);
  }

  /** Decoding text with one triplet, at its start. */
  lemma DecodesTriplet(s: Text, rest: Text, t: Text, b: Unit)
    requires |s| == |rest| + 3 && s[3..] == rest && PERCENT !in rest
    requires s[0] == PERCENT && IsHex(s[1]) && IsHex(s[2])
    requires b < 0x80 && HexValue(s[1]) * 16 + HexValue(s[2]) == b
    requires t == [b] + rest
    ensures Round(s) == t
  {
    var none, one: seq<Byte> := [], [b];
    assert Octets(s[3..], 0) == Some(none);
    assert one == [b] + none;
    assert Octets(s, 1) == Some(one);
    DecodesVerbatim(rest);
  }

  lemma {:induction false} DecodesVerbatim(s: Text)
    requires PERCENT !in s
    ensures DecodeUri(s) == Some(s)
  {
    if s != [] {
      DecodesVerbatim(s[1..]);
      assert s == [s[0]] + s[1..];
    }
  }

  /** A short name of printable ASCII units. */
  ghost predicate IsSimpleName(name: Text, reserved: Text -> bool) {
    && 0 < |name| <= SEGMENT_MAX_LENGTH && name != DOTDOT
    && (forall c <- name :: 32 < c < 127 && c != SLASH && c != BACKSLASH && c != ':' as int)
    && name[|name| - 1] != DOT && !reserved(name)
  }

  lemma SimpleSegmentIsSafe(name: Text, reserved: Text -> bool)
    requires IsSimpleName(name, reserved)
    ensures IsSafeSegment(name, reserved) && !IsDrive(name)
  {
    assert |name| > 1 ==> name[1] in name;
    assert name[|name| - 1] in name;
  }

  lemma SimpleNameIsSafe(name: Text, reserved: Text -> bool)
    requires IsSimpleName(name, reserved)
    ensures IsSafe(name, reserved)
  {
    SimpleSegmentIsSafe(name, reserved);
    SplitFree(name, SLASH);
  }

  /** Two simple names make a safe path. */
  lemma SimplePathIsSafe(dir: Text, name: Text, reserved: Text -> bool)
    requires IsSimpleName(dir, reserved) && IsSimpleName(name, reserved)
    ensures IsSafe(dir + [SLASH] + name, reserved)
    ensures Split(dir + [SLASH] + name, SLASH) == [dir, name]
  {
    SplitFree(name, SLASH);
    SplitAt(dir, name, SLASH);
    assert [dir] + [name] == [dir, name];
    hide Split, IsSafeSegment;
    SimpleSegmentIsSafe(dir, reserved);
    SimpleSegmentIsSafe(name, reserved);
    var path := dir + [SLASH] + name;
    assert path[1] == if |dir| > 1 then dir[1] else SLASH;
    assert forall c <- path :: c in dir || c == SLASH || c in name;
  }

  /** A simple name is accepted once decoded. */
  lemma AcceptsName(raw: Text, name: Text, reserved: Text -> bool)
    requires raw != [] && !HasControl(raw) && name == Rounds(raw, MAX_ROUNDS)
    requires IsSimpleName(name, reserved)
    ensures Canonicalize(raw, reserved) == Ok(name)
  {
    hide Rounds, Split, FirstObjection;
    SlashedNothing(name);
    SimpleNameIsSafe(name, reserved);
    JudgeIff(name, reserved);
  }

  // ---------- decoding to the end ----------

  function CanonicalizeFully(raw: Text, reserved: Text -> bool): Result<Text, PathError> {
    if |raw| == 0 then Err(Empty)
    else if HasControl(raw) then Err(InvalidCharacters)
    else
      var decoded := DecodeFully(raw);
      if HasControl(decoded) then Err(InvalidCharacters) else Judge(Slashed(decoded), reserved)
  }

  /** Without the bound on rounds canonicalization is idempotent on every input, and it agrees when decoding settles. */
  lemma FullDecodingIsIdempotent(raw: Text, reserved: Text -> bool)
    ensures CanonicalizeFully(raw, reserved).Ok? ==>
      CanonicalizeFully(CanonicalizeFully(raw, reserved).value, reserved) == CanonicalizeFully(raw, reserved)
    ensures Settles(raw) ==> CanonicalizeFully(raw, reserved) == Canonicalize(raw, reserved)
  {
    RoundsReachFixpoint(raw, MAX_ROUNDS);
    if CanonicalizeFully(raw, reserved).Ok? {
      var c := Slashed(DecodeFully(raw));
      SlashedAtRest(DecodeFully(raw));
      SlashedControl(DecodeFully(raw));
      JudgeIff(c, reserved);
      SlashedNothing(c);
    }
  }

  // ---------- containment ----------

  /** Resolving never meets the escape test: it appends the segments of the re-canonicalized path. */
  lemma ResolvedUpload(cwd: Text, root: Text, path: Text, reserved: Text -> bool)
    requires root != []
    ensures ResolveUploadPath(cwd, root, path, reserved) ==
      match Canonicalize(path, reserved)
      case Err(e) => Err(e)
      case Ok(c) => Ok(Resolve(cwd, [root]) + Split(c, SLASH))
  {
    match Canonicalize(path, reserved)
    case Err(_) =>
    case Ok(c) =>
      AcceptedIsSafe(path, reserved);
      var base, segs := Resolve(cwd, [root]), Split(c, SLASH);
      ResolveAppends(cwd, AbsoluteText(base), segs);
      ResolveAbsolute(cwd, base);
      EscapesIff(base, base + segs);
  }

  /** A canonical path lands on its own segments below the root exactly when its decoding had settled. */
  lemma ResolvesToItselfIff(cwd: Text, root: Text, raw: Text, reserved: Text -> bool)
    requires root != [] && Canonicalize(raw, reserved).Ok?
    ensures var c := Canonicalize(raw, reserved).value;
      ResolveUploadPath(cwd, root, c, reserved) == Ok(Resolve(cwd, [root]) + Split(c, SLASH)) <==> Settles(raw)
  {
    var c := Canonicalize(raw, reserved).value;
    CanonicalIsFixedIff(raw, reserved);
    ResolvedUpload(cwd, root, c, reserved);
    if Canonicalize(c, reserved).Ok? {
      var base, d := Resolve(cwd, [root]), Canonicalize(c, reserved).value;
      assert (base + Split(c, SLASH))[|base|..] == Split(c, SLASH);
      assert (base + Split(d, SLASH))[|base|..] == Split(d, SLASH);
      JoinSplit(c, SLASH);
      JoinSplit(d, SLASH);
    }
  }

  /** Settled canonical paths that resolve to the same absolute path are the same path. */
  lemma UploadLocationsInjective(cwd: Text, root: Text, a: Text, b: Text, reserved: Text -> bool)
    requires root != []
    requires Canonicalize(a, reserved) == Ok(a) && Canonicalize(b, reserved) == Ok(b)
    requires ResolveUploadPath(cwd, root, a, reserved).Ok? && ResolveUploadPath(cwd, root, b, reserved).Ok?
    requires AbsoluteText(ResolveUploadPath(cwd, root, a, reserved).value)
      == AbsoluteText(ResolveUploadPath(cwd, root, b, reserved).value)
    ensures a == b
  {
    ResolvedUpload(cwd, root, a, reserved);
    ResolvedUpload(cwd, root, b, reserved);
    AcceptedIsSafe(a, reserved);
    AcceptedIsSafe(b, reserved);
    hide Canonicalize, ResolveUploadPath, Split;
    var base := Resolve(cwd, [root]);
    JoinInjective(base + Split(a, SLASH), base + Split(b, SLASH));
    assert (base + Split(a, SLASH))[|base|..] == Split(a, SLASH);
    assert (base + Split(b, SLASH))[|base|..] == Split(b, SLASH);
    JoinSplit(a, SLASH);
    JoinSplit(b, SLASH);
  }

  // ---------- encoded dots ----------

  /** Two dots, escaped. */
  function EscapedDots(first: bool, second: bool): Text { Triplet(0x2E, false, first) + Triplet(0x2E, false, second) }

  /** A dot, escaped twice. */
  function TwiceEscapedDot(capital: bool): Text { Triplet(0x25, false, false) + Triplet(0x2E, false, capital)[1..] }

  function TwiceEscapedDots(first: bool, second: bool): Text { TwiceEscapedDot(first) + TwiceEscapedDot(second) }

  /** A text is decoded piece by piece, up to the first malformed one. */
  lemma EscapedUnitDecodes(b: Byte, first: bool, second: bool, rest: Text)
    requires b < 0x80
    ensures DecodeUri(Triplet(b, first, second) + rest) ==
      if DecodeUri(rest) == None then None else Some([b] + DecodeUri(rest).value)
  {
    var s, none, one: seq<Byte> := Triplet(b, first, second) + rest, [], [b];
    OctetOfTriplet(b, first, second, rest);
    assert s[3..] == rest;
    assert Octets(rest, 0) == Some(none) && one == [b] + none;
    assert Octets(s, 1) == Some(one);
  }

  lemma PlainUnitDecodes(u: Unit, rest: Text)
    requires u != PERCENT
    ensures DecodeUri([u] + rest) == if DecodeUri(rest) == None then None else Some([u] + DecodeUri(rest).value)
  {
    assert ([u] + rest)[1..] == rest;
  }

  lemma DotsDecodeFirst(first: bool, second: bool, rest: Text)
    ensures DecodeUri(EscapedDots(first, second) + rest) ==
      if DecodeUri(rest) == None then None else Some(DOTDOT + DecodeUri(rest).value)
    ensures (EscapedDots(first, second) + rest)[0] == PERCENT
  {
    hide DecodeUri, Triplet;
    var a, b := Triplet(0x2E, false, first), Triplet(0x2E, false, second);
    EscapedUnitDecodes(0x2E, false, second, rest);
    EscapedUnitDecodes(0x2E, false, first, b + rest);
    TripletLength(0x2E, false, first);
    AppendAssociative(a, b, rest);
    if DecodeUri(rest).Some? { assert [DOT] + ([DOT] + DecodeUri(rest).value) == DOTDOT + DecodeUri(rest).value; }
  }

  lemma DotsDecode(first: bool, second: bool, x: Text)
    ensures Round(EscapedDots(first, second) + [SLASH] + x) ==
      match DecodeUri(x)
      case None => EscapedDots(first, second) + [SLASH] + x
      case Some(t) => DOTDOT + [SLASH] + t
  {
    hide DecodeUri, EscapedDots;
    PlainUnitDecodes(SLASH, x);
    DotsDecodeFirst(first, second, [SLASH] + x);
    AppendAssociative(EscapedDots(first, second), [SLASH], x);
    if DecodeUri(x).Some? { AppendAssociative(DOTDOT, [SLASH], DecodeUri(x).value); }
  }

  lemma DotDigits(capital: bool)
    ensures var t := Triplet(0x2E, false, capital); |t[1..]| == 2 && PERCENT !in t[1..] && [PERCENT] + t[1..] == t
    ensures var t := Triplet(0x25, false, false); |t| == 3 && t[0] == PERCENT
  {}

  lemma TwiceEscapedDotDecodes(capital: bool, rest: Text)
    ensures DecodeUri(TwiceEscapedDot(capital) + rest) ==
      if DecodeUri(rest) == None then None else Some(Triplet(0x2E, false, capital) + DecodeUri(rest).value)
    ensures (TwiceEscapedDot(capital) + rest)[0] == PERCENT
  {
    hide DecodeUri, Triplet;
    DotDigits(capital);
    var e := Triplet(0x2E, false, capital)[1..];
    TwoPlain(e, rest);
    EscapedUnitDecodes(0x25, false, false, e + rest);
    AppendAssociative(Triplet(0x25, false, false), e, rest);
    if DecodeUri(rest).Some? { AppendAssociative([PERCENT], e, DecodeUri(rest).value); }
  }

  lemma TwiceDecodesFirst(first: bool, second: bool, rest: Text)
    ensures DecodeUri(TwiceEscapedDots(first, second) + rest) ==
      if DecodeUri(rest) == None then None else Some(EscapedDots(first, second) + DecodeUri(rest).value)
    ensures (TwiceEscapedDots(first, second) + rest)[0] == PERCENT
  {
    hide DecodeUri, Triplet, TwiceEscapedDot;
    TwiceEscapedDotDecodes(second, rest);
    TwiceEscapedDotDecodes(first, TwiceEscapedDot(second) + rest);
    AppendAssociative(TwiceEscapedDot(first), TwiceEscapedDot(second), rest);
    if DecodeUri(rest).Some? {
      AppendAssociative(Triplet(0x2E, false, first), Triplet(0x2E, false, second), DecodeUri(rest).value);
    }
  }

  lemma TwiceDecode(first: bool, second: bool, x: Text)
    ensures Round(TwiceEscapedDots(first, second) + [SLASH] + x) ==
      match DecodeUri(x)
      case None => TwiceEscapedDots(first, second) + [SLASH] + x
      case Some(t) => EscapedDots(first, second) + [SLASH] + t
  {
    hide DecodeUri, TwiceEscapedDots, EscapedDots;
    PlainUnitDecodes(SLASH, x);
    TwiceDecodesFirst(first, second, [SLASH] + x);
    AppendAssociative(TwiceEscapedDots(first, second), [SLASH], x);
    if DecodeUri(x).Some? { AppendAssociative(EscapedDots(first, second), [SLASH], DecodeUri(x).value); }
  }

  lemma TwoPlain(two: Text, rest: Text)
    requires |two| == 2 && PERCENT !in two
    ensures DecodeUri(two + rest) == if DecodeUri(rest) == None then None else Some(two + DecodeUri(rest).value)
  {
    assert two[0] in two && two[1] in two;
    PlainUnitDecodes(two[1], rest);
    PlainUnitDecodes(two[0], [two[1]] + rest);
    assert two + rest == [two[0]] + ([two[1]] + rest);
    if DecodeUri(rest).Some? { assert [two[0]] + ([two[1]] + DecodeUri(rest).value) == two + DecodeUri(rest).value; }
  }

  lemma {:induction false} DotsStay(t: Text, n: nat)
    ensures exists y :: Rounds(DOTDOT + [SLASH] + t, n) == DOTDOT + [SLASH] + y
    decreases n
  {
    hide DecodeUri;
    if n > 0 {
      var s := DOTDOT + [SLASH] + t;
      TwoPlain(DOTDOT, [SLASH] + t);
      PlainUnitDecodes(SLASH, t);
      assert s == DOTDOT + ([SLASH] + t);
      var next := if PERCENT !in s || DecodeUri(t) == None then t else DecodeUri(t).value;
      assert Round(s) == DOTDOT + [SLASH] + next;
      DotsStay(next, n - 1);
    }
  }

  lemma DotsAreUnsafe(y: Text, reserved: Text -> bool)
    ensures !IsSafe(Slashed(DOTDOT + [SLASH] + y), reserved)
  {
    var s := Slashed(DOTDOT + [SLASH] + y);
    assert s == DOTDOT + [SLASH] + Slashed(y);
    SplitAt(DOTDOT, Slashed(y), SLASH);
    assert Split(s, SLASH)[0] == DOTDOT && DOTDOT in Split(s, SLASH);
  }

  /**
   * `%2e%2e/x`, in capitals or not, is refused if `x` decodes; if it does not, nothing is decoded and the
   * path is accepted as it stands whenever that is safe.
   */
  lemma EscapedDotsAcceptedIff(first: bool, second: bool, x: Text, reserved: Text -> bool)
    ensures var raw := EscapedDots(first, second) + [SLASH] + x;
      Canonicalize(raw, reserved).Ok? <==> DecodeUri(x) == None && !HasControl(raw) && IsSafe(Slashed(raw), reserved)
  {
    hide Canonicalize, IsSafe, DecodeUri, EscapedDots, Round, HasControl;
    var raw := EscapedDots(first, second) + [SLASH] + x;
    DotsDecode(first, second, x);
    AcceptedIff(raw, reserved);
    if DecodeUri(x) == None {
      RoundsAtRest(raw, MAX_ROUNDS);
    } else {
      DotsStay(DecodeUri(x).value, 2);
      var y :| Rounds(Round(raw), 2) == DOTDOT + [SLASH] + y;
      DotsAreUnsafe(y, reserved);
    }
  }

  /** `%252e%252e/x` is refused if `x` decodes and the result does; otherwise it is judged as it then stands. */
  lemma TwiceEscapedDotsAcceptedIff(first: bool, second: bool, x: Text, reserved: Text -> bool)
    ensures var raw := TwiceEscapedDots(first, second) + [SLASH] + x;
      Canonicalize(raw, reserved).Ok? <==>
        && !HasControl(raw)
        && match DecodeUri(x)
           case None => IsSafe(Slashed(raw), reserved)
           case Some(t) =>
             DecodeUri(t) == None && IsSafe(Slashed(EscapedDots(first, second) + [SLASH] + t), reserved)
  {
    hide Canonicalize, IsSafe, DecodeUri, EscapedDots, TwiceEscapedDots, Round, HasControl;
    var raw := TwiceEscapedDots(first, second) + [SLASH] + x;
    TwiceDecode(first, second, x);
    AcceptedIff(raw, reserved);
    if DecodeUri(x) == None {
      RoundsAtRest(raw, MAX_ROUNDS);
    } else {
      var t := DecodeUri(x).value;
      var once := EscapedDots(first, second) + [SLASH] + t;
      DotsDecode(first, second, t);
      if DecodeUri(t) == None {
        RoundsAtRest(once, 2);
      } else {
        DotsStay(DecodeUri(t).value, 1);
        var y :| Rounds(Round(once), 1) == DOTDOT + [SLASH] + y;
        DotsAreUnsafe(y, reserved);
      }
    }
  }

  const PERCENT_MAP: Text := [PERCENT] + DOT_MAP

  lemma EscapedDotsAre()
    ensures EscapedDots(false, false) == Lit("%2e%2e") && EscapedDots(true, true) == Lit("%2E%2E")
    ensures TwiceEscapedDots(false, false) == Lit("%252e%252e")
  {}

  /** `%2e%2e/%.map` is accepted, undecoded. */
  lemma EscapedDotsExample(upper: Text -> Text)
    requires UppersAscii(upper)
    ensures PERCENT_MAP == Lit("%.map")
    ensures var raw := EscapedDots(false, false) + [SLASH] + PERCENT_MAP;
      Canonicalize(raw, DeviceName(upper)) == Ok(raw)
  {
    hide Canonicalize, IsSafe, DeviceName, Rounds;
    var dots, reserved := EscapedDots(false, false), DeviceName(upper);
    var raw := dots + [SLASH] + PERCENT_MAP;
    EscapedDotsAre();
    DotsAreSimple(dots, upper);
    PercentMapIsSimple(upper);
    SimplePathIsSafe(dots, PERCENT_MAP, reserved);
    assert Octet(PERCENT_MAP) == None;
    DotsDecode(false, false, PERCENT_MAP);
    FixedPointIff(raw, reserved);
  }

  lemma LongIsNotReserved(name: Text)
    requires |name| > 4
    ensures !IsReserved(name)
  {}

  lemma DotsAreSimple(dots: Text, upper: Text -> Text)
    requires UppersAscii(upper) && dots == Lit("%2e%2e")
    ensures IsSimpleName(dots, DeviceName(upper))
  {
    hide IsReserved, Begins;
    SplitFree(dots, DOT);
    assert |AsciiUpper(dots)| == 6;
    LongIsNotReserved(AsciiUpper(dots));
  }

  lemma PercentMapIsSimple(upper: Text -> Text)
    requires UppersAscii(upper)
    ensures IsSimpleName(PERCENT_MAP, DeviceName(upper))
  {
    hide DeviceName;
    NotADevice(upper, [PERCENT], MAP);
    assert PERCENT_MAP == [PERCENT] + [DOT] + MAP;
  }
}
