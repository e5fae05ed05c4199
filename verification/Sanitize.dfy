/**
 * Payload redaction (packages/db/src/sanitize.ts): `sanitizePayloadValue`, `sanitizeEventPayload` and
 * the truncations the latter applies. `toLowerCase` and the string redactor are parameters.
 */
module Sanitize {
  import opened Wrappers
  import opened JsText
  import opened Json
  import Truncate

  const REDACTED := Lit("[REDACTED]")
  const TRUNCATED_KEY := Lit("[truncated]")
  const TRUNCATED_VALUE := Lit("max_depth_exceeded")
  const MAX_CONTEXT_DEPTH := 6
  const MAX_MESSAGE_LENGTH := 8192
  const MAX_STACK_FRAMES := 100

  const SENSITIVE_KEYS: seq<Text> := [
    Lit("password"), Lit("pwd"), Lit("pass"), Lit("secret"), Lit("token"), Lit("access_token"),
    Lit("refresh_token"), Lit("api_key"), Lit("apikey"), Lit("client_secret"), Lit("client_id"),
    Lit("authorization"), Lit("bearer"), Lit("jwt"), Lit("cookie"), Lit("session"), Lit("sessionid"),
    Lit("sid"), Lit("csrf"), Lit("xsrf"), Lit("_token"), Lit("credit_card"), Lit("card_number"),
    Lit("cvv"), Lit("cvc")]

  /** `isSensitiveKey`. */
  predicate IsSensitiveKey(key: Text, lower: Text -> Text) {
    exists s <- SENSITIVE_KEYS :: lower(key) == s || EndsWith(lower(key), [UNDERSCORE] + s)
  }

  /** The key test of the source, as a function of the key. */
  function KeyTest(lower: Text -> Text): Text -> bool { key => IsSensitiveKey(key, lower) }

  /** What replaces a value below the depth limit. */
  const CUT := Object(map[TRUNCATED_KEY := String(TRUNCATED_VALUE)])

  function SanitizeValue(v: Value, depth: nat, sensitive: Text -> bool, redact: Text -> Text): Value
    decreases v
  {
    if depth > MAX_CONTEXT_DEPTH then CUT
    else match v
      case String(s) => String(redact(s))
      case Array(items) =>
        Array(seq(|items|, i requires 0 <= i < |items| => SanitizeValue(items[i], depth + 1, sensitive, redact)))
      case Object(fields) =>
        Object(map key | key in fields ::
          if sensitive(key) then String(REDACTED) else SanitizeValue(fields[key], depth + 1, sensitive, redact))
      case _ => v
  }

  // ---------- what redaction leaves ----------

  /** No nesting deeper than `n`. */
  predicate HeightAtMost(v: Value, n: nat)
    decreases v
  {
    match v
    case Array(items) => n > 0 && forall i | 0 <= i < |items| :: HeightAtMost(items[i], n - 1)
    case Object(fields) => n > 0 && forall key <- fields :: HeightAtMost(fields[key], n - 1)
    case _ => true
  }

  /** However deep the input, the output nests at most eight levels from the top. */
  lemma {:induction false} BoundedDepth(v: Value, depth: nat, sensitive: Text -> bool, redact: Text -> Text)
    requires depth <= 7
    ensures HeightAtMost(SanitizeValue(v, depth, sensitive, redact), 8 - depth)
    decreases v
  {
    if depth <= MAX_CONTEXT_DEPTH {
      match v
      case Array(items) =>
        forall i | 0 <= i < |items|
          ensures HeightAtMost(SanitizeValue(items[i], depth + 1, sensitive, redact), MAX_CONTEXT_DEPTH + 1 - depth)
        {
          BoundedDepth(items[i], depth + 1, sensitive, redact);
        }
      case Object(fields) =>
        forall key | key in fields && !sensitive(key)
          ensures HeightAtMost(SanitizeValue(fields[key], depth + 1, sensitive, redact), MAX_CONTEXT_DEPTH + 1 - depth)
        {
          BoundedDepth(fields[key], depth + 1, sensitive, redact);
        }
      case _ =>
    }
  }

  /** At every depth, what stands under a sensitive key is the redaction mark. */
  predicate IsRedacted(v: Value, sensitive: Text -> bool)
    decreases v
  {
    match v
    case Array(items) => forall i | 0 <= i < |items| :: IsRedacted(items[i], sensitive)
    case Object(fields) =>
      forall key <- fields ::
        if sensitive(key) then fields[key] == String(Lit("[REDACTED]")) else IsRedacted(fields[key], sensitive)
    case _ => true
  }

  lemma {:induction false} OutputIsRedacted(v: Value, depth: nat, sensitive: Text -> bool, redact: Text -> Text)
    requires !sensitive(TRUNCATED_KEY)
    ensures IsRedacted(SanitizeValue(v, depth, sensitive, redact), sensitive)
    decreases v
  {
    if depth <= MAX_CONTEXT_DEPTH {
      match v
      case Array(items) =>
        forall i | 0 <= i < |items|
          ensures IsRedacted(SanitizeValue(items[i], depth + 1, sensitive, redact), sensitive)
        {
          OutputIsRedacted(items[i], depth + 1, sensitive, redact);
        }
      case Object(fields) =>
        forall key | key in fields && !sensitive(key)
          ensures IsRedacted(SanitizeValue(fields[key], depth + 1, sensitive, redact), sensitive)
        {
          OutputIsRedacted(fields[key], depth + 1, sensitive, redact);
        }
      case _ =>
    }
  }

  /** A key is sensitive exactly if, lower-cased, it is one of the words or ends in one after an underscore. */
  lemma IsSensitiveIff(key: Text, lower: Text -> Text)
    ensures KeyTest(lower)(key) <==>
      exists s <- SENSITIVE_KEYS :: lower(key) == s || exists before: Text :: lower(key) == before + Lit("_") + s
  {
    hide SENSITIVE_KEYS;
    forall s: Text ensures EndsWith(lower(key), [UNDERSCORE] + s) <==>
      exists before: Text :: lower(key) == before + Lit("_") + s
    {
      EndsWithIff(lower(key), s);
    }
  }

  lemma EndsWithIff(t: Text, s: Text)
    ensures EndsWith(t, [UNDERSCORE] + s) <==> exists before: Text :: t == before + Lit("_") + s
  {
    assert Lit("_") == [UNDERSCORE];
    var suffix := [UNDERSCORE] + s;
    if EndsWith(t, suffix) {
      var before := t[..|t| - |suffix|];
      assert t == before + suffix && before + suffix == before + Lit("_") + s;
    }
    if before: Text :| t == before + Lit("_") + s {
      assert t == before + suffix && t[|t| - |suffix|..] == suffix;
    }
  }

  /** The words. */
  lemma SensitiveWords()
    ensures forall s :: s in SENSITIVE_KEYS <==>
      s in {Lit("password"), Lit("pwd"), Lit("pass"), Lit("secret"), Lit("token"), Lit("access_token"),
            Lit("refresh_token"), Lit("api_key"), Lit("apikey"), Lit("client_secret"), Lit("client_id"),
            Lit("authorization"), Lit("bearer"), Lit("jwt"), Lit("cookie"), Lit("session"), Lit("sessionid"),
            Lit("sid"), Lit("csrf"), Lit("xsrf"), Lit("_token"), Lit("credit_card"), Lit("card_number"),
            Lit("cvv"), Lit("cvc")}
  {
    hide Lit;
  }

  predicate EndsInLetter(s: Text) { s != [] && IsLower(s[|s| - 1]) }

  lemma SensitiveKeysEndInLetters(keys: seq<Text>)
    requires keys == SENSITIVE_KEYS
    ensures forall i | 0 <= i < |keys| :: EndsInLetter(keys[i])
  {}

  /** The marker of the depth cut is not a sensitive key, as long as lower-casing leaves it alone. */
  lemma CutMarkerIsNotSensitive(lower: Text -> Text)
    requires lower(TRUNCATED_KEY) == TRUNCATED_KEY
    ensures !KeyTest(lower)(TRUNCATED_KEY)
  {
    SensitiveKeysEndInLetters(SENSITIVE_KEYS);
    NotSensitiveUnlessLetter(TRUNCATED_KEY, SENSITIVE_KEYS);
  }

  lemma SuffixEndsInLetter(s: Text, suffix: Text)
    requires EndsInLetter(suffix)
    ensures EndsWith(s, suffix) ==> EndsInLetter(s)
  {
    assert EndsWith(s, suffix) ==> s[|s| - 1] == s[|s| - |suffix|..][|suffix| - 1];
  }

  lemma NotSensitiveUnlessLetter(key: Text, keys: seq<Text>)
    requires !EndsInLetter(key) && forall i | 0 <= i < |keys| :: EndsInLetter(keys[i])
    ensures !exists s <- keys :: key == s || EndsWith(key, [UNDERSCORE] + s)
  {
    forall i | 0 <= i < |keys| ensures key != keys[i] && !EndsWith(key, [UNDERSCORE] + keys[i]) {
      var k := [UNDERSCORE] + keys[i];
      SuffixEndsInLetter(key, k);
    }
  }

  // ---------- what redaction keeps ----------

  datatype PathStep = Key(key: Text) | Index(i: nat)

  function Child(v: Value, step: PathStep): Option<Value> {
    match step
    case Key(key) => Field(v, key)
    case Index(i) => if v.Array? && i < |v.items| then Some(v.items[i]) else None
  }

  function At(v: Value, path: seq<PathStep>): Option<Value>
    decreases |path|
  {
    if path == [] then Some(v)
    else match Child(v, path[0])
      case None => None
      case Some(child) => At(child, path[1..])
  }

  predicate AvoidsSensitive(path: seq<PathStep>, sensitive: Text -> bool) {
    forall step <- path :: step.Key? ==> !sensitive(step.key)
  }

  /** Sanitizing is done place by place: along any path without sensitive keys, down to the cut. */
  lemma {:induction false} SanitizedAt(
    v: Value, depth: nat, path: seq<PathStep>, sensitive: Text -> bool, redact: Text -> Text)
    requires AvoidsSensitive(path, sensitive) && depth + |path| <= MAX_CONTEXT_DEPTH + 1
    ensures At(SanitizeValue(v, depth, sensitive, redact), path) ==
      match At(v, path)
      case None => None
      case Some(x) => Some(SanitizeValue(x, depth + |path|, sensitive, redact))
    decreases |path|
  {
    hide SanitizeValue, Child;
    if path != [] {
      assert path[0] in path;
      assert forall step <- path[1..] :: step in path;
      SanitizedChild(v, depth, path[0], sensitive, redact);
      if Child(v, path[0]).Some? {
        SanitizedAt(Child(v, path[0]).value, depth + 1, path[1..], sensitive, redact);
      }
    }
  }

  lemma SanitizedChild(v: Value, depth: nat, step: PathStep, sensitive: Text -> bool, redact: Text -> Text)
    requires depth <= MAX_CONTEXT_DEPTH && (step.Key? ==> !sensitive(step.key))
    ensures Child(SanitizeValue(v, depth, sensitive, redact), step) ==
      match Child(v, step)
      case None => None
      case Some(x) => Some(SanitizeValue(x, depth + 1, sensitive, redact))
  {}

  /** Same kind; same keys or length; strings redacted, other scalars as they were. */
  ghost predicate SameShape(x: Value, y: Value, redact: Text -> Text) {
    match x
    case String(s) => y == String(redact(s))
    case Array(items) => y.Array? && |y.items| == |items|
    case Object(fields) => y.Object? && y.fields.Keys == fields.Keys
    case _ => y == x
  }

  lemma ShapeOfSanitized(x: Value, depth: nat, sensitive: Text -> bool, redact: Text -> Text)
    ensures var r := SanitizeValue(x, depth, sensitive, redact);
      if depth > MAX_CONTEXT_DEPTH then r == CUT
      else
        && SameShape(x, r, redact)
        && (r.Object? ==> forall key <- r.fields | sensitive(key) :: r.fields[key] == String(REDACTED))
  {}

  /**
   * Above the cut nothing is added or lost: a place reached without a sensitive key exists in the
   * output exactly if it exists in the input, with the same key set or length; directly below a
   * sensitive key stands the mark, and at the cut the marker object.
   */
  lemma ShapeIsKept(v: Value, path: seq<PathStep>, sensitive: Text -> bool, redact: Text -> Text)
    requires AvoidsSensitive(path, sensitive) && |path| <= 7
    ensures var r := At(SanitizeValue(v, 0, sensitive, redact), path);
      && (r == None <==> At(v, path) == None)
      && (r.Some? && |path| <= 6 ==> SameShape(At(v, path).value, r.value, redact))
      && (r.Some? && |path| <= 6 && r.value.Object? ==>
            forall key <- r.value.fields | sensitive(key) :: r.value.fields[key] == String(Lit("[REDACTED]")))
      && (r.Some? && |path| == 7 ==> r.value == Object(map[Lit("[truncated]") := String(Lit("max_depth_exceeded"))]))
  {
    SanitizedAt(v, 0, path, sensitive, redact);
    hide At, SanitizeValue, SameShape;
    if At(v, path).Some? { ShapeOfSanitized(At(v, path).value, |path|, sensitive, redact); }
  }

  // ---------- idempotence ----------

  ghost predicate IsIdempotent(redact: Text -> Text) { forall s: Text :: redact(redact(s)) == redact(s) }

  lemma {:induction false} SanitizeTwice(v: Value, depth: nat, sensitive: Text -> bool, redact: Text -> Text)
    requires IsIdempotent(redact)
    ensures SanitizeValue(SanitizeValue(v, depth, sensitive, redact), depth, sensitive, redact)
      == SanitizeValue(v, depth, sensitive, redact)
    decreases v
  {
    var r := SanitizeValue(v, depth, sensitive, redact);
    if depth <= MAX_CONTEXT_DEPTH {
      match v
      case Array(items) =>
        forall i | 0 <= i < |items| ensures SanitizeValue(r.items[i], depth + 1, sensitive, redact) == r.items[i] {
          SanitizeTwice(items[i], depth + 1, sensitive, redact);
        }
        assert SanitizeValue(r, depth, sensitive, redact).items == r.items;
      case Object(fields) =>
        forall key | key in fields && !sensitive(key)
          ensures SanitizeValue(r.fields[key], depth + 1, sensitive, redact) == r.fields[key]
        {
          SanitizeTwice(fields[key], depth + 1, sensitive, redact);
        }
        assert SanitizeValue(r, depth, sensitive, redact).fields == r.fields;
      case _ =>
    }
  }

  /** Sanitizing is idempotent on all values if and only if redacting strings is. */
  lemma SanitizeIdempotentIff(sensitive: Text -> bool, redact: Text -> Text)
    ensures IsIdempotent(redact) <==>
      forall v: Value ::
        SanitizeValue(SanitizeValue(v, 0, sensitive, redact), 0, sensitive, redact) ==
          SanitizeValue(v, 0, sensitive, redact)
  {
    if IsIdempotent(redact) {
      forall v: Value
        ensures SanitizeValue(SanitizeValue(v, 0, sensitive, redact), 0, sensitive, redact) ==
          SanitizeValue(v, 0, sensitive, redact)
      {
        SanitizeTwice(v, 0, sensitive, redact);
      }
    } else {
      var s: Text :| redact(redact(s)) != redact(s);
      var v := String(s);
      assert SanitizeValue(v, 0, sensitive, redact) == String(redact(s));
      assert SanitizeValue(SanitizeValue(v, 0, sensitive, redact), 0, sensitive, redact) == String(redact(redact(s)));
    }
  }

  // ---------- event payloads ----------

  const MESSAGE := Lit("message")
  const VALUE := Lit("value")
  const REASON := Lit("reason")
  const ARGS := Lit("args")
  const VALUES := Lit("values")
  const PAYLOAD := Lit("payload")
  const STACKTRACE := Lit("stacktrace")
  const FRAMES := Lit("frames")

  function Shorten(v: Value): Value {
    if v.String? then String(Truncate.Truncated(v.s, MAX_MESSAGE_LENGTH)) else v
  }

  function Update(fields: map<Text, Value>, key: Text, f: Value -> Value): map<Text, Value> {
    if key in fields then fields[key := f(fields[key])] else fields
  }

  function InObject(v: Value, key: Text, f: Value -> Value): Value {
    if v.Object? then Object(Update(v.fields, key, f)) else v
  }

  function FirstFrames(v: Value): Value {
    if v.Array? && |v.items| > MAX_STACK_FRAMES then Array(v.items[..MAX_STACK_FRAMES]) else v
  }

  /** One element of `values` with its stack cut to the first hundred frames. */
  function WithFirstFrames(v: Value): Value { InObject(v, STACKTRACE, t => InObject(t, FRAMES, FirstFrames)) }

  function EachItem(v: Value, f: Value -> Value): Value {
    if v.Array? then Array(seq(|v.items|, i requires 0 <= i < |v.items| => f(v.items[i]))) else v
  }

  function FramesInValues(v: Value): Value { EachItem(v, WithFirstFrames) }

  /** `truncateFramesInValues`, which replaces frames element by element. */
  method TruncateFramesInValues(values: Value) returns (r: Value)
    ensures r == FramesInValues(values)
  {
    if !values.Array? { return values; }
    var items := values.items;
    for i := 0 to |items|
      invariant |items| == |values.items|
      invariant forall j | 0 <= j < |items| ::
        items[j] == if j < i then WithFirstFrames(values.items[j]) else values.items[j]
    {
      var value := items[i];
      if value.Object? && STACKTRACE in value.fields {
        var stacktrace := value.fields[STACKTRACE];
        if stacktrace.Object? && FRAMES in stacktrace.fields {
          var frames := stacktrace.fields[FRAMES];
          if frames.Array? && |frames.items| > MAX_STACK_FRAMES {
            var cut := Array(frames.items[..MAX_STACK_FRAMES]);
            items := items[i := Object(value.fields[STACKTRACE := Object(stacktrace.fields[FRAMES := cut])])];
          } else {
            assert stacktrace.fields[FRAMES := frames] == stacktrace.fields;
            assert value.fields[STACKTRACE := stacktrace] == value.fields;
          }
        } else {
          assert value.fields[STACKTRACE := stacktrace] == value.fields;
        }
      }
    }
    r := Array(items);
    assert items == FramesInValues(values).items;
  }

  const MESSAGE_KEYS: seq<Text> := [MESSAGE, VALUE, REASON]

  function UpdateEach(fields: map<Text, Value>, keys: seq<Text>, f: Value -> Value): map<Text, Value> {
    if keys == [] then fields else Update(UpdateEach(fields, keys[..|keys| - 1], f), keys[|keys| - 1], f)
  }

  function ShortArgs(v: Value): Value { EachItem(v, Shorten) }

  function LegacyFrames(v: Value): Value { InObject(v, VALUES, FramesInValues) }

  /** The truncations, in the order they are made. */
  function TruncatedFields(fields: map<Text, Value>): map<Text, Value> {
    var messages := UpdateEach(fields, MESSAGE_KEYS, Shorten);
    var args := Update(messages, ARGS, ShortArgs);
    Update(Update(args, VALUES, FramesInValues), PAYLOAD, LegacyFrames)
  }

  /** The loop over the message-like fields. */
  method ShortenMessages(fields: map<Text, Value>, keys: seq<Text>) returns (result: map<Text, Value>)
    ensures result == UpdateEach(fields, keys, Shorten)
  {
    hide Truncate.Truncated;
    result := fields;
    for i := 0 to |keys|
      invariant result == UpdateEach(fields, keys[..i], Shorten)
    {
      var key := keys[i];
      assert keys[..i + 1][..i] == keys[..i];
      if key in result && result[key].String? {
        result := result[key := String(Truncate.Truncated(result[key].s, MAX_MESSAGE_LENGTH))];
      } else {
        assert key in result ==> result[key := result[key]] == result;
      }
    }
    assert keys[..|keys|] == keys;
  }

  method SanitizeEventPayload(payload: map<Text, Value>, sensitive: Text -> bool, redact: Text -> Text)
    returns (result: map<Text, Value>)
    ensures result == TruncatedFields(SanitizeValue(Object(payload), 0, sensitive, redact).fields)
  {
    hide Shorten, FramesInValues, UpdateEach;
    result := SanitizeValue(Object(payload), 0, sensitive, redact).fields;
    result := ShortenMessages(result, MESSAGE_KEYS);
    ghost var messages := result;
    if ARGS in result && result[ARGS].Array? {
      var items := result[ARGS].items;
      var short := seq(|items|, i requires 0 <= i < |items| => Shorten(items[i]));
      assert short == ShortArgs(result[ARGS]).items;
      result := result[ARGS := Array(short)];
    } else {
      assert ARGS in result ==> result[ARGS := result[ARGS]] == result;
    }
    assert result == Update(messages, ARGS, ShortArgs);
    ghost var args := result;
    if VALUES in result {
      var values := TruncateFramesInValues(result[VALUES]);
      result := result[VALUES := values];
    }
    assert result == Update(args, VALUES, FramesInValues);
    if PAYLOAD in result && result[PAYLOAD].Object? {
      var legacy := result[PAYLOAD].fields;
      if VALUES in legacy {
        var values := TruncateFramesInValues(legacy[VALUES]);
        legacy := legacy[VALUES := values];
      }
      result := result[PAYLOAD := Object(legacy)];
    } else {
      assert PAYLOAD in result ==> result[PAYLOAD := result[PAYLOAD]] == result;
    }
  }

  // ---------- what the truncations change ----------

  /** In an object with this key its value is changed, and nothing else. */
  lemma InObjectAt(v: Value, key: Text, f: Value -> Value, other: Text)
    ensures Field(InObject(v, key, f), other) ==
      match Field(v, other)
      case None => None
      case Some(x) => Some(if other == key then f(x) else x)
    ensures !v.Object? ==> InObject(v, key, f) == v
  {}

  /** In the object of the older shape the `values` are cut, and nothing else changes. */
  lemma LegacyFramesAt(v: Value, other: Text)
    ensures Field(LegacyFrames(v), other) ==
      match Field(v, other)
      case None => None
      case Some(x) => Some(if other == Lit("values") then FramesInValues(x) else x)
    ensures !v.Object? ==> LegacyFrames(v) == v
  {
    hide FramesInValues;
    InObjectAt(v, VALUES, FramesInValues, other);
  }

  /** Each argument is shortened by itself if it is a string, and `values` are cut element by element. */
  lemma ElementByElement(v: Value, i: nat)
    requires v.Array? && i < |v.items|
    ensures var args, values := ShortArgs(v), FramesInValues(v);
      && args.Array? && values.Array? && |args.items| == |values.items| == |v.items|
      && args.items[i] == (if v.items[i].String? then String(Truncate.Truncated(v.items[i].s, 8192)) else v.items[i])
      && values.items[i] == WithFirstFrames(v.items[i])
  {
    hide WithFirstFrames, Truncate.Truncated;
    assert ShortArgs(v).items[i] == Shorten(v.items[i]);
  }

  lemma FieldNamesDistinct()
    ensures |MESSAGE| == 7 && |VALUE| == 5 && |REASON| == 6 && |ARGS| == 4 && |VALUES| == 6 && |PAYLOAD| == 7
    ensures MESSAGE != PAYLOAD && REASON != VALUES
  {
    assert MESSAGE[0] != PAYLOAD[0] && REASON[0] != VALUES[0];
  }

  function TruncationFor(key: Text): Value -> Value {
    if key == Lit("message") || key == Lit("value") || key == Lit("reason") then Shorten
    else if key == Lit("args") then ShortArgs
    else if key == Lit("values") then FramesInValues
    else if key == Lit("payload") then LegacyFrames
    else v => v
  }

  lemma UpdatedAt(fields: map<Text, Value>, name: Text, f: Value -> Value, key: Text)
    ensures Update(fields, name, f).Keys == fields.Keys
    ensures key in fields ==> Update(fields, name, f)[key] == if key == name then f(fields[key]) else fields[key]
  {}

  lemma MessagesUpdated(fields: map<Text, Value>)
    ensures var first := Update(Update(fields, MESSAGE, Shorten), VALUE, Shorten);
      UpdateEach(fields, MESSAGE_KEYS, Shorten) == Update(first, REASON, Shorten)
  {
    hide Shorten, Update;
    var keys := MESSAGE_KEYS;
    assert keys[..2][..1] == [MESSAGE] && keys[..2][1] == VALUE && [MESSAGE][..0] == [];
    assert UpdateEach(fields, [], Shorten) == fields;
    assert UpdateEach(fields, [MESSAGE], Shorten) == Update(fields, MESSAGE, Shorten);
    assert UpdateEach(fields, keys[..2], Shorten) == Update(Update(fields, MESSAGE, Shorten), VALUE, Shorten);
  }

  /** Field by field: only the six named fields can change, each in its own way. */
  lemma TruncatedFieldByField(fields: map<Text, Value>, key: Text)
    ensures TruncatedFields(fields).Keys == fields.Keys
    ensures key in fields ==> TruncatedFields(fields)[key] == TruncationFor(key)(fields[key])
  {
    hide Shorten, ShortArgs, FramesInValues, LegacyFrames, Update, UpdateEach;
    FieldNamesDistinct();
    MessagesUpdated(fields);
    var first := Update(fields, MESSAGE, Shorten);
    var second := Update(first, VALUE, Shorten);
    var third := Update(second, REASON, Shorten);
    var fourth := Update(third, ARGS, ShortArgs);
    UpdatedAt(fields, MESSAGE, Shorten, key);
    UpdatedAt(first, VALUE, Shorten, key);
    UpdatedAt(second, REASON, Shorten, key);
    UpdatedAt(third, ARGS, ShortArgs, key);
    UpdatedAt(fourth, VALUES, FramesInValues, key);
    UpdatedAt(Update(fourth, VALUES, FramesInValues), PAYLOAD, LegacyFrames, key);
  }

  /** A shortened message takes at most three bytes more than the limit, and exactly fitting ones are kept. */
  lemma ShortenedMessageSize(s: Text)
    ensures |Truncate.Bytes(s)| <= 8192 ==> Shorten(String(s)) == String(s)
    ensures Shorten(String(s)).String? && |Truncate.Bytes(Shorten(String(s)).s)| <= 8195
    ensures Shorten(String(s)) == String(Truncate.Truncated(s, 8192))
  {
    hide Truncate.Search, Truncate.Bytes;
    if |Truncate.Bytes(s)| > MAX_MESSAGE_LENGTH { Truncate.TruncatedSize(s, MAX_MESSAGE_LENGTH); }
  }

  // ---------- what the truncations keep ----------

  /** A function on values that never uncovers anything. */
  ghost predicate KeepsRedacted(f: Value -> Value, sensitive: Text -> bool) {
    && f(String(REDACTED)) == String(REDACTED)
    && forall v: Value :: IsRedacted(v, sensitive) ==> IsRedacted(f(v), sensitive)
  }

  lemma UpdateKeepsRedacted(fields: map<Text, Value>, key: Text, f: Value -> Value, sensitive: Text -> bool)
    requires IsRedacted(Object(fields), sensitive) && KeepsRedacted(f, sensitive)
    ensures IsRedacted(Object(Update(fields, key, f)), sensitive)
  {}

  lemma {:induction false} UpdateEachKeepsRedacted(
    fields: map<Text, Value>, keys: seq<Text>, f: Value -> Value, sensitive: Text -> bool)
    requires IsRedacted(Object(fields), sensitive) && KeepsRedacted(f, sensitive)
    ensures IsRedacted(Object(UpdateEach(fields, keys, f)), sensitive)
  {
    if keys != [] {
      UpdateEachKeepsRedacted(fields, keys[..|keys| - 1], f, sensitive);
      UpdateKeepsRedacted(UpdateEach(fields, keys[..|keys| - 1], f), keys[|keys| - 1], f, sensitive);
    }
  }

  lemma ShortTextIsKept()
    ensures Shorten(String(REDACTED)) == String(REDACTED)
  {
    Truncate.AsciiSize(REDACTED);
  }

  lemma TruncationsKeepRedacted(sensitive: Text -> bool)
    ensures KeepsRedacted(Shorten, sensitive) && KeepsRedacted(ShortArgs, sensitive)
    ensures KeepsRedacted(FramesInValues, sensitive) && KeepsRedacted(LegacyFrames, sensitive)
  {
    ShortTextIsKept();
    hide Truncate.Truncated;
    assert KeepsRedacted(FirstFrames, sensitive);
    InObjectKeepsRedacted(FRAMES, FirstFrames, sensitive);
    InObjectKeepsRedacted(STACKTRACE, t => InObject(t, FRAMES, FirstFrames), sensitive);
    assert KeepsRedacted(WithFirstFrames, sensitive);
    assert KeepsRedacted(FramesInValues, sensitive);
    InObjectKeepsRedacted(VALUES, FramesInValues, sensitive);
  }

  lemma InObjectKeepsRedacted(key: Text, f: Value -> Value, sensitive: Text -> bool)
    requires KeepsRedacted(f, sensitive)
    ensures KeepsRedacted(v => InObject(v, key, f), sensitive)
  {}

  /** An ingested payload comes out with every sensitive key redacted, at every depth, truncations included. */
  lemma EventPayloadIsRedacted(payload: map<Text, Value>, sensitive: Text -> bool, redact: Text -> Text)
    requires !sensitive(TRUNCATED_KEY)
    ensures IsRedacted(Object(TruncatedFields(SanitizeValue(Object(payload), 0, sensitive, redact).fields)), sensitive)
  {
    hide Shorten, ShortArgs, FramesInValues, LegacyFrames;
    var fields := SanitizeValue(Object(payload), 0, sensitive, redact).fields;
    OutputIsRedacted(Object(payload), 0, sensitive, redact);
    TruncationsKeepRedacted(sensitive);
    UpdateEachKeepsRedacted(fields, MESSAGE_KEYS, Shorten, sensitive);
    var messages := UpdateEach(fields, MESSAGE_KEYS, Shorten);
    UpdateKeepsRedacted(messages, ARGS, ShortArgs, sensitive);
    var args := Update(messages, ARGS, ShortArgs);
    UpdateKeepsRedacted(args, VALUES, FramesInValues, sensitive);
    UpdateKeepsRedacted(Update(args, VALUES, FramesInValues), PAYLOAD, LegacyFrames, sensitive);
  }

  function FramesOf(v: Value): Option<Value> {
    match Field(v, Lit("stacktrace"))
    case None => None
    case Some(stacktrace) => Field(stacktrace, Lit("frames"))
  }

  /** A frame list is cut to its first hundred entries; anything else in its place stays as it is. */
  lemma FramesAreBounded(v: Value)
    ensures var before, after := FramesOf(v), FramesOf(WithFirstFrames(v));
      after ==
        if before.Some? && before.value.Array? && |before.value.items| > 100
        then Some(Array(before.value.items[..100])) else before
    ensures WithFirstFrames(WithFirstFrames(v)) == WithFirstFrames(v)
  {
    var w := WithFirstFrames(v);
    if v.Object? && STACKTRACE in v.fields {
      var t := v.fields[STACKTRACE];
      if t.Object? && FRAMES in t.fields {
        var t' := w.fields[STACKTRACE];
        assert t'.fields[FRAMES] == FirstFrames(t.fields[FRAMES]);
        assert Update(t'.fields, FRAMES, FirstFrames) == t'.fields;
      }
      assert Update(w.fields, STACKTRACE, t => InObject(t, FRAMES, FirstFrames)) == w.fields;
    }
  }

  /** Cutting the frames of a whole list twice is cutting them once, and no element is added or dropped. */
  lemma FramesInValuesIdempotent(values: Value)
    requires values.Array?
    ensures var r := FramesInValues(values);
      r.Array? && |r.items| == |values.items| && FramesInValues(r) == r
  {
    hide WithFirstFrames;
    var r := FramesInValues(values);
    forall i | 0 <= i < |values.items| ensures FramesInValues(r).items[i] == r.items[i] {
      FramesAreBounded(values.items[i]);
    }
    assert FramesInValues(r).items == r.items;
  }
}
