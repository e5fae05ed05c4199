/**
 * `createProjectEventStream` (apps/web/lib/realtime.ts): one live source or one pending timer, capped
 * backoff, and no effect from sources that have been given up. Frames, errors, timers and `close` come
 * in any order, from any source; callbacks do not call back into the stream.
 */
module EventStream {
  import opened Wrappers
  import opened JsText
  import opened Json
  import StorageKeys

  // ---------- frames ----------

  datatype Update = Update(
    kind: Text,
    projectId: Text,
    issueId: Text,
    eventId: Option<Text>,
    reproductionId: Option<Text>,
    analysisId: Option<Text>)

  predicate IsKnownType(kind: Text) {
    kind in {
      Lit("issue.created"), Lit("issue.updated"), Lit("issue.regressed"), Lit("comment.created"),
      Lit("assignment.changed"), Lit("tags.changed"), Lit("reproduction.ready"), Lit("reproduction.failed"),
      Lit("ai_analysis.ready"), Lit("ai_analysis.failed")}
  }

  const VERSION := Lit("version")
  const TYPE := Lit("type")
  const PROJECT_ID := Lit("projectId")
  const ISSUE_ID := Lit("issueId")
  const EVENT_ID := Lit("eventId")
  const REPRODUCTION_ID := Lit("reproductionId")
  const ANALYSIS_ID := Lit("analysisId")
  const STATUS := Lit("status")

  predicate IsId(v: Option<Value>) { v.Some? && v.value.String? && StorageKeys.IsUuid(v.value.s) }

  predicate IsAbsentOrId(v: Option<Value>) { v == None || IsId(v) }

  function IdOf(v: Option<Value>): Option<Text>
    requires IsAbsentOrId(v)
  {
    if v == None then None else Some(v.value.s)
  }

  /** `parseProjectUpdate`; `data` is what `JSON.parse` gives, if anything. */
  function ParseProjectUpdate(data: Option<Value>, projectId: Text): Option<Update> {
    if data == None then None
    else
      var v := data.value;
      var kind, issueId := Field(v, TYPE), Field(v, ISSUE_ID);
      var eventId, reproductionId, analysisId :=
        Field(v, EVENT_ID), Field(v, REPRODUCTION_ID), Field(v, ANALYSIS_ID);
      if Field(v, VERSION) != Some(Number(1.0)) then None
      else if kind == None || !kind.value.String? || !IsKnownType(kind.value.s) then None
      else if Field(v, PROJECT_ID) != Some(String(projectId)) then None
      else if !IsId(issueId) then None
      else if !IsAbsentOrId(eventId) || !IsAbsentOrId(reproductionId) || !IsAbsentOrId(analysisId) then None
      else
        Some(Update(kind.value.s, projectId, issueId.value.s, IdOf(eventId), IdOf(reproductionId), IdOf(analysisId)))
  }

  /** The status of a ready frame. */
  function ParseReady(data: Option<Value>): Option<Text> {
    if data == None then None
    else match Field(data.value, STATUS)
      case Some(String(s)) => Some(s)
      case _ => None
  }

  datatype Frame = Ready(degraded: bool) | Hint(update: Update) | Ignored

  function Classify(data: Option<Value>, projectId: Text): Frame {
    var ready := ParseReady(data);
    if ready == Some(Lit("degraded")) then Ready(true)
    else if ready == Some(Lit("connected")) then Ready(false)
    else match ParseProjectUpdate(data, projectId)
      case Some(u) => Hint(u)
      case None => Ignored
  }

  ghost predicate IsWellFormed(u: Update, projectId: Text) {
    && u.projectId == projectId && IsKnownType(u.kind) && StorageKeys.IsUuid(u.issueId)
    && (u.eventId.Some? ==> StorageKeys.IsUuid(u.eventId.value))
    && (u.reproductionId.Some? ==> StorageKeys.IsUuid(u.reproductionId.value))
    && (u.analysisId.Some? ==> StorageKeys.IsUuid(u.analysisId.value))
  }

  function WithId(fields: map<Text, Value>, key: Text, id: Option<Text>): map<Text, Value> {
    if id == None then fields else fields[key := String(id.value)]
  }

  /** The frame a server would send for an update. */
  function Render(u: Update): Value {
    var base := map[
      Lit("version") := Number(1.0), Lit("type") := String(u.kind),
      Lit("projectId") := String(u.projectId), Lit("issueId") := String(u.issueId)];
    var withEvent := WithId(base, Lit("eventId"), u.eventId);
    Object(WithId(WithId(withEvent, Lit("reproductionId"), u.reproductionId), Lit("analysisId"), u.analysisId))
  }

  lemma KeysDistinct()
    ensures VERSION != ISSUE_ID && VERSION != EVENT_ID && ISSUE_ID != EVENT_ID
    ensures |VERSION| == |ISSUE_ID| == |EVENT_ID| == 7 && |TYPE| == 4 && |PROJECT_ID| == 9
    ensures |REPRODUCTION_ID| == 14 && |ANALYSIS_ID| == 10
  {
    assert VERSION[0] != ISSUE_ID[0] && VERSION[0] != EVENT_ID[0] && ISSUE_ID[0] != EVENT_ID[0];
  }

  /** Whatever is let through is well formed and of this project. */
  lemma ParsedIsWellFormed(data: Option<Value>, projectId: Text)
    ensures ParseProjectUpdate(data, projectId).Some? ==>
      IsWellFormed(ParseProjectUpdate(data, projectId).value, projectId)
  {
    hide IsKnownType;
  }

  function IdText(id: Option<Text>): Option<Value> { if id == None then None else Some(String(id.value)) }

  lemma RenderedFields(u: Update)
    ensures var v := Render(u);
      && Field(v, VERSION) == Some(Number(1.0)) && Field(v, TYPE) == Some(String(u.kind))
      && Field(v, PROJECT_ID) == Some(String(u.projectId)) && Field(v, ISSUE_ID) == Some(String(u.issueId))
      && Field(v, EVENT_ID) == IdText(u.eventId)
      && Field(v, REPRODUCTION_ID) == IdText(u.reproductionId)
      && Field(v, ANALYSIS_ID) == IdText(u.analysisId)
  {
    KeysDistinct();
    hide Lit;
  }

  /** An update survives the wire if and only if it is well formed and of this project. */
  lemma RenderedUpdateIsParsedIff(u: Update, projectId: Text)
    ensures ParseProjectUpdate(Some(Render(u)), projectId) ==
      if IsWellFormed(u, projectId) then Some(u) else None
  {
    hide IsKnownType, StorageKeys.IsUuid, Render, Field, Lit;
    RenderedFields(u);
  }

  // ---------- the state machine ----------

  const RECONNECT_BASE_MS := 1000
  const RECONNECT_MAX_MS := 30000

  function Min(a: nat, b: nat): nat { if a < b then a else b }

  function Pow2(n: nat): nat { if n == 0 then 1 else 2 * Pow2(n - 1) }

  /** The wait before the retry that follows the given number of failures. */
  function Delay(failures: nat): nat
    requires failures > 0
  {
    Min(RECONNECT_BASE_MS * Pow2(Min(failures - 1, 10)), RECONNECT_MAX_MS)
  }

  /**
   * The closure variables, and what they have done to the world: how many sources were created (they
   * are numbered in order), which of them were closed, the statuses reported and the updates delivered.
   */
  datatype Stream = Stream(
    status: StreamStatus,
    source: Option<nat>,
    timer: Option<nat>,
    failures: nat,
    done: bool,
    created: nat,
    closed: set<nat>,
    statuses: seq<StreamStatus>,
    delivered: seq<Update>)

  datatype StreamStatus = Connecting | Connected | Degraded | Reconnecting | Closed

  datatype Event = Data(source: nat, data: Option<Value>) | SourceError(source: nat) | TimerFires | CloseCall

  function SetStatus(m: Stream, next: StreamStatus): Stream {
    m.(status := next, statuses := m.statuses + [next])
  }

  function Connect(m: Stream): Stream {
    if m.done then m
    else
      SetStatus(m.(timer := None), if m.failures == 0 then Connecting else Reconnecting)
        .(source := Some(m.created), created := m.created + 1)
  }

  function Initial(): Stream {
    Connect(Stream(Connecting, None, None, 0, false, 0, {}, [], []))
  }

  function OnData(m: Stream, source: nat, data: Option<Value>, projectId: Text): Stream {
    if m.done || m.source != Some(source) then m
    else match Classify(data, projectId)
      case Ready(degraded) => SetStatus(m.(failures := 0), if degraded then Degraded else Connected)
      case Hint(u) => m.(delivered := m.delivered + [u])
      case Ignored => m
  }

  function OnError(m: Stream, source: nat): Stream {
    if m.done || m.source != Some(source) then m
    else
      SetStatus(m.(closed := m.closed + {source}, source := None, failures := m.failures + 1), Reconnecting)
        .(timer := Some(Delay(m.failures + 1)))
  }

  function OnTimer(m: Stream): Stream {
    if m.timer == None then m else Connect(m.(timer := None))
  }

  function OnClose(m: Stream): Stream {
    if m.done then m
    else
      var closed := if m.source.Some? then m.closed + {m.source.value} else m.closed;
      SetStatus(m.(done := true, timer := None, source := None, closed := closed), Closed)
  }

  function Step(m: Stream, e: Event, projectId: Text): Stream {
    match e
    case Data(source, data) => OnData(m, source, data, projectId)
    case SourceError(source) => OnError(m, source)
    case TimerFires => OnTimer(m)
    case CloseCall => OnClose(m)
  }

  function Run(m: Stream, events: seq<Event>, projectId: Text): Stream
    decreases |events|
  {
    if events == [] then m else Run(Step(m, events[0], projectId), events[1..], projectId)
  }

  // ---------- every reachable state ----------

  ghost predicate Valid(m: Stream, projectId: Text) {
    // Open: a live source or a pending timer, not both. Closed: neither.
    && (if m.done then m.source == None && m.timer == None else (m.source.Some? <==> m.timer == None))
    // The live source is the newest; every other one has been closed.
    && (m.source.Some? ==> m.created > 0 && m.source.value == m.created - 1)
    && (forall i: nat :: i in m.closed <==> i < (if m.source.Some? then m.created - 1 else m.created))
    // The status says which of these it is.
    && (m.done <==> m.status == Closed)
    && (m.status == Connected || m.status == Degraded ==> m.failures == 0 && m.source.Some?)
    && (m.status == Connecting ==> m.failures == 0 && m.source.Some?)
    && (m.status == Reconnecting ==> m.failures > 0)
    && (m.timer.Some? ==> m.failures > 0 && m.timer.value == Delay(m.failures))
    // What was reported and delivered.
    && m.statuses != [] && m.statuses[|m.statuses| - 1] == m.status
    && forall u <- m.delivered :: IsWellFormed(u, projectId)
  }

  lemma InitialValid(projectId: Text)
    ensures Valid(Initial(), projectId)
  {}

  lemma StepValid(m: Stream, e: Event, projectId: Text)
    requires Valid(m, projectId)
    ensures Valid(Step(m, e, projectId), projectId)
  {
    hide ParseProjectUpdate, ParseReady, Delay, IsWellFormed;
    if e.Data? { ParsedIsWellFormed(e.data, projectId); }
  }

  /** Whatever happens, in whatever order, every reachable state is valid. */
  lemma {:induction false} RunValid(m: Stream, events: seq<Event>, projectId: Text)
    requires Valid(m, projectId)
    ensures Valid(Run(m, events, projectId), projectId)
    decreases |events|
  {
    if events != [] {
      hide Step, Valid;
      StepValid(m, events[0], projectId);
      RunValid(Step(m, events[0], projectId), events[1..], projectId);
    }
  }

  /** What a stream has done when it has just been made. */
  lemma InitiallyConnecting()
    ensures var m := Initial();
      && m.status == Connecting && m.statuses == [Connecting] && m.source == Some(0) && m.created == 1
      && m.timer == None && m.failures == 0 && !m.done && m.closed == {} && m.delivered == []
  {}

  /** The types of updates. */
  lemma KnownTypes()
    ensures forall kind :: IsKnownType(kind) <==>
      || kind == Lit("issue.created") || kind == Lit("issue.updated") || kind == Lit("issue.regressed")
      || kind == Lit("comment.created") || kind == Lit("assignment.changed") || kind == Lit("tags.changed")
      || kind == Lit("reproduction.ready") || kind == Lit("reproduction.failed")
      || kind == Lit("ai_analysis.ready") || kind == Lit("ai_analysis.failed")
  {
    hide Lit;
  }

  // ---------- ready frames and updates ----------

  /** A frame with this status, whatever else it holds. */
  predicate HasStatus(data: Option<Value>, word: string) {
    && data.Some? && data.value.Object?
    && Lit("status") in data.value.fields && data.value.fields[Lit("status")] == String(Lit(word))
  }

  /** The status that a ready frame gives. */
  function WordOf(data: Option<Value>): Option<StreamStatus> {
    if HasStatus(data, "degraded") then Some(Degraded)
    else if HasStatus(data, "connected") then Some(Connected)
    else None
  }

  lemma WordsDiffer()
    ensures Lit("degraded") != Lit("connected") && |Lit("status")| == 6
  {
    assert Lit("degraded")[0] != Lit("connected")[0];
  }

  lemma ClassifiedByWord(data: Option<Value>, projectId: Text)
    ensures Classify(data, projectId) ==
      match WordOf(data)
      case Some(w) => Ready(w == Degraded)
      case None =>
        match ParseProjectUpdate(data, projectId)
        case Some(u) => Hint(u)
        case None => Ignored
  {
    WordsDiffer();
    hide Lit, ParseProjectUpdate;
  }

  /** In every state with a live source: what a frame of it does, by the status it holds. */
  lemma FrameDecides(m: Stream, source: nat, data: Option<Value>, projectId: Text)
    requires Valid(m, projectId) && m.source == Some(source)
    ensures var m' := Step(m, Data(source, data), projectId);
      && (HasStatus(data, "degraded") ==>
            m' == m.(status := Degraded, failures := 0, statuses := m.statuses + [Degraded]))
      && (HasStatus(data, "connected") ==>
            m' == m.(status := Connected, failures := 0, statuses := m.statuses + [Connected]))
      && (!HasStatus(data, "degraded") && !HasStatus(data, "connected") ==>
            m' == m.(delivered := m'.delivered))
  {
    WordsDiffer();
    ClassifiedByWord(data, projectId);
    hide Lit, ParseProjectUpdate, Classify;
  }

  /** An update that the live source sends is delivered, if it is well formed and of this project; nothing else is. */
  lemma UpdateIsDelivered(m: Stream, source: nat, u: Update, projectId: Text)
    requires Valid(m, projectId) && m.source == Some(source)
    ensures Step(m, Data(source, Some(Render(u))), projectId) ==
      if IsWellFormed(u, projectId) then m.(delivered := m.delivered + [u]) else m
  {
    RenderHasNoStatus(u);
    ClassifiedByWord(Some(Render(u)), projectId);
    RenderedUpdateIsParsedIff(u, projectId);
    hide Lit, ParseProjectUpdate, Classify, Render, IsWellFormed;
  }

  lemma RenderHasNoStatus(u: Update)
    ensures WordOf(Some(Render(u))) == None
  {
    assert Lit("status") != Lit("version") by { assert Lit("status")[0] != Lit("version")[0]; }
    KeysDistinct();
    WordsDiffer();
    hide Lit;
  }

  lemma {:induction false} RunLast(m: Stream, events: seq<Event>, projectId: Text)
    requires events != []
    ensures Run(m, events, projectId) ==
      Step(Run(m, events[..|events| - 1], projectId), events[|events| - 1], projectId)
    decreases |events|
  {
    hide Step;
    if |events| > 1 {
      RunLast(Step(m, events[0], projectId), events[1..], projectId);
      assert events[..|events| - 1][1..] == events[1..][..|events| - 2];
      assert events[1..][|events| - 2] == events[|events| - 1];
    } else {
      assert events[..0] == [] && events[1..] == [];
    }
  }

  /** What the last ready frame said that a source sent while it was the live one. */
  function LastWord(events: seq<Event>, source: nat, projectId: Text): Option<StreamStatus> {
    if events == [] then None
    else
      var before, e := events[..|events| - 1], events[|events| - 1];
      var isLive := Run(Initial(), before, projectId).source == Some(source);
      if e.Data? && e.source == source && isLive && WordOf(e.data).Some?
      then WordOf(e.data)
      else LastWord(before, source, projectId)
  }

  lemma {:induction false} NoWordBefore(events: seq<Event>, source: nat, projectId: Text)
    requires source >= Run(Initial(), events, projectId).created
    ensures LastWord(events, source, projectId) == None
  {
    if events != [] {
      hide Step, Valid, WordOf, Initial;
      var before, e := events[..|events| - 1], events[|events| - 1];
      RunLast(Initial(), events, projectId);
      InitialValid(projectId);
      RunValid(Initial(), before, projectId);
      OneMoreSource(Run(Initial(), before, projectId), e, projectId);
      NoWordBefore(before, source, projectId);
    }
  }

  lemma OneMoreSource(m: Stream, e: Event, projectId: Text)
    requires Valid(m, projectId)
    ensures m.created <= Step(m, e, projectId).created
    ensures m.source.Some? ==> m.source.value < m.created
  {
    hide Classify;
  }

  /** The status that the events up to now should have given. */
  function StatusFrom(m: Stream, word: Option<StreamStatus>): StreamStatus {
    if m.done then Closed
    else if m.source == None then Reconnecting
    else if word.Some? then word.value
    else if m.failures == 0 then Connecting
    else Reconnecting
  }

  lemma StepStatus(m: Stream, e: Event, word: Option<StreamStatus>, projectId: Text)
    requires Valid(m, projectId) && m.status == StatusFrom(m, word)
    ensures var m' := Step(m, e, projectId);
      m'.status == StatusFrom(m',
        if m.source == None || m'.source != m.source then None
        else if e.Data? && m.source == Some(e.source) && WordOf(e.data).Some? then WordOf(e.data)
        else word)
  {
    if e.Data? { ClassifiedByWord(e.data, projectId); }
    hide Classify, ParseProjectUpdate, HasStatus, Lit;
  }

  lemma SourceAfter(m: Stream, e: Event, projectId: Text)
    requires Valid(m, projectId)
    ensures var m' := Step(m, e, projectId);
      m'.source == None || m'.source == m.source || (m.source == None && m'.source == Some(m.created))
  {
    hide Classify;
  }

  /**
   * In every reachable state the status says Degraded or Connected exactly as the last ready frame did
   * that the live source has sent since it was opened; without one it says Connecting before the first
   * error and Reconnecting after.
   */
  lemma {:induction false} StatusIsLastWord(events: seq<Event>, projectId: Text)
    ensures var m := Run(Initial(), events, projectId);
      m.status == StatusFrom(m, if m.source.Some? then LastWord(events, m.source.value, projectId) else None)
  {
    if events != [] {
      var before, e := events[..|events| - 1], events[|events| - 1];
      var m := Run(Initial(), before, projectId);
      RunLast(Initial(), events, projectId);
      InitialValid(projectId);
      RunValid(Initial(), before, projectId);
      StatusIsLastWord(before, projectId);
      StepStatus(m, e, if m.source.Some? then LastWord(before, m.source.value, projectId) else None, projectId);
      SourceAfter(m, e, projectId);
      NoWordBefore(before, m.created, projectId);
      hide Step, Valid, WordOf, Initial, Run;
    }
  }

  /** The updates in the frames that each source sent while it was the live one, in order. */
  function Updates(events: seq<Event>, projectId: Text): seq<Update> {
    if events == [] then []
    else
      var before, e := events[..|events| - 1], events[|events| - 1];
      var heard :=
        if e.Data? && Run(Initial(), before, projectId).source == Some(e.source) && WordOf(e.data) == None
        then ParseProjectUpdate(e.data, projectId) else None;
      Updates(before, projectId) + (if heard.Some? then [heard.value] else [])
  }

  /** Over every run: these are delivered, and nothing else. */
  lemma {:induction false} DeliversUpdates(events: seq<Event>, projectId: Text)
    ensures Run(Initial(), events, projectId).delivered == Updates(events, projectId)
  {
    if events != [] {
      var before, e := events[..|events| - 1], events[|events| - 1];
      RunLast(Initial(), events, projectId);
      InitialValid(projectId);
      RunValid(Initial(), before, projectId);
      DeliversUpdates(before, projectId);
      if e.Data? { ClassifiedByWord(e.data, projectId); }
      hide Classify, ParseProjectUpdate, WordOf, Initial, Run;
    }
  }

  /** A status is reported at most once for an event, and whenever it changes. */
  lemma ReportsOnce(m: Stream, e: Event, projectId: Text)
    requires Valid(m, projectId)
    ensures var m' := Step(m, e, projectId);
      m'.statuses == m.statuses + (if m' == m.(delivered := m'.delivered) then [] else [m'.status])
  {
    hide Classify;
  }

  // ---------- superseded sources and closed streams ----------

  /** An event that a superseded source, or a timer that is not pending, might still cause. */
  predicate IsStale(m: Stream, e: Event) {
    match e
    case Data(source, _) => source in m.closed
    case SourceError(source) => source in m.closed
    case TimerFires => m.timer == None
    case CloseCall => m.done
  }

  /** Stale events change nothing and deliver nothing. */
  lemma StaleIsIgnored(m: Stream, e: Event, projectId: Text)
    requires Valid(m, projectId) && IsStale(m, e)
    ensures Step(m, e, projectId) == m
  {}

  /** A source that was closed stays closed: its events are stale for ever. */
  lemma {:induction false} ClosedSourcesStayClosed(m: Stream, events: seq<Event>, projectId: Text)
    requires Valid(m, projectId)
    ensures m.closed <= Run(m, events, projectId).closed
    decreases |events|
  {
    if events != [] {
      StepValid(m, events[0], projectId);
      assert m.closed <= Step(m, events[0], projectId).closed;
      hide Step, Valid;
      ClosedSourcesStayClosed(Step(m, events[0], projectId), events[1..], projectId);
    }
  }

  /** After `close` nothing happens any more, whatever still arrives. */
  lemma {:induction false} ClosedForEver(m: Stream, events: seq<Event>, projectId: Text)
    requires Valid(m, projectId) && m.done
    ensures Run(m, events, projectId) == m
    decreases |events|
  {
    if events != [] { ClosedForEver(m, events[1..], projectId); }
  }

  // ---------- failures and delays ----------

  datatype Mark = ErrorMark | ReadyMark | OtherMark

  /** What an event means for the failure count, if it comes from the current source. */
  function MarkOf(m: Stream, e: Event, projectId: Text): Mark {
    match e
    case SourceError(source) => if !m.done && m.source == Some(source) then ErrorMark else OtherMark
    case Data(source, data) =>
      if !m.done && m.source == Some(source) && WordOf(data).Some? then ReadyMark else OtherMark
    case _ => OtherMark
  }

  function Marks(m: Stream, events: seq<Event>, projectId: Text): (r: seq<Mark>)
    ensures |r| == |events|
    decreases |events|
  {
    if events == [] then []
    else [MarkOf(m, events[0], projectId)] + Marks(Step(m, events[0], projectId), events[1..], projectId)
  }

  /** The errors at the end of a history, back to the last ready frame; `before` if there was none. */
  function ErrorsSinceReady(marks: seq<Mark>, before: nat): nat {
    if marks == [] then before
    else match marks[|marks| - 1]
      case ReadyMark => 0
      case ErrorMark => ErrorsSinceReady(marks[..|marks| - 1], before) + 1
      case OtherMark => ErrorsSinceReady(marks[..|marks| - 1], before)
  }

  lemma {:induction false} ErrorsSinceReadyFront(marks: seq<Mark>, before: nat)
    requires marks != []
    ensures ErrorsSinceReady(marks, before) ==
      ErrorsSinceReady(marks[1..],
        match marks[0] case ReadyMark => 0 case ErrorMark => before + 1 case OtherMark => before)
    decreases |marks|
  {
    if |marks| > 1 {
      ErrorsSinceReadyFront(marks[..|marks| - 1], before);
      assert marks[..|marks| - 1][1..] == marks[1..][..|marks| - 2];
      assert marks[1..][|marks| - 2] == marks[|marks| - 1];
    }
  }

  /** `failures` is always the number of current-source errors since the last ready frame. */
  lemma {:induction false} FailuresCountErrors(m: Stream, events: seq<Event>, projectId: Text)
    ensures Run(m, events, projectId).failures == ErrorsSinceReady(Marks(m, events, projectId), m.failures)
    decreases |events|
  {
    if events != [] {
      hide Classify, WordOf;
      if events[0].Data? { ClassifiedByWord(events[0].data, projectId); }
      var m' := Step(m, events[0], projectId);
      var marks := Marks(m, events, projectId);
      FailuresCountErrors(m', events[1..], projectId);
      assert marks[1..] == Marks(m', events[1..], projectId);
      ErrorsSinceReadyFront(marks, m.failures);
    }
  }

  lemma {:induction false} Pow2Monotone(a: nat, b: nat)
    requires a <= b
    ensures 1 <= Pow2(a) <= Pow2(b)
    decreases b
  {
    if a < b {
      Pow2Monotone(a, b - 1);
    } else if a > 0 {
      Pow2Monotone(a - 1, b - 1);
    }
  }

  lemma LargePowers(n: nat)
    requires n >= 5
    ensures RECONNECT_BASE_MS * Pow2(n) >= RECONNECT_MAX_MS
  {
    assert Pow2(5) == 32 by { assert Pow2(2) == 4; assert Pow2(4) == 16; }
    Pow2Monotone(5, n);
  }

  /** The cap on the exponent never matters: the k-th retry waits min(1000 * 2^(k-1), 30000) ms. */
  lemma DelayIsCappedDoubling(failures: nat)
    requires failures > 0
    ensures Delay(failures) == Min(RECONNECT_BASE_MS * Pow2(failures - 1), RECONNECT_MAX_MS)
  {
    if failures - 1 > 10 {
      LargePowers(10);
      LargePowers(failures - 1);
    }
  }

  /** The waits are 1, 2, 4, 8 and 16 seconds, and 30 from then on. */
  lemma DelaysInMs(failures: nat)
    requires failures > 0
    ensures Delay(failures) ==
      if failures == 1 then 1000 else if failures == 2 then 2000 else if failures == 3 then 4000
      else if failures == 4 then 8000 else if failures == 5 then 16000 else 30000
  {
    DelayIsCappedDoubling(failures);
    assert Pow2(3) == 8 && Pow2(4) == 16 by { assert Pow2(2) == 4; }
    if failures > 5 { LargePowers(failures - 1); }
  }

  lemma DelayMonotone(a: nat, b: nat)
    requires 0 < a <= b
    ensures RECONNECT_BASE_MS <= Delay(a) <= Delay(b) <= RECONNECT_MAX_MS
  {
    DelayIsCappedDoubling(a);
    DelayIsCappedDoubling(b);
    Pow2Monotone(a - 1, b - 1);
  }

  lemma {:induction false} ErrorsGrow(marks: seq<Mark>, before: nat)
    requires ReadyMark !in marks
    ensures ErrorsSinceReady(marks, before) >= before
    decreases |marks|
  {
    if marks != [] {
      assert marks[|marks| - 1] in marks;
      ErrorsGrow(marks[..|marks| - 1], before);
    }
  }

  /** Until a ready frame arrives, waits never get shorter. */
  lemma DelaysNondecreasing(m: Stream, events: seq<Event>, projectId: Text)
    requires Valid(m, projectId) && m.timer.Some?
    requires ReadyMark !in Marks(m, events, projectId)
    requires Run(m, events, projectId).timer.Some?
    ensures m.timer.value <= Run(m, events, projectId).timer.value
  {
    hide Marks, Run, Delay;
    RunValid(m, events, projectId);
    FailuresCountErrors(m, events, projectId);
    ErrorsGrow(Marks(m, events, projectId), m.failures);
    DelayMonotone(m.failures, Run(m, events, projectId).failures);
  }

  // ---------- the closure itself ----------

  class ProjectEventStream {
    const projectId: Text
    var status: StreamStatus
    var source: Option<nat>
    var timer: Option<nat>
    var failures: nat
    var done: bool
    // The outside world: sources created and closed, statuses reported, updates delivered.
    var created: nat
    var closed: set<nat>
    var statuses: seq<StreamStatus>
    var delivered: seq<Update>

    function Model(): Stream
      reads this
    {
      Stream(status, source, timer, failures, done, created, closed, statuses, delivered)
    }

    constructor (projectId: Text)
      ensures this.projectId == projectId
      ensures Model() == Initial() && Valid(Model(), projectId)
    {
      this.projectId := projectId;
      status, source, timer, failures, done := Connecting, None, None, 0, false;
      created, closed, statuses, delivered := 0, {}, [], [];
      new;
      ConnectSource();
      InitialValid(projectId);
    }

    method Report(next: StreamStatus)
      modifies this`status, this`statuses
      ensures Model() == SetStatus(old(Model()), next)
    {
      status := next;
      statuses := statuses + [next];
    }

    method ConnectSource()
      modifies this
      ensures Model() == Connect(old(Model()))
    {
      if done { return; }
      timer := None;
      Report(if failures == 0 then Connecting else Reconnecting);
      source := Some(created);
      created := created + 1;
    }

    method HandleData(current: nat, data: Option<Value>)
      requires Valid(Model(), projectId)
      modifies this
      ensures Valid(Model(), projectId)
      ensures Model() == Step(old(Model()), Data(current, data), projectId)
      ensures |delivered| <= |old(delivered)| + 1 && old(delivered) <= delivered
      ensures timer == old(timer) && source == old(source) && created == old(created)
    {
      StepValid(Model(), Data(current, data), projectId);
      hide Valid, ParseProjectUpdate;
      if done || source != Some(current) { return; }
      var ready := ParseReady(data);
      if ready == Some(Lit("degraded")) {
        failures := 0;
        Report(Degraded);
        return;
      }
      if ready == Some(Lit("connected")) {
        failures := 0;
        Report(Connected);
        return;
      }
      var update := ParseProjectUpdate(data, projectId);
      if update.Some? { delivered := delivered + [update.value]; }
    }

    method HandleError(current: nat)
      requires Valid(Model(), projectId)
      modifies this
      ensures Valid(Model(), projectId)
      ensures Model() == Step(old(Model()), SourceError(current), projectId)
      ensures delivered == old(delivered)
    {
      StepValid(Model(), SourceError(current), projectId);
      hide Valid;
      if done || source != Some(current) { return; }
      closed := closed + {current};
      if source == Some(current) { source := None; }
      failures := failures + 1;
      Report(Reconnecting);
      timer := None;
      timer := Some(Min(RECONNECT_BASE_MS * Pow2(Min(failures - 1, 10)), RECONNECT_MAX_MS));
    }

    /** The callback of a timer that has not been cleared. */
    method HandleTimer()
      requires Valid(Model(), projectId) && timer.Some?
      modifies this
      ensures Valid(Model(), projectId)
      ensures Model() == Step(old(Model()), TimerFires, projectId)
      ensures source == Some(old(created)) && timer == None
    {
      StepValid(Model(), TimerFires, projectId);
      timer := None;
      ConnectSource();
    }

    method Close()
      requires Valid(Model(), projectId)
      modifies this
      ensures Valid(Model(), projectId) && done && status == Closed
      ensures Model() == Step(old(Model()), CloseCall, projectId)
      ensures old(done) ==> Model() == old(Model())
    {
      StepValid(Model(), CloseCall, projectId);
      if done { return; }
      done := true;
      timer := None;
      if source.Some? { closed := closed + {source.value}; }
      source := None;
      Report(Closed);
    }
  }
}
