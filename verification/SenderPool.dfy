/**
 * The batching and the cooperative senders of `runIngest` (scripts/benchmark-ingest.ts). A sender gives
 * up control only while a request is outstanding, so taking the next batch is one step.
 */
module SenderPool {
  // ---------- batches ----------

  datatype Batch = Batch(start: nat, count: nat)

  /** Consecutive, non-empty, at most `size` each, covering exactly `0 .. n`. */
  ghost predicate IsPartition(batches: seq<Batch>, n: nat, size: nat) {
    && (forall i | 0 <= i < |batches| :: 0 < batches[i].count <= size)
    && (forall i | 0 <= i < |batches| ::
      batches[i].start == if i == 0 then 0 else batches[i - 1].start + batches[i - 1].count)
    && (forall i | 0 <= i < |batches| - 1 :: batches[i].count == size)
    && n == if batches == [] then 0 else batches[|batches| - 1].start + batches[|batches| - 1].count
  }

  method CreateBatches(eventCount: nat, batchSize: nat) returns (payloads: seq<Batch>)
    requires batchSize > 0
    ensures IsPartition(payloads, eventCount, batchSize)
  {
    payloads := [];
    var sequence := 0;
    while sequence < eventCount
      invariant IsPartition(payloads, if sequence < eventCount then sequence else eventCount, batchSize)
      invariant sequence < eventCount ==> forall i | 0 <= i < |payloads| :: payloads[i].count == batchSize
      decreases eventCount - sequence
    {
      var count := if batchSize < eventCount - sequence then batchSize else eventCount - sequence;
      payloads := payloads + [Batch(sequence, count)];
      sequence := sequence + batchSize;
    }
  }

  function Total(batches: seq<Batch>): nat {
    if batches == [] then 0 else Total(batches[..|batches| - 1]) + batches[|batches| - 1].count
  }

  predicate Covers(b: Batch, e: nat) { b.start <= e < b.start + b.count }

  lemma PartitionFront(batches: seq<Batch>, n: nat, size: nat)
    requires IsPartition(batches, n, size) && batches != []
    ensures IsPartition(batches[..|batches| - 1], batches[|batches| - 1].start, size)
    ensures n == batches[|batches| - 1].start + batches[|batches| - 1].count
  {}

  lemma {:induction false} PartitionTotal(batches: seq<Batch>, n: nat, size: nat)
    requires IsPartition(batches, n, size)
    ensures Total(batches) == n
    decreases |batches|
  {
    if batches != [] {
      PartitionFront(batches, n, size);
      hide IsPartition;
      PartitionTotal(batches[..|batches| - 1], batches[|batches| - 1].start, size);
    }
  }

  lemma {:induction false} BatchesEndBefore(batches: seq<Batch>, n: nat, size: nat, i: nat)
    requires IsPartition(batches, n, size) && i < |batches|
    ensures batches[i].start + batches[i].count <= n
    decreases |batches|
  {
    PartitionFront(batches, n, size);
    hide IsPartition;
    if i < |batches| - 1 {
      BatchesEndBefore(batches[..|batches| - 1], batches[|batches| - 1].start, size, i);
    }
  }

  /** Each of the requested events is in exactly one batch, and no other event is in any. */
  lemma {:induction false} EventInOneBatch(batches: seq<Batch>, n: nat, size: nat, e: nat)
    requires IsPartition(batches, n, size)
    ensures e < n <==> exists i | 0 <= i < |batches| :: Covers(batches[i], e)
    ensures forall i, j | 0 <= i < |batches| && 0 <= j < |batches|
      && Covers(batches[i], e) && Covers(batches[j], e) :: i == j
    decreases |batches|
  {
    if batches != [] {
      var init, last := batches[..|batches| - 1], batches[|batches| - 1];
      PartitionFront(batches, n, size);
      forall i | 0 <= i < |init| ensures init[i].start + init[i].count <= last.start {
        BatchesEndBefore(init, last.start, size, i);
      }
      hide IsPartition;
      EventInOneBatch(init, last.start, size, e);
      assert forall i | 0 <= i < |init| :: batches[i] == init[i];
      if last.start <= e < n { assert Covers(batches[|batches| - 1], e); }
      if e < last.start {
        var i :| 0 <= i < |init| && Covers(init[i], e);
        assert Covers(batches[i], e);
      }
    }
  }

  // ---------- senders ----------

  datatype Sender = Ready | Waiting(batch: nat) | Finished

  /** Shared variables, senders, and the log of requests in the order they were sent. */
  datatype Pool = Pool(
    next: nat, senders: seq<Sender>, succeeded: seq<nat>, failed: seq<nat>, accepted: nat, sent: seq<nat>)

  datatype Action =
    // From the head of the loop to the next await, or out of the loop.
    | Proceed(sender: nat)
    // The request of a sender is answered, with all its events accepted, or fails.
    | Answer(sender: nat, ok: bool)

  predicate Enabled(p: Pool, a: Action) {
    match a
    case Proceed(i) => i < |p.senders| && p.senders[i].Ready?
    case Answer(i, _) => i < |p.senders| && p.senders[i].Waiting?
  }

  function Next(p: Pool, a: Action, batches: seq<Batch>): Pool
    requires Enabled(p, a)
  {
    match a
    case Proceed(i) =>
      if p.next < |batches| then
        p.(senders := p.senders[i := Waiting(p.next)], sent := p.sent + [p.next], next := p.next + 1)
      else p.(senders := p.senders[i := Finished])
    case Answer(i, ok) =>
      var b := p.senders[i].batch;
      if ok && b < |batches| then
        p.(senders := p.senders[i := Ready], succeeded := p.succeeded + [b], accepted := p.accepted + batches[b].count)
      else p.(senders := p.senders[i := Ready], failed := p.failed + [b])
  }

  function Initial(concurrency: nat): Pool {
    Pool(0, seq(concurrency, _ => Ready), [], [], 0, [])
  }

  /** How many senders wait for an answer to batch `b`. */
  function WaitingFor(senders: seq<Sender>, b: nat): nat {
    if senders == [] then 0
    else WaitingFor(senders[..|senders| - 1], b) + (if senders[|senders| - 1] == Waiting(b) then 1 else 0)
  }

  function UpTo(n: nat): seq<nat> { seq(n, i => i) }

  /** The events in the batches below `n` that are in `picked`. */
  function EventsIn(batches: seq<Batch>, n: nat, picked: seq<nat>): nat
    requires n <= |batches|
  {
    if n == 0 then 0 else EventsIn(batches, n - 1, picked) + (if n - 1 in picked then batches[n - 1].count else 0)
  }

  /** Every batch below `next` was sent once, and is outstanding, a success or a failure: one of these, once. */
  ghost predicate Accounted(p: Pool, batches: seq<Batch>) {
    forall b: nat ::
      WaitingFor(p.senders, b) + multiset(p.succeeded)[b] + multiset(p.failed)[b] == if b < p.next then 1 else 0
  }

  ghost predicate Inv(p: Pool, batches: seq<Batch>) {
    && p.next <= |batches|
    && p.sent == UpTo(p.next)
    && Accounted(p, batches)
    && p.accepted == EventsIn(batches, |batches|, p.succeeded)
    && (forall s <- p.senders :: s == Finished ==> p.next == |batches|)
    && (forall s <- p.senders :: s.Waiting? ==> s.batch < p.next)
  }

  lemma {:induction false} WaitingUpdate(senders: seq<Sender>, i: nat, s: Sender, b: nat)
    requires i < |senders|
    ensures WaitingFor(senders[i := s], b) + (if senders[i] == Waiting(b) then 1 else 0)
      == WaitingFor(senders, b) + (if s == Waiting(b) then 1 else 0)
    decreases |senders|
  {
    var init := senders[..|senders| - 1];
    if i < |senders| - 1 {
      WaitingUpdate(init, i, s, b);
      assert senders[i := s][..|senders| - 1] == init[i := s];
    } else {
      assert senders[i := s][..|senders| - 1] == init;
    }
  }

  lemma {:induction false} NobodyWaits(senders: seq<Sender>, b: nat)
    requires forall s <- senders :: !s.Waiting?
    ensures WaitingFor(senders, b) == 0
  {
    if senders != [] {
      assert senders[|senders| - 1] in senders;
      NobodyWaits(senders[..|senders| - 1], b);
    }
  }

  lemma {:induction false} SomebodyWaits(senders: seq<Sender>, i: nat, b: nat)
    requires i < |senders| && senders[i] == Waiting(b)
    ensures WaitingFor(senders, b) > 0
  {
    if i < |senders| - 1 { SomebodyWaits(senders[..|senders| - 1], i, b); }
  }

  lemma {:induction false} EventsInMore(batches: seq<Batch>, n: nat, picked: seq<nat>, b: nat)
    requires n <= |batches| && b !in picked
    ensures EventsIn(batches, n, picked + [b]) == EventsIn(batches, n, picked) + (if b < n then batches[b].count else 0)
  {
    if n > 0 { EventsInMore(batches, n - 1, picked, b); }
  }

  lemma StepKeepsAccounts(p: Pool, a: Action, batches: seq<Batch>)
    requires Inv(p, batches) && Enabled(p, a)
    ensures Accounted(Next(p, a, batches), batches)
  {
    var p', i := Next(p, a, batches), a.sender;
    forall b: nat
      ensures WaitingFor(p'.senders, b) + multiset(p'.succeeded)[b] + multiset(p'.failed)[b] ==
        if b < p'.next then 1 else 0
    {
      WaitingUpdate(p.senders, i, p'.senders[i], b);
      assert WaitingFor(p.senders, b) + multiset(p.succeeded)[b] + multiset(p.failed)[b] == if b < p.next then 1 else 0;
    }
  }

  lemma StepKeepsInv(p: Pool, a: Action, batches: seq<Batch>)
    requires Inv(p, batches) && Enabled(p, a)
    ensures Inv(Next(p, a, batches), batches)
  {
    var p', i := Next(p, a, batches), a.sender;
    StepKeepsAccounts(p, a, batches);
    assert p.senders[i] in p.senders;
    forall s | s in p'.senders ensures s == p'.senders[i] || s in p.senders {}
    match a
    case Proceed(_) =>
      assert UpTo(p.next + 1) == UpTo(p.next) + [p.next];
    case Answer(_, ok) =>
      var b := p.senders[i].batch;
      SomebodyWaits(p.senders, i, b);
      assert multiset(p.succeeded)[b] == 0;
      EventsInMore(batches, |batches|, p.succeeded, b);
  }

  ghost predicate IsRun(p: Pool, actions: seq<Action>, batches: seq<Batch>)
    decreases |actions|
  {
    actions != [] ==> Enabled(p, actions[0]) && IsRun(Next(p, actions[0], batches), actions[1..], batches)
  }

  ghost function Run(p: Pool, actions: seq<Action>, batches: seq<Batch>): Pool
    requires IsRun(p, actions, batches)
    decreases |actions|
  {
    if actions == [] then p else Run(Next(p, actions[0], batches), actions[1..], batches)
  }

  lemma {:induction false} RunKeepsInv(p: Pool, actions: seq<Action>, batches: seq<Batch>)
    requires Inv(p, batches) && IsRun(p, actions, batches)
    ensures Inv(Run(p, actions, batches), batches)
    ensures |Run(p, actions, batches).senders| == |p.senders|
    decreases |actions|
  {
    if actions != [] {
      StepKeepsInv(p, actions[0], batches);
      RunKeepsInv(Next(p, actions[0], batches), actions[1..], batches);
    }
  }

  // ---------- what was answered ----------

  /** The batches that senders were waiting for when their requests were answered, or failed. */
  ghost function AnsweredIn(p: Pool, actions: seq<Action>, batches: seq<Batch>, ok: bool): seq<nat>
    requires IsRun(p, actions, batches)
    decreases |actions|
  {
    if actions == [] then []
    else
      (if actions[0].Answer? && actions[0].ok == ok then [p.senders[actions[0].sender].batch] else [])
      + AnsweredIn(Next(p, actions[0], batches), actions[1..], batches, ok)
  }

  /** The events in these batches. */
  function EventsOf(batches: seq<Batch>, picked: seq<nat>): nat {
    if picked == [] then 0
    else (if picked[0] < |batches| then batches[picked[0]].count else 0) + EventsOf(batches, picked[1..])
  }

  function AnswerCount(actions: seq<Action>, ok: bool): nat {
    if actions == [] then 0
    else (if actions[0].Answer? && actions[0].ok == ok then 1 else 0) + AnswerCount(actions[1..], ok)
  }

  lemma {:induction false} AnsweredCount(p: Pool, actions: seq<Action>, batches: seq<Batch>, ok: bool)
    requires Inv(p, batches) && IsRun(p, actions, batches)
    ensures |AnsweredIn(p, actions, batches, ok)| == AnswerCount(actions, ok)
    decreases |actions|
  {
    if actions != [] {
      StepKeepsInv(p, actions[0], batches);
      assert p.senders[actions[0].sender] in p.senders;
      hide Next;
      AnsweredCount(Next(p, actions[0], batches), actions[1..], batches, ok);
    }
  }

  lemma NoEvents(batches: seq<Batch>)
    ensures EventsOf(batches, []) == 0
  {}

  lemma EventsOfMore(batches: seq<Batch>, b: nat, picked: seq<nat>)
    requires b < |batches|
    ensures EventsOf(batches, [b] + picked) == batches[b].count + EventsOf(batches, picked)
  {
    assert ([b] + picked)[1..] == picked;
  }

  lemma WaitsWhenAnswered(p: Pool, a: Action)
    requires Enabled(p, a)
    ensures a.sender < |p.senders| && (a.Answer? ==> p.senders[a.sender].Waiting?)
  {}

  /** What one answer records. */
  lemma AnswerRecords(p: Pool, a: Action, batches: seq<Batch>)
    requires Inv(p, batches) && Enabled(p, a)
    ensures a.Answer? ==> p.senders[a.sender].batch < |batches|
    ensures var p' := Next(p, a, batches);
      && p'.succeeded == p.succeeded + (if a.Answer? && a.ok then [p.senders[a.sender].batch] else [])
      && p'.failed == p.failed + (if a.Answer? && !a.ok then [p.senders[a.sender].batch] else [])
      && p'.accepted == p.accepted + (if a.Answer? && a.ok then batches[p.senders[a.sender].batch].count else 0)
  {
    assert p.senders[a.sender] in p.senders;
  }

  /**
   * Over every run the records are those of the answers, in order: a batch is a success or a failure
   * exactly as the request of a sender that waited for it was answered.
   */
  lemma {:induction false} RecordsAreAnswers(p: Pool, actions: seq<Action>, batches: seq<Batch>)
    requires Inv(p, batches) && IsRun(p, actions, batches)
    ensures Run(p, actions, batches).succeeded == p.succeeded + AnsweredIn(p, actions, batches, true)
    ensures Run(p, actions, batches).failed == p.failed + AnsweredIn(p, actions, batches, false)
    decreases |actions|
  {
    hide Next, Enabled, Inv;
    if actions != [] {
      StepKeepsInv(p, actions[0], batches);
      AnswerRecords(p, actions[0], batches);
      WaitsWhenAnswered(p, actions[0]);
      RecordsAreAnswers(Next(p, actions[0], batches), actions[1..], batches);
    }
  }

  /** The events accepted are those of the batches answered well. */
  lemma {:induction false} AcceptedAreAnswered(p: Pool, actions: seq<Action>, batches: seq<Batch>)
    requires Inv(p, batches) && IsRun(p, actions, batches)
    ensures Run(p, actions, batches).accepted ==
      p.accepted + EventsOf(batches, AnsweredIn(p, actions, batches, true))
    decreases |actions|
  {
    hide Next, Enabled, Inv, EventsOf;
    if actions == [] {
      NoEvents(batches);
    } else {
      var a := actions[0];
      var p' := Next(p, a, batches);
      StepKeepsInv(p, a, batches);
      AnswerRecords(p, a, batches);
      WaitsWhenAnswered(p, a);
      AcceptedAreAnswered(p', actions[1..], batches);
      var answered := AnsweredIn(p', actions[1..], batches, true);
      if a.Answer? && a.ok {
        EventsOfMore(batches, p.senders[a.sender].batch, answered);
      } else {
        assert [] + answered == answered;
      }
    }
  }

  lemma {:induction false} EventsInNone(batches: seq<Batch>, n: nat)
    requires n <= |batches|
    ensures EventsIn(batches, n, []) == 0
  {
    if n > 0 { EventsInNone(batches, n - 1); }
  }

  lemma InitialOk(concurrency: nat, batches: seq<Batch>)
    ensures Inv(Initial(concurrency), batches)
  {
    EventsInNone(batches, |batches|);
    forall b: nat ensures WaitingFor(Initial(concurrency).senders, b) == 0 {
      NobodyWaits(Initial(concurrency).senders, b);
    }
  }

  ghost predicate IsComplete(p: Pool) { forall s <- p.senders :: s == Finished }

  lemma {:induction false} EventsInAll(batches: seq<Batch>, n: nat, picked: seq<nat>)
    requires n <= |batches| && forall b: nat | b < n :: b in picked
    ensures EventsIn(batches, n, picked) == Total(batches[..n])
  {
    if n > 0 {
      EventsInAll(batches, n - 1, picked);
      assert batches[..n][..n - 1] == batches[..n - 1];
    }
  }

  lemma CompletedRecords(p: Pool, batches: seq<Batch>, eventCount: nat, batchSize: nat)
    requires |p.senders| > 0 && IsPartition(batches, eventCount, batchSize) && Inv(p, batches) && IsComplete(p)
    ensures p.sent == UpTo(|batches|)
    ensures forall b: nat :: multiset(p.succeeded)[b] + multiset(p.failed)[b] == if b < |batches| then 1 else 0
    ensures p.failed == [] ==> p.accepted == eventCount
  {
    hide IsPartition;
    assert p.senders[0] in p.senders;
    forall b: nat ensures multiset(p.succeeded)[b] + multiset(p.failed)[b] == if b < |batches| then 1 else 0 {
      NobodyWaits(p.senders, b);
      assert WaitingFor(p.senders, b) + multiset(p.succeeded)[b] + multiset(p.failed)[b] == if b < p.next then 1 else 0;
    }
    if p.failed == [] {
      forall b: nat | b < |batches| ensures b in p.succeeded { assert multiset(p.succeeded)[b] == 1; }
      EventsInAll(batches, |batches|, p.succeeded);
      assert batches[..|batches|] == batches;
      PartitionTotal(batches, eventCount, batchSize);
    }
  }

  /**
   * Under every interleaving of at least one sender: when all senders have finished, every batch was
   * sent exactly once, in order, and was recorded once, as a success or as a failure, as its request was
   * answered; the failures are as many as the requests that failed, and the events accepted are those of
   * the batches answered well: exactly those requested if no request failed.
   */
  lemma CompletedRun(concurrency: nat, actions: seq<Action>, batches: seq<Batch>, eventCount: nat, batchSize: nat)
    requires concurrency > 0 && IsPartition(batches, eventCount, batchSize)
    requires IsRun(Initial(concurrency), actions, batches)
    requires IsComplete(Run(Initial(concurrency), actions, batches))
    ensures var p := Run(Initial(concurrency), actions, batches);
      && p.sent == UpTo(|batches|)
      && (forall b: nat :: multiset(p.succeeded)[b] + multiset(p.failed)[b] == if b < |batches| then 1 else 0)
      && p.succeeded == AnsweredIn(Initial(concurrency), actions, batches, true)
      && p.failed == AnsweredIn(Initial(concurrency), actions, batches, false)
      && |p.failed| == AnswerCount(actions, false)
      && p.accepted == EventsOf(batches, AnsweredIn(Initial(concurrency), actions, batches, true))
      && ((forall a <- actions :: a.Answer? ==> a.ok) ==> p.accepted == eventCount)
  {
    hide IsPartition, Run, IsRun, Inv, AnsweredIn, EventsOf, AnswerCount, IsComplete;
    InitialOk(concurrency, batches);
    RunKeepsInv(Initial(concurrency), actions, batches);
    RecordsAreAnswers(Initial(concurrency), actions, batches);
    AcceptedAreAnswered(Initial(concurrency), actions, batches);
    AnsweredCount(Initial(concurrency), actions, batches, false);
    if forall a <- actions :: a.Answer? ==> a.ok { NoneFailed(actions); }
    CompletedRecords(Run(Initial(concurrency), actions, batches), batches, eventCount, batchSize);
  }

  lemma {:induction false} NoneFailed(actions: seq<Action>)
    requires forall a <- actions :: a.Answer? ==> a.ok
    ensures AnswerCount(actions, false) == 0
  {
    if actions != [] { NoneFailed(actions[1..]); }
  }

  /** The counters: successes and failures add up to the batches sent and answered. */
  lemma {:induction false} RecordsAddUp(p: Pool, actions: seq<Action>, batches: seq<Batch>)
    requires IsRun(p, actions, batches) && IsComplete(Run(p, actions, batches))
    ensures var q := Run(p, actions, batches);
      |q.succeeded| + |q.failed| == |p.succeeded| + |p.failed| + Busy(p.senders) + (|q.sent| - |p.sent|)
    ensures |p.sent| <= |Run(p, actions, batches).sent|
    decreases |actions|
  {
    if actions == [] {
      NobodyBusy(p.senders);
    } else {
      var p' := Next(p, actions[0], batches);
      BusyUpdate(p.senders, actions[0].sender, p'.senders[actions[0].sender]);
      RecordsAddUp(p', actions[1..], batches);
    }
  }

  function Busy(senders: seq<Sender>): nat {
    if senders == [] then 0
    else Busy(senders[..|senders| - 1]) + (if senders[|senders| - 1].Waiting? then 1 else 0)
  }

  lemma {:induction false} NobodyBusy(senders: seq<Sender>)
    requires forall s <- senders :: !s.Waiting?
    ensures Busy(senders) == 0
  {
    if senders != [] {
      assert senders[|senders| - 1] in senders;
      NobodyBusy(senders[..|senders| - 1]);
    }
  }

  lemma {:induction false} BusyUpdate(senders: seq<Sender>, i: nat, s: Sender)
    requires i < |senders|
    ensures Busy(senders[i := s]) + (if senders[i].Waiting? then 1 else 0) ==
      Busy(senders) + (if s.Waiting? then 1 else 0)
    decreases |senders|
  {
    var init := senders[..|senders| - 1];
    if i < |senders| - 1 {
      BusyUpdate(init, i, s);
      assert senders[i := s][..|senders| - 1] == init[i := s];
    } else {
      assert senders[i := s][..|senders| - 1] == init;
    }
  }

  /** At completion successes and failures together are as many as the batches. */
  lemma CompletedCounts(concurrency: nat, actions: seq<Action>, batches: seq<Batch>)
    requires concurrency > 0 && IsRun(Initial(concurrency), actions, batches)
    requires IsComplete(Run(Initial(concurrency), actions, batches))
    ensures var p := Run(Initial(concurrency), actions, batches); |p.succeeded| + |p.failed| == |batches|
  {
    hide Run, IsRun;
    InitialOk(concurrency, batches);
    NobodyBusy(Initial(concurrency).senders);
    RunKeepsInv(Initial(concurrency), actions, batches);
    RecordsAddUp(Initial(concurrency), actions, batches);
    var p := Run(Initial(concurrency), actions, batches);
    assert p.senders[0] in p.senders;
  }

  /** There is always something that can happen, except when all senders have finished. */
  lemma ProgressIff(p: Pool)
    ensures IsComplete(p) <==> forall a: Action :: !Enabled(p, a)
  {
    if !IsComplete(p) {
      var i :| 0 <= i < |p.senders| && p.senders[i] != Finished;
      assert Enabled(p, if p.senders[i].Ready? then Proceed(i) else Answer(i, true));
    } else {
      forall a: Action ensures !Enabled(p, a) {
        if a.sender < |p.senders| { assert p.senders[a.sender] in p.senders; }
      }
    }
  }

  /** Each step brings the pool closer to completion, so every run is finite. */
  function Remaining(p: Pool, batches: seq<Batch>): nat {
    (if p.next < |batches| then 2 * (|batches| - p.next) else 0) + Unfinished(p.senders)
  }

  function Unfinished(senders: seq<Sender>): nat {
    if senders == [] then 0
    else
      Unfinished(senders[..|senders| - 1])
      + (match senders[|senders| - 1] case Ready => 1 case Waiting(_) => 2 case Finished => 0)
  }

  lemma {:induction false} UnfinishedUpdate(senders: seq<Sender>, i: nat, s: Sender)
    requires i < |senders|
    ensures Unfinished(senders[i := s]) + (match senders[i] case Ready => 1 case Waiting(_) => 2 case Finished => 0)
      == Unfinished(senders) + (match s case Ready => 1 case Waiting(_) => 2 case Finished => 0)
    decreases |senders|
  {
    var init := senders[..|senders| - 1];
    if i < |senders| - 1 {
      UnfinishedUpdate(init, i, s);
      assert senders[i := s][..|senders| - 1] == init[i := s];
    } else {
      assert senders[i := s][..|senders| - 1] == init;
    }
  }

  lemma StepsShrink(p: Pool, a: Action, batches: seq<Batch>)
    requires Enabled(p, a)
    ensures Remaining(Next(p, a, batches), batches) < Remaining(p, batches)
  {
    var p' := Next(p, a, batches);
    UnfinishedUpdate(p.senders, a.sender, p'.senders[a.sender]);
  }

  lemma {:induction false} RunsAreBounded(p: Pool, actions: seq<Action>, batches: seq<Batch>)
    requires IsRun(p, actions, batches)
    ensures |actions| <= Remaining(p, batches)
    decreases |actions|
  {
    hide Next, Enabled, Remaining;
    if actions != [] {
      StepsShrink(p, actions[0], batches);
      RunsAreBounded(Next(p, actions[0], batches), actions[1..], batches);
    }
  }

  /** From every state, whatever has happened, the pool can go on to completion; no choice leads astray. */
  lemma {:induction false} CanComplete(p: Pool, batches: seq<Batch>) returns (actions: seq<Action>)
    ensures IsRun(p, actions, batches) && IsComplete(Run(p, actions, batches))
    decreases Remaining(p, batches)
  {
    hide Next, Enabled, Remaining;
    if IsComplete(p) {
      actions := [];
    } else {
      ProgressIff(p);
      var a: Action :| Enabled(p, a);
      StepsShrink(p, a, batches);
      var rest := CanComplete(Next(p, a, batches), batches);
      actions := [a] + rest;
      assert actions[1..] == rest;
    }
  }
}
