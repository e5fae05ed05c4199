/**
 * `sourcemaps upload` (packages/cli/src/commands.ts) as interleaved runs of any number of clients
 * against one server with put-if-absent artifacts. Requests can fail or time out after the server has
 * them, clients can die at any step, and what they sent may still be handled later. The files a
 * client scanned do not change while it runs.
 */
module UploadProtocol {
  import opened Wrappers
  import opened JsText
  import opened UploadPlan
  import opened UploadServer
  import ArtifactPaths

  datatype Request = Request(version: Text, artifact: Artifact)

  datatype Outcome = Created | AlreadyThere | PathConflict | BadPath

  datatype Phase =
    | Scanned
    | Confirming
    | Released
    | Uploading(next: nat)
    | Sent(next: nat)
    | Answered(next: nat, outcome: Outcome)
    | Done
    | Aborted
    | Failed

  datatype Client = Client(version: Text, scanned: seq<Artifact>, plan: Plan, phase: Phase)

  /** The server puts each path where `locate` says, for good. */
  datatype State = State(
    locate: Locate,
    releases: set<Text>,
    stored: map<Text, Stored>,
    clients: map<nat, Client>,
    late: multiset<Request>)

  datatype Action =
    | Start(c: nat, version: Text, scanned: seq<Artifact>)
    | CreateRelease(c: nat, conflict: bool)
    | ListReleases(c: nat)
    | Preflight(c: nat)
    | Send(c: nat)
    | Handle(c: nat)
    | Receive(c: nat)
    | Finish(c: nat)
    | RequestFails(c: nat)
    | Crash(c: nat)
    | HandleLate(request: Request)

  /** What a release has stored; nothing before the first upload. */
  function StoredIn(s: State, version: Text): Stored {
    if version in s.stored then s.stored[version] else map[]
  }

  predicate IsRefusal(outcome: Outcome) { outcome == PathConflict || outcome == BadPath }

  /** Put if absent: the same content again is fine, other content is refused and changes nothing. */
  function Answer(s: State, r: Request): Outcome {
    match s.locate(r.artifact.path)
    case None => BadPath
    case Some(place) =>
      match VerdictOn(StoredIn(s, r.version), place, r.artifact.hash)
      case Upload => Created
      case Exists => AlreadyThere
      case Conflict => PathConflict
  }

  function Store(s: State, r: Request): State {
    if Answer(s, r) == Created then
      var place := s.locate(r.artifact.path).value;
      s.(stored := s.stored[r.version := StoredIn(s, r.version)[place := r.artifact.hash]])
    else s
  }

  function Outstanding(client: Client): multiset<Request> {
    if client.phase.Sent? && client.phase.next < |client.plan.toUpload|
    then multiset{Request(client.version, client.plan.toUpload[client.phase.next])}
    else multiset{}
  }

  predicate In(s: State, c: nat) { c in s.clients }

  predicate Enabled(s: State, a: Action) {
    match a
    case Start(c, _, scanned) => c !in s.clients && HasMap(scanned)
    case CreateRelease(c, conflict) =>
      In(s, c) && s.clients[c].phase.Scanned? && (conflict ==> s.clients[c].version in s.releases)
    case ListReleases(c) => In(s, c) && s.clients[c].phase.Confirming?
    case Preflight(c) => In(s, c) && s.clients[c].phase.Released?
    case Send(c) =>
      In(s, c) && s.clients[c].phase.Uploading? && s.clients[c].phase.next < |s.clients[c].plan.toUpload|
    case Handle(c) =>
      In(s, c) && s.clients[c].phase.Sent? && s.clients[c].phase.next < |s.clients[c].plan.toUpload|
    case Receive(c) => In(s, c) && s.clients[c].phase.Answered?
    case Finish(c) =>
      In(s, c) && s.clients[c].phase.Uploading? && s.clients[c].phase.next == |s.clients[c].plan.toUpload|
    case RequestFails(c) =>
      In(s, c) && !s.clients[c].phase.Done? && !s.clients[c].phase.Aborted?
    case Crash(c) => In(s, c)
    case HandleLate(r) => r in s.late
  }

  function InPhase(s: State, c: nat, phase: Phase): State
    requires In(s, c)
  {
    s.(clients := s.clients[c := s.clients[c].(phase := phase)])
  }

  function Next(s: State, a: Action): State
    requires Enabled(s, a)
  {
    match a
    case Start(c, version, scanned) =>
      s.(clients := s.clients[c := Client(version, scanned, Plan([], [], []), Scanned)])
    case CreateRelease(c, conflict) =>
      if conflict then InPhase(s, c, Confirming)
      else InPhase(s, c, Released).(releases := s.releases + {s.clients[c].version})
    case ListReleases(c) =>
      InPhase(s, c, if s.clients[c].version in s.releases then Released else Failed)
    case Preflight(c) =>
      var client := s.clients[c];
      (match CheckManifest(StoredIn(s, client.version), client.scanned, s.locate)
       case None => InPhase(s, c, Failed)
       case Some(results) =>
         var plan := PlanFor(client.scanned, results);
         var phase := if plan.conflicts != [] then Aborted else Uploading(0);
         s.(clients := s.clients[c := client.(plan := plan, phase := phase)]))
    case Send(c) => InPhase(s, c, Sent(s.clients[c].phase.next))
    case Handle(c) =>
      var client := s.clients[c];
      var r := Request(client.version, client.plan.toUpload[client.phase.next]);
      Store(InPhase(s, c, Answered(client.phase.next, Answer(s, r))), r)
    case Receive(c) =>
      var phase := s.clients[c].phase;
      InPhase(s, c, if IsRefusal(phase.outcome) then Failed else Uploading(phase.next + 1))
    case Finish(c) => InPhase(s, c, Done)
    case RequestFails(c) => InPhase(s, c, Failed).(late := s.late + Outstanding(s.clients[c]))
    case Crash(c) => s.(clients := s.clients - {c}, late := s.late + Outstanding(s.clients[c]))
    case HandleLate(r) => Store(s, r).(late := s.late - multiset{r})
  }

  function Empty(locate: Locate): State { State(locate, {}, map[], map[], multiset{}) }

  // ---------- what never changes ----------

  /** Whatever is stored stays stored, with the same hash. */
  ghost predicate Extends(s: State, t: State) {
    && s.locate == t.locate && s.releases <= t.releases
    && forall v, p | p in StoredIn(s, v) :: p in StoredIn(t, v) && StoredIn(t, v)[p] == StoredIn(s, v)[p]
  }

  lemma StoreExtends(s: State, r: Request)
    ensures Extends(s, Store(s, r))
  {}

  lemma SameStoreExtends(s: State, t: State)
    requires s.locate == t.locate && s.stored == t.stored && s.releases <= t.releases
    ensures Extends(s, t)
  {
    assert forall v :: StoredIn(s, v) == StoredIn(t, v);
  }

  lemma ExtendsTransitive(s: State, t: State, u: State)
    requires Extends(s, t) && Extends(t, u)
    ensures Extends(s, u)
  {}

  lemma StepExtends(s: State, a: Action)
    requires Enabled(s, a)
    ensures Extends(s, Next(s, a))
  {
    hide PlanFor, CheckManifest, Answer, StoredIn, Extends, Outstanding;
    if a.Handle? {
      var client := s.clients[a.c];
      var r := Request(client.version, client.plan.toUpload[client.phase.next]);
      var t := InPhase(s, a.c, Answered(client.phase.next, Answer(s, r)));
      SameStoreExtends(s, t);
      StoreExtends(t, r);
      ExtendsTransitive(s, t, Store(t, r));
    } else if a.HandleLate? {
      StoreExtends(s, a.request);
      SameStoreExtends(Store(s, a.request), Next(s, a));
      ExtendsTransitive(s, Store(s, a.request), Next(s, a));
    } else {
      SameStoreExtends(s, Next(s, a));
    }
  }

  ghost predicate IsRun(s: State, actions: seq<Action>)
    decreases actions
  {
    actions != [] ==> Enabled(s, actions[0]) && IsRun(Next(s, actions[0]), actions[1..])
  }

  ghost function Run(s: State, actions: seq<Action>): State
    requires IsRun(s, actions)
    decreases actions
  {
    if actions == [] then s else Run(Next(s, actions[0]), actions[1..])
  }

  /** Over every run, of every client, with every failure: the hash stored for a path never changes. */
  lemma {:induction false} StoredNeverChanges(s: State, actions: seq<Action>)
    requires IsRun(s, actions)
    ensures Extends(s, Run(s, actions))
    decreases actions
  {
    if actions != [] {
      hide Next, Enabled;
      StepExtends(s, actions[0]);
      StoredNeverChanges(Next(s, actions[0]), actions[1..]);
    }
  }

  // ---------- what a run that returns has achieved ----------

  /** Stored, at the place of its path, with its hash. */
  predicate IsStored(s: State, version: Text, a: Artifact) {
    && s.locate(a.path).Some?
    && s.locate(a.path).value in StoredIn(s, version)
    && StoredIn(s, version)[s.locate(a.path).value] == a.hash
  }

  ghost predicate AreStored(s: State, version: Text, artifacts: seq<Artifact>) {
    forall a <- artifacts :: IsStored(s, version, a)
  }

  /** Everything scanned but what is shadowed is stored, or is among `others`. */
  ghost predicate AreStoredOr(s: State, version: Text, scanned: seq<Artifact>, others: seq<Artifact>) {
    forall i: nat | i < |scanned| ::
      IsShadowed(scanned, i, s.locate) || IsStored(s, version, scanned[i]) || scanned[i] in others
  }

  /** The plan of a client that got past its preflight. */
  ghost predicate PlanOk(s: State, client: Client) {
    IsAccepted(client.scanned, s.locate) && AreStoredOr(s, client.version, client.scanned, client.plan.toUpload)
  }

  ghost predicate ClientOk(s: State, client: Client) {
    && (match client.phase
        case Uploading(next) =>
          next <= |client.plan.toUpload| && PlanOk(s, client) &&
            AreStored(s, client.version, client.plan.toUpload[..next])
        case Sent(next) =>
          next < |client.plan.toUpload| && PlanOk(s, client) &&
            AreStored(s, client.version, client.plan.toUpload[..next])
        case Answered(next, outcome) =>
          next < |client.plan.toUpload| && PlanOk(s, client) &&
            AreStored(s, client.version, client.plan.toUpload[..next])
          && (!IsRefusal(outcome) ==> IsStored(s, client.version, client.plan.toUpload[next]))
        case Done => IsAccepted(client.scanned, s.locate) && AreStoredOr(s, client.version, client.scanned, [])
        case _ => true)
    && (!client.phase.Scanned? && !client.phase.Failed? ==> client.version in s.releases)
  }

  ghost predicate Inv(s: State) { forall c <- s.clients :: ClientOk(s, s.clients[c]) }

  lemma ExtendsKeepsClientOk(s: State, t: State, client: Client)
    requires Extends(s, t) && ClientOk(s, client)
    ensures ClientOk(t, client)
  {
    forall v, a | IsStored(s, v, a) ensures IsStored(t, v, a) {}
  }

  predicate ActsFor(a: Action, c: nat) { !a.HandleLate? && a.c == c }

  lemma OthersKept(s: State, a: Action, d: nat)
    requires Enabled(s, a) && !ActsFor(a, d)
    ensures d in Next(s, a).clients <==> d in s.clients
    ensures d in s.clients ==> Next(s, a).clients[d] == s.clients[d]
  {}

  /** An accepted preflight without conflicts: what nothing shadows is stored, or is to be uploaded. */
  lemma PreflightOk(s: State, version: Text, scanned: seq<Artifact>)
    requires IsAccepted(scanned, s.locate)
    ensures var plan := PlanFor(scanned, Results(StoredIn(s, version), scanned, s.locate));
      plan.conflicts == [] ==> AreStoredOr(s, version, scanned, plan.toUpload)
  {
    var stored := StoredIn(s, version);
    var results := Results(stored, scanned, s.locate);
    hide Results, VerdictFor, WithVerdict;
    forall i: nat | i < |scanned| && !IsShadowed(scanned, i, s.locate)
      ensures
        || IsStored(s, version, scanned[i])
        || scanned[i] in WithVerdict(scanned, results, Upload)
        || scanned[i] in WithVerdict(scanned, results, Conflict)
    {
      WithVerdictContains(scanned, results, Upload, scanned[i]);
      WithVerdictContains(scanned, results, Conflict, scanned[i]);
      VerdictUnshadowed(stored, scanned, s.locate, i);
    }
  }

  lemma PreflightKeeps(s: State, c: nat)
    requires Inv(s) && Enabled(s, Preflight(c))
    ensures ClientOk(Next(s, Preflight(c)), Next(s, Preflight(c)).clients[c])
  {
    hide PlanFor, Results, IsAccepted;
    var client := s.clients[c];
    assert ClientOk(s, client);
    if IsAccepted(client.scanned, s.locate) { PreflightOk(s, client.version, client.scanned); }
  }

  lemma ActorOk(s: State, a: Action, c: nat)
    requires Inv(s) && Enabled(s, a) && ActsFor(a, c) && c in Next(s, a).clients && !a.Preflight?
    ensures ClientOk(Next(s, a), Next(s, a).clients[c])
  {
    hide PlanFor, CheckManifest, IsAccepted, IsShadowed;
    if c in s.clients {
      var client := s.clients[c];
      assert ClientOk(s, client);
      StepExtends(s, a);
      ExtendsKeepsClientOk(s, Next(s, a), client);
      match a
      case Receive(_) =>
        var next := client.phase.next;
        if next < |client.plan.toUpload| {
          assert client.plan.toUpload[..next + 1] == client.plan.toUpload[..next] + [client.plan.toUpload[next]];
        }
      case Finish(_) =>
        assert client.plan.toUpload[..|client.plan.toUpload|] == client.plan.toUpload;
      case _ =>
    }
  }

  lemma StepKeepsInv(s: State, a: Action)
    requires Inv(s) && Enabled(s, a)
    ensures Inv(Next(s, a))
  {
    hide Next, Enabled, ClientOk;
    forall d | d in Next(s, a).clients ensures ClientOk(Next(s, a), Next(s, a).clients[d]) {
      if a == Preflight(d) {
        PreflightKeeps(s, d);
      } else if ActsFor(a, d) {
        ActorOk(s, a, d);
      } else {
        OthersKept(s, a, d);
        StepExtends(s, a);
        ExtendsKeepsClientOk(s, Next(s, a), s.clients[d]);
      }
    }
  }

  lemma {:induction false} RunKeepsInv(s: State, actions: seq<Action>)
    requires Inv(s) && IsRun(s, actions)
    ensures Inv(Run(s, actions))
    decreases actions
  {
    if actions != [] {
      hide Next, Enabled, Inv;
      StepKeepsInv(s, actions[0]);
      RunKeepsInv(Next(s, actions[0]), actions[1..]);
    }
  }

  /** A version conflict is no obstacle: whoever has met one finds the release in the list. */
  lemma ConflictIsConfirmed(locate: Locate, actions: seq<Action>, c: nat)
    requires IsRun(Empty(locate), actions) && Enabled(Run(Empty(locate), actions), ListReleases(c))
    ensures Next(Run(Empty(locate), actions), ListReleases(c)).clients[c].phase == Released
  {
    hide Run, IsRun;
    RunKeepsInv(Empty(locate), actions);
    assert ClientOk(Run(Empty(locate), actions), Run(Empty(locate), actions).clients[c]);
  }

  // ---------- why a run does not return normally ----------

  /** At the place of one of these other content is stored. */
  ghost predicate HasTaken(s: State, version: Text, artifacts: seq<Artifact>) {
    exists a <- artifacts :: IsTaken(s, version, a)
  }

  predicate IsTaken(s: State, version: Text, a: Artifact) {
    && s.locate(a.path).Some?
    && s.locate(a.path).value in StoredIn(s, version)
    && StoredIn(s, version)[s.locate(a.path).value] != a.hash
  }

  /** What can have ended a client: a request that failed, a refused manifest, or other content at a place. */
  ghost predicate HasCause(s: State, client: Client, failed: bool) {
    match client.phase
    case Failed =>
      failed || !IsAccepted(client.scanned, s.locate) || HasTaken(s, client.version, client.scanned)
    case Aborted => HasTaken(s, client.version, client.scanned)
    case Uploading(_) => AreScanned(client)
    case Sent(_) => AreScanned(client)
    case Answered(_, outcome) =>
      AreScanned(client)
      && (IsRefusal(outcome) ==>
            !IsAccepted(client.scanned, s.locate) || HasTaken(s, client.version, client.scanned))
    case _ => true
  }

  ghost predicate AreScanned(client: Client) { forall a <- client.plan.toUpload :: a in client.scanned }

  lemma ExtendsKeepsCause(s: State, t: State, client: Client, failed: bool, later: bool)
    requires Extends(s, t) && HasCause(s, client, failed) && (failed ==> later)
    ensures HasCause(t, client, later)
  {
    hide IsAccepted;
    forall a | IsTaken(s, client.version, a) ensures IsTaken(t, client.version, a) {}
  }

  /** A refused upload: its path has no place, or its place holds other content. */
  lemma RefusalHasCause(s: State, version: Text, a: Artifact, scanned: seq<Artifact>)
    requires a in scanned && IsRefusal(Answer(s, Request(version, a)))
    ensures !IsAccepted(scanned, s.locate) || HasTaken(s, version, scanned)
  {
    var i :| 0 <= i < |scanned| && scanned[i] == a;
    if s.locate(a.path).Some? { assert IsTaken(s, version, a); }
  }

  /** A planned conflict: some entry's place holds other content. */
  lemma ConflictHasCause(s: State, version: Text, scanned: seq<Artifact>)
    requires IsAccepted(scanned, s.locate)
    ensures var plan := PlanFor(scanned, Results(StoredIn(s, version), scanned, s.locate));
      && (plan.conflicts != [] ==> HasTaken(s, version, scanned))
      && forall a <- plan.toUpload :: a in scanned
  {
    var results := Results(StoredIn(s, version), scanned, s.locate);
    hide Results, VerdictFor, WithVerdict;
    var plan := PlanFor(scanned, results);
    if plan.conflicts != [] {
      var a := plan.conflicts[0];
      assert a in plan.conflicts;
      WithVerdictContains(scanned, results, Conflict, a);
      FoundVerdict(StoredIn(s, version), scanned, s.locate, a.path);
      var j :| 0 <= j < |scanned| && s.locate(scanned[j].path) == Some(a.path);
      assert IsTaken(s, version, scanned[j]);
    }
    forall a | a in plan.toUpload ensures a in scanned { WithVerdictContains(scanned, results, Upload, a); }
  }

  lemma PreflightHasCause(s: State, c: nat, failed: bool)
    requires Enabled(s, Preflight(c))
    ensures HasCause(Next(s, Preflight(c)), Next(s, Preflight(c)).clients[c], failed)
  {
    hide PlanFor, Results, IsAccepted;
    var client, s' := s.clients[c], Next(s, Preflight(c));
    assert StoredIn(s', client.version) == StoredIn(s, client.version);
    if IsAccepted(client.scanned, s.locate) { ConflictHasCause(s, client.version, client.scanned); }
  }

  lemma ActorHasCause(s: State, a: Action, c: nat, failed: bool)
    requires Inv(s) && Enabled(s, a) && ActsFor(a, c) && c in Next(s, a).clients && a != Crash(c)
    requires c in s.clients ==> HasCause(s, s.clients[c], failed)
    ensures HasCause(Next(s, a), Next(s, a).clients[c], failed || a == RequestFails(c))
  {
    hide PlanFor, CheckManifest, IsAccepted, IsShadowed;
    if a.Preflight? {
      PreflightHasCause(s, c, failed);
    } else if c in s.clients {
      var client := s.clients[c];
      assert ClientOk(s, client);
      StepExtends(s, a);
      ExtendsKeepsCause(s, Next(s, a), client, failed, failed || a == RequestFails(c));
      if a.Handle? && IsRefusal(Answer(s, Request(client.version, client.plan.toUpload[client.phase.next]))) {
        RefusalHasCause(s, client.version, client.plan.toUpload[client.phase.next], client.scanned);
        RefusedChangesNothing(s, a);
      }
    }
  }

  lemma RefusedChangesNothing(s: State, a: Action)
    requires Enabled(s, a) && a.Handle?
    requires var client := s.clients[a.c];
      IsRefusal(Answer(s, Request(client.version, client.plan.toUpload[client.phase.next])))
    ensures Next(s, a).stored == s.stored && Next(s, a).locate == s.locate
  {
    var client := s.clients[a.c];
    var r := Request(client.version, client.plan.toUpload[client.phase.next]);
    AnswerOfSame(s, InPhase(s, a.c, Answered(client.phase.next, Answer(s, r))), r);
  }

  lemma StepHasCause(s: State, a: Action, c: nat, failed: bool)
    requires Inv(s) && Enabled(s, a) && c in Next(s, a).clients && a != Crash(c)
    requires c in s.clients ==> HasCause(s, s.clients[c], failed)
    ensures HasCause(Next(s, a), Next(s, a).clients[c], failed || a == RequestFails(c))
  {
    hide Next, Enabled, HasCause, Inv;
    if ActsFor(a, c) {
      ActorHasCause(s, a, c, failed);
    } else {
      OthersKept(s, a, c);
      StepExtends(s, a);
      ExtendsKeepsCause(s, Next(s, a), s.clients[c], failed, failed);
    }
  }

  lemma {:induction false} RunHasCause(s: State, actions: seq<Action>, c: nat, failed: bool)
    requires Inv(s) && IsRun(s, actions) && Crash(c) !in actions && c in Run(s, actions).clients
    requires c in s.clients ==> HasCause(s, s.clients[c], failed)
    ensures HasCause(Run(s, actions), Run(s, actions).clients[c], failed || RequestFails(c) in actions)
    decreases actions
  {
    if actions != [] {
      hide Next, Enabled, HasCause, Inv;
      var a := actions[0];
      StepKeepsInv(s, a);
      if c in Next(s, a).clients { StepHasCause(s, a, c, failed); }
      RunHasCause(Next(s, a), actions[1..], c, failed || a == RequestFails(c));
      assert RequestFails(c) in actions <==> a == RequestFails(c) || RequestFails(c) in actions[1..];
    }
  }

  /**
   * In every run: a client aborts, or fails without a failed request, only if the server refuses its
   * manifest or something it scanned meets other content in store.
   */
  lemma FailureHasCause(locate: Locate, actions: seq<Action>, c: nat)
    requires IsRun(Empty(locate), actions) && Crash(c) !in actions && c in Run(Empty(locate), actions).clients
    ensures var s := Run(Empty(locate), actions);
      var client := s.clients[c];
      && (client.phase.Aborted? ==> HasTaken(s, client.version, client.scanned))
      && (client.phase.Failed? && RequestFails(c) !in actions ==>
            !IsAccepted(client.scanned, locate) || HasTaken(s, client.version, client.scanned))
  {
    hide Run, IsRun, IsAccepted, HasTaken;
    StoredNeverChanges(Empty(locate), actions);
    RunHasCause(Empty(locate), actions, c, false);
  }

  // ---------- what is never sent ----------

  lemma {:induction false} ScannedKept(s: State, actions: seq<Action>, c: nat)
    requires IsRun(s, actions) && c in s.clients && Crash(c) !in actions
    ensures c in Run(s, actions).clients && Run(s, actions).clients[c].scanned == s.clients[c].scanned
    ensures Run(s, actions).locate == s.locate
    decreases actions
  {
    if actions != [] {
      StepKeepsScanned(s, actions[0], c);
      hide Next, Enabled;
      ScannedKept(Next(s, actions[0]), actions[1..], c);
    }
  }

  lemma ActorKeepsScanned(s: State, a: Action, c: nat)
    requires Enabled(s, a) && c in s.clients && ActsFor(a, c) && a != Crash(c)
    ensures c in Next(s, a).clients && Next(s, a).clients[c].scanned == s.clients[c].scanned
  {
    hide PlanFor, CheckManifest, Answer, StoredIn, Outstanding;
  }

  lemma StepKeepsScanned(s: State, a: Action, c: nat)
    requires Enabled(s, a) && c in s.clients && a != Crash(c)
    ensures c in Next(s, a).clients && Next(s, a).clients[c].scanned == s.clients[c].scanned
    ensures Next(s, a).locate == s.locate
  {
    hide Next, Enabled;
    StepExtends(s, a);
    if ActsFor(a, c) { ActorKeepsScanned(s, a, c); } else { OthersKept(s, a, c); }
  }

  /** A client whose manifest the server refuses sends no artifact in its whole run. */
  lemma {:induction false} RefusedSendsNothing(s: State, actions: seq<Action>, c: nat)
    requires Inv(s) && IsRun(s, actions) && Crash(c) !in actions
    requires c in Run(s, actions).clients && !IsAccepted(Run(s, actions).clients[c].scanned, s.locate)
    ensures Send(c) !in actions
    decreases actions
  {
    if actions != [] {
      if actions[0] == Send(c) {
        assert ClientOk(s, s.clients[c]);
        ScannedKept(s, actions, c);
      }
      StepKeepsInv(s, actions[0]);
      StepExtends(s, actions[0]);
      hide Next, Enabled, Inv, IsAccepted;
      RefusedSendsNothing(Next(s, actions[0]), actions[1..], c);
    }
  }

  /** A client that scanned a path twice sends nothing and never returns normally. */
  lemma RepeatedPathIsNeverUploaded(locate: Locate, actions: seq<Action>, c: nat)
    requires IsRun(Empty(locate), actions) && Crash(c) !in actions
    requires c in Run(Empty(locate), actions).clients && HasRepeats(Run(Empty(locate), actions).clients[c].scanned)
    ensures Send(c) !in actions && !Run(Empty(locate), actions).clients[c].phase.Done?
  {
    var s := Run(Empty(locate), actions);
    RunKeepsInv(Empty(locate), actions);
    StoredNeverChanges(Empty(locate), actions);
    assert ClientOk(s, s.clients[c]);
    RepeatsAreRefused(s.clients[c].scanned, locate);
    RefusedSendsNothing(Empty(locate), actions, c);
  }

  // ---------- exactly when everything is stored ----------

  /** After this run the client has returned normally, having scanned this. */
  ghost predicate EndsDone(locate: Locate, actions: seq<Action>, c: nat, scanned: seq<Artifact>) {
    && IsRun(Empty(locate), actions)
    && var s := Run(Empty(locate), actions);
      c in s.clients && s.clients[c].phase.Done? && s.clients[c].scanned == scanned
  }

  /**
   * A client that returns normally has its release confirmed, and of what it scanned everything is
   * stored under its scanned hash, at the place the server gives it, that no other entry shadows; and so
   * it stays, whatever other clients and late requests did before, in between or afterwards.
   */
  lemma DoneMeansStored(locate: Locate, actions: seq<Action>, c: nat, scanned: seq<Artifact>)
    requires EndsDone(locate, actions, c, scanned)
    ensures var s := Run(Empty(locate), actions);
      && s.clients[c].version in s.releases
      && IsAccepted(scanned, locate) && !HasRepeats(scanned)
      && (forall i: nat | i < |scanned| && !IsShadowed(scanned, i, locate) ::
            IsStored(s, s.clients[c].version, scanned[i]))
      && (HasNoShadows(scanned, locate) ==> AreStored(s, s.clients[c].version, scanned))
  {
    RunKeepsInv(Empty(locate), actions);
    StoredNeverChanges(Empty(locate), actions);
    var s := Run(Empty(locate), actions);
    assert ClientOk(s, s.clients[c]);
    if HasRepeats(scanned) { RepeatsAreRefused(scanned, locate); }
    if HasNoShadows(scanned, locate) {
      forall a | a in scanned ensures IsStored(s, s.clients[c].version, a) {
        var i: nat :| i < |scanned| && scanned[i] == a;
        assert !IsShadowed(scanned, i, locate);
      }
    }
  }

  lemma {:induction false} RunConcat(s: State, a: seq<Action>, b: seq<Action>)
    requires IsRun(s, a) && IsRun(Run(s, a), b)
    ensures IsRun(s, a + b) && Run(s, a + b) == Run(Run(s, a), b)
    decreases a
  {
    hide Next, Enabled;
    if a == [] {
      assert a + b == b;
    } else {
      RunConcat(Next(s, a[0]), a[1..], b);
      assert (a + b)[0] == a[0] && (a + b)[1..] == a[1..] + b;
    }
  }

  lemma RunOne(s: State, a: Action)
    requires Enabled(s, a)
    ensures IsRun(s, [a]) && Run(s, [a]) == Next(s, a)
  {
    hide Next, Enabled;
    assert [a][1..] == [];
  }

  /** Everything stored is of an entry, but not of one. */
  ghost predicate StoredAmong(s: State, version: Text, scanned: seq<Artifact>, but: int) {
    forall p <- StoredIn(s, version) ::
      exists k | 0 <= k < |scanned| && k != but ::
        s.locate(scanned[k].path) == Some(p) && StoredIn(s, version)[p] == scanned[k].hash
  }

  ghost predicate AreAmong(artifacts: seq<Artifact>, scanned: seq<Artifact>, but: int) {
    forall a <- artifacts :: exists k | 0 <= k < |scanned| && k != but :: scanned[k] == a
  }

  /** A client in the middle of its uploads, with nothing in store that is not its own. */
  ghost predicate IsUploadingAlone(s: State, c: nat, next: nat, but: int) {
    && c in s.clients && s.clients[c].phase == Uploading(next) && next <= |s.clients[c].plan.toUpload|
    && IsAccepted(s.clients[c].scanned, s.locate)
    && AreAmong(s.clients[c].plan.toUpload, s.clients[c].scanned, but)
    && StoredAmong(s, s.clients[c].version, s.clients[c].scanned, but)
  }

  /** The request of a client reaches the server, is stored, and is answered. */
  lemma ThreeSteps(s: State, c: nat, next: nat)
    requires c in s.clients && s.clients[c].phase == Uploading(next) && next < |s.clients[c].plan.toUpload|
    requires !IsRefusal(Answer(s, Request(s.clients[c].version, s.clients[c].plan.toUpload[next])))
    ensures Enabled(s, Send(c))
    ensures var s1 := Next(s, Send(c)); Enabled(s1, Handle(c))
    ensures var s2 := Next(Next(s, Send(c)), Handle(c)); Enabled(s2, Receive(c))
    ensures var s3 := Next(Next(Next(s, Send(c)), Handle(c)), Receive(c));
      && s3.stored == Store(s, Request(s.clients[c].version, s.clients[c].plan.toUpload[next])).stored
      && s3.locate == s.locate && c in s3.clients
      && s3.clients[c] == s.clients[c].(phase := Uploading(next + 1))
  {
    hide PlanFor, CheckManifest, StoredIn, VerdictOn;
    var r := Request(s.clients[c].version, s.clients[c].plan.toUpload[next]);
    var s1 := Next(s, Send(c));
    AnswerOfSame(s, s1, r);
    AnswerOfSame(s, InPhase(s1, c, Answered(next, Answer(s1, r))), r);
  }

  lemma AnswerOfSame(s: State, t: State, r: Request)
    requires s.locate == t.locate && s.stored == t.stored
    ensures Answer(s, r) == Answer(t, r) && Store(s, r).stored == Store(t, r).stored
  {
    assert StoredIn(s, r.version) == StoredIn(t, r.version);
  }

  /** One upload goes through. */
  lemma UploadOne(s: State, c: nat, next: nat, but: int)
    requires IsUploadingAlone(s, c, next, but) && next < |s.clients[c].plan.toUpload|
    ensures Enabled(s, Send(c))
    ensures var s1 := Next(s, Send(c)); Enabled(s1, Handle(c))
    ensures var s2 := Next(Next(s, Send(c)), Handle(c)); Enabled(s2, Receive(c))
    ensures var s3 := Next(Next(Next(s, Send(c)), Handle(c)), Receive(c));
      && IsUploadingAlone(s3, c, next + 1, but)
      && s3.locate == s.locate
      && s3.clients[c] == s.clients[c].(phase := Uploading(next + 1))
  {
    hide IsAccepted, Next, Enabled;
    var client := s.clients[c];
    var a := client.plan.toUpload[next];
    assert a in client.plan.toUpload;
    var k :| 0 <= k < |client.scanned| && k != but && client.scanned[k] == a;
    NotRefused(s, client.version, client.scanned, k, but);
    ThreeSteps(s, c, next);
    var s3 := Next(Next(Next(s, Send(c)), Handle(c)), Receive(c));
    assert StoredIn(s3, client.version) == StoredIn(Store(s, Request(client.version, a)), client.version);
  }

  lemma NotRefused(s: State, version: Text, scanned: seq<Artifact>, k: nat, but: int)
    requires IsAccepted(scanned, s.locate) && StoredAmong(s, version, scanned, but) && k < |scanned|
    ensures s.locate(scanned[k].path).Some? && !IsRefusal(Answer(s, Request(version, scanned[k])))
  {
    var p := s.locate(scanned[k].path).value;
    if p in StoredIn(s, version) {
      var l :| 0 <= l < |scanned| && l != but
        && s.locate(scanned[l].path) == Some(p) && StoredIn(s, version)[p] == scanned[l].hash;
      assert l == k;
    }
  }

  lemma FinishKeeps(s: State, c: nat, version: Text, scanned: seq<Artifact>, but: int)
    requires Enabled(s, Finish(c)) && StoredAmong(s, version, scanned, but)
    ensures StoredAmong(Next(s, Finish(c)), version, scanned, but)
  {
    assert StoredIn(Next(s, Finish(c)), version) == StoredIn(s, version);
  }

  lemma {:induction false} UploadRest(s: State, c: nat, next: nat, but: int) returns (actions: seq<Action>)
    requires IsUploadingAlone(s, c, next, but)
    ensures IsRun(s, actions)
    ensures var end, client := Run(s, actions), s.clients[c];
      && c in end.clients && end.clients[c] == client.(phase := Done) && end.locate == s.locate
      && StoredAmong(end, client.version, client.scanned, but)
    decreases |s.clients[c].plan.toUpload| - next
  {
    if next == |s.clients[c].plan.toUpload| {
      actions := [Finish(c)];
      RunOne(s, Finish(c));
      FinishKeeps(s, c, s.clients[c].version, s.clients[c].scanned, but);
    } else {
      UploadOne(s, c, next, but);
      var s1 := Next(s, Send(c));
      var s2 := Next(s1, Handle(c));
      var s3 := Next(s2, Receive(c));
      var rest := UploadRest(s3, c, next + 1, but);
      RunOne(s, Send(c));
      RunOne(s1, Handle(c));
      RunOne(s2, Receive(c));
      RunConcat(s2, [Receive(c)], rest);
      RunConcat(s1, [Handle(c)], [Receive(c)] + rest);
      RunConcat(s, [Send(c)], [Handle(c)] + ([Receive(c)] + rest));
      actions := [Send(c)] + ([Handle(c)] + ([Receive(c)] + rest));
    }
  }

  /** A client that meets no conflict, with nothing in store that is not its own, can run to its end. */
  lemma RunToEnd(s: State, c: nat, version: Text, scanned: seq<Artifact>, but: int) returns (actions: seq<Action>)
    requires c !in s.clients && HasMap(scanned) && IsAccepted(scanned, s.locate)
    requires StoredAmong(s, version, scanned, but)
    requires var plan := PlanFor(scanned, Results(StoredIn(s, version), scanned, s.locate));
      plan.conflicts == [] && AreAmong(plan.toUpload, scanned, but)
    ensures IsRun(s, actions)
    ensures var end := Run(s, actions);
      && c in end.clients && end.clients[c].phase.Done? && end.clients[c].scanned == scanned
      && end.clients[c].version == version && end.locate == s.locate
      && StoredAmong(end, version, scanned, but)
  {
    hide PlanFor, Results, IsAccepted, HasMap;
    var s1 := Next(s, Start(c, version, scanned));
    var s2 := Next(s1, CreateRelease(c, false));
    assert StoredIn(s2, version) == StoredIn(s, version);
    var s3 := Next(s2, Preflight(c));
    assert StoredIn(s3, version) == StoredIn(s, version);
    assert IsUploadingAlone(s3, c, 0, but);
    RunOne(s, Start(c, version, scanned));
    RunOne(s1, CreateRelease(c, false));
    RunOne(s2, Preflight(c));
    var rest := UploadRest(s3, c, 0, but);
    hide Next, Enabled, IsUploadingAlone, StoredAmong, StoredIn;
    RunConcat(s2, [Preflight(c)], rest);
    RunConcat(s1, [CreateRelease(c, false)], [Preflight(c)] + rest);
    RunConcat(s, [Start(c, version, scanned)], [CreateRelease(c, false)] + ([Preflight(c)] + rest));
    actions := [Start(c, version, scanned)] + ([CreateRelease(c, false)] + ([Preflight(c)] + rest));
  }

  lemma {:induction false} AllWithVerdict(scanned: seq<Artifact>, results: seq<PreflightResult>, v: Verdict)
    requires forall a <- scanned :: VerdictFor(results, a.path) == v
    ensures forall u: Verdict :: WithVerdict(scanned, results, u) == if u == v then scanned else []
  {
    if scanned != [] {
      hide VerdictFor;
      var init := scanned[..|scanned| - 1];
      assert scanned == init + [scanned[|scanned| - 1]];
      AllWithVerdict(init, results, v);
    }
  }

  /** What a client plans when nothing is stored: to upload everything. */
  lemma PlanOnEmpty(scanned: seq<Artifact>, locate: Locate)
    requires IsAccepted(scanned, locate)
    ensures PlanFor(scanned, Results(map[], scanned, locate)) == Plan(scanned, [], [])
  {
    var results := Results(map[], scanned, locate);
    hide VerdictFor, WithVerdict, Results;
    forall a | a in scanned ensures VerdictFor(results, a.path) == Upload {
      FoundVerdict(map[], scanned, locate, a.path);
    }
    AllWithVerdict(scanned, results, Upload);
  }

  /** If no verdict a client looks up is a conflict, none is planned; what it uploads, it has scanned. */
  lemma PlanHasNoConflict(stored: Stored, scanned: seq<Artifact>, locate: Locate, but: int)
    requires IsAccepted(scanned, locate)
    requires forall k | 0 <= k < |scanned| :: VerdictFor(Results(stored, scanned, locate), scanned[k].path) != Conflict
    requires 0 <= but < |scanned| ==>
      forall k | 0 <= k < |scanned| && scanned[k] == scanned[but] ::
        VerdictFor(Results(stored, scanned, locate), scanned[k].path) != Upload
    ensures var plan := PlanFor(scanned, Results(stored, scanned, locate));
      plan.conflicts == [] && AreAmong(plan.toUpload, scanned, but)
  {
    hide Results, VerdictFor, WithVerdict;
    var results := Results(stored, scanned, locate);
    var conflicts, uploads := WithVerdict(scanned, results, Conflict), WithVerdict(scanned, results, Upload);
    if conflicts != [] {
      assert conflicts[0] in conflicts;
      WithVerdictContains(scanned, results, Conflict, conflicts[0]);
    }
    forall a | a in uploads ensures exists k | 0 <= k < |scanned| && k != but :: scanned[k] == a {
      WithVerdictContains(scanned, results, Upload, a);
      var k :| 0 <= k < |scanned| && scanned[k] == a;
      assert k != but;
    }
  }

  /** One of several entries moved to the front. */
  function Foremost(scanned: seq<Artifact>, j: nat): seq<Artifact>
    requires j < |scanned|
  {
    [scanned[j]] + scanned[..j] + scanned[j + 1..]
  }

  lemma ForemostIsAccepted(scanned: seq<Artifact>, j: nat, locate: Locate)
    requires IsAccepted(scanned, locate) && j < |scanned|
    ensures IsAccepted(Foremost(scanned, j), locate)
    ensures HasMap(scanned) ==> HasMap(Foremost(scanned, j))
  {
    var moved := Foremost(scanned, j);
    forall k | 0 <= k < |moved|
      ensures moved[k] == scanned[if k == 0 then j else if k <= j then k - 1 else k]
    {}
    if HasMap(scanned) {
      var k :| 0 <= k < |scanned| && scanned[k].kind == SourceMap;
      assert moved[if k == j then 0 else if k < j then k + 1 else k].kind == SourceMap;
    }
  }

  /** With nothing stored, a client sends the first of its entries, and dies as soon as that is stored. */
  lemma FirstRun(locate: Locate, version: Text, scanned: seq<Artifact>) returns (actions: seq<Action>)
    requires HasMap(scanned) && IsAccepted(scanned, locate)
    ensures IsRun(Empty(locate), actions)
    ensures var s := Run(Empty(locate), actions);
      && s.locate == locate && s.clients == map[]
      && StoredIn(s, version) == map[locate(scanned[0].path).value := scanned[0].hash]
  {
    hide PlanFor, Results, IsAccepted;
    PlanOnEmpty(scanned, locate);
    var s0 := Empty(locate);
    var s1 := Next(s0, Start(0, version, scanned));
    var s2 := Next(s1, CreateRelease(0, false));
    assert StoredIn(s2, version) == map[];
    var s3 := Next(s2, Preflight(0));
    var s4 := Next(s3, Send(0));
    assert locate(scanned[0].path).Some? by { PlaceOfFirst(scanned, locate); }
    assert StoredIn(s4, version) == map[];
    var s5 := Next(s4, Handle(0));
    RunOne(s0, Start(0, version, scanned));
    RunOne(s1, CreateRelease(0, false));
    RunOne(s2, Preflight(0));
    RunOne(s3, Send(0));
    RunOne(s4, Handle(0));
    RunOne(s5, Crash(0));
    RunConcat(s4, [Handle(0)], [Crash(0)]);
    RunConcat(s3, [Send(0)], [Handle(0)] + [Crash(0)]);
    RunConcat(s2, [Preflight(0)], [Send(0)] + ([Handle(0)] + [Crash(0)]));
    RunConcat(s1, [CreateRelease(0, false)], [Preflight(0)] + ([Send(0)] + ([Handle(0)] + [Crash(0)])));
    actions := [CreateRelease(0, false)] + ([Preflight(0)] + ([Send(0)] + ([Handle(0)] + [Crash(0)])));
    RunConcat(s0, [Start(0, version, scanned)], actions);
    actions := [Start(0, version, scanned)] + actions;
  }

  lemma PlaceOfFirst(scanned: seq<Artifact>, locate: Locate)
    requires IsAccepted(scanned, locate) && scanned != []
    ensures locate(scanned[0].path).Some?
  {}

  /** The verdicts when the path of one entry is taken by another that shadows it. */
  lemma ShadowedPlan(scanned: seq<Artifact>, locate: Locate, i: nat, j: nat)
    requires IsAccepted(scanned, locate) && i < |scanned| && j < |scanned| && i != j
    requires locate(scanned[j].path) == Some(scanned[i].path)
    ensures var plan := PlanFor(scanned, Results(map[scanned[i].path := scanned[j].hash], scanned, locate));
      plan.conflicts == [] && AreAmong(plan.toUpload, scanned, i)
  {
    var stored := map[scanned[i].path := scanned[j].hash];
    hide Results;
    forall k | 0 <= k < |scanned|
      ensures VerdictFor(Results(stored, scanned, locate), scanned[k].path) ==
        if scanned[k].path == scanned[i].path then Exists else Upload
    {
      FoundVerdict(stored, scanned, locate, scanned[k].path);
      assert forall l | 0 <= l < |scanned| && l != j :: locate(scanned[l].path) != locate(scanned[j].path);
    }
    PlanHasNoConflict(stored, scanned, locate, i);
  }

  /**
   * A run to the normal end that leaves a shadowed entry out: from any state in which the entry that
   * shadows it is stored, and nothing else.
   */
  lemma ShadowedRun(s: State, c: nat, version: Text, scanned: seq<Artifact>, i: nat, j: nat)
    returns (actions: seq<Action>)
    requires c !in s.clients && HasMap(scanned) && IsAccepted(scanned, s.locate)
    requires i < |scanned| && j < |scanned| && i != j && s.locate(scanned[j].path) == Some(scanned[i].path)
    requires StoredIn(s, version) == map[scanned[i].path := scanned[j].hash]
    ensures IsRun(s, actions)
    ensures var end := Run(s, actions);
      && c in end.clients && end.clients[c].phase.Done? && end.clients[c].scanned == scanned
      && end.clients[c].version == version
      && !IsStored(end, version, scanned[i])
  {
    ShadowedPlan(scanned, s.locate, i, j);
    actions := RunToEnd(s, c, version, scanned, i);
  }

  /** In every run that returns normally after scanning this, everything is stored. */
  ghost predicate AlwaysStoresAll(locate: Locate, scanned: seq<Artifact>) {
    forall actions, c | EndsDone(locate, actions, c, scanned) ::
      var s := Run(Empty(locate), actions); AreStored(s, s.clients[c].version, scanned)
  }

  /**
   * Exactly which accepted manifests are safe: a normal return always means that everything scanned is
   * stored if and only if no entry's path is the place of another.
   */
  lemma AlwaysStoresAllIff(locate: Locate, scanned: seq<Artifact>)
    requires HasMap(scanned) && IsAccepted(scanned, locate)
    ensures AlwaysStoresAll(locate, scanned) <==> HasNoShadows(scanned, locate)
  {
    if HasNoShadows(scanned, locate) {
      forall actions, c | EndsDone(locate, actions, c, scanned)
        ensures var s := Run(Empty(locate), actions); AreStored(s, s.clients[c].version, scanned)
      {
        DoneMeansStored(locate, actions, c, scanned);
      }
    } else {
      var i: nat :| i < |scanned| && IsShadowed(scanned, i, locate);
      var j :| 0 <= j < |scanned| && j != i && locate(scanned[j].path) == Some(scanned[i].path);
      var actions := ShadowedFromStart(locate, scanned, i, j);
      var s := Run(Empty(locate), actions);
      assert scanned[i] in scanned;
      assert EndsDone(locate, actions, 1, scanned);
    }
  }

  lemma ShadowedFromStart(locate: Locate, scanned: seq<Artifact>, i: nat, j: nat) returns (actions: seq<Action>)
    requires HasMap(scanned) && IsAccepted(scanned, locate)
    requires i < |scanned| && j < |scanned| && i != j && locate(scanned[j].path) == Some(scanned[i].path)
    ensures EndsDone(locate, actions, 1, scanned)
    ensures var s := Run(Empty(locate), actions); !IsStored(s, s.clients[1].version, scanned[i])
  {
    hide IsAccepted, HasMap, StoredIn;
    ForemostIsAccepted(scanned, j, locate);
    var first := FirstRun(locate, [], Foremost(scanned, j));
    var second := ShadowedRun(Run(Empty(locate), first), 1, [], scanned, i, j);
    RunConcat(Empty(locate), first, second);
    actions := first + second;
  }

  /**
   * Scanned as `%61.map` and `%25252561.map`, which are the names `%25252561.map` and
   * `%25252525252561.map` decoded three rounds: the server puts the second at `%61.map`, and once it is
   * stored the client takes the first for stored too.
   */
  lemma ShadowedExample(upper: Text -> Text, hash: Text, other: Text)
    requires ArtifactPaths.UppersAscii(upper)
    ensures var locate := Canonical(ArtifactPaths.DeviceName(upper));
      var scanned := [
        Artifact(ArtifactPaths.ENCODED_A, SourceMap, hash), Artifact(ArtifactPaths.LAYERED, SourceMap, other)];
      IsAccepted(scanned, locate) && !HasRepeats(scanned) && !AlwaysStoresAll(locate, scanned)
  {
    hide ArtifactPaths.Canonicalize, ArtifactPaths.DeviceName, AlwaysStoresAll;
    var locate := Canonical(ArtifactPaths.DeviceName(upper));
    var scanned := [
      Artifact(ArtifactPaths.ENCODED_A, SourceMap, hash), Artifact(ArtifactPaths.LAYERED, SourceMap, other)];
    ArtifactPaths.UnsettledExample(upper);
    assert |ArtifactPaths.A_MAP| == 5 && |ArtifactPaths.ENCODED_A| == 7 && |ArtifactPaths.LAYERED| == 13;
    assert locate(scanned[0].path) == Some(ArtifactPaths.A_MAP);
    assert locate(scanned[1].path) == Some(scanned[0].path);
    assert scanned[0] in scanned;
    assert IsShadowed(scanned, 0, locate);
    AlwaysStoresAllIff(locate, scanned);
  }

  // ---------- where stored artifacts come from ----------

  function RequestOf(client: Client): Request
    requires client.phase.Uploading? || client.phase.Sent?
    requires client.phase.next < |client.plan.toUpload|
  {
    Request(client.version, client.plan.toUpload[client.phase.next])
  }

  function SentIn(s: State, a: Action): set<Request>
    requires Enabled(s, a)
  {
    if a.Send? then {RequestOf(s.clients[a.c])} else {}
  }

  /** Every request that was ever sent in a run. */
  ghost function SentBy(s: State, actions: seq<Action>): set<Request>
    requires IsRun(s, actions)
    decreases actions
  {
    if actions == [] then {} else SentIn(s, actions[0]) + SentBy(Next(s, actions[0]), actions[1..])
  }

  ghost predicate IsSent(locate: Locate, sent: set<Request>, version: Text, path: Text, hash: Text) {
    exists r <- sent :: r.version == version && locate(r.artifact.path) == Some(path) && r.artifact.hash == hash
  }

  ghost predicate StoredFrom(s: State, sent: set<Request>) {
    forall v, p | p in StoredIn(s, v) :: IsSent(s.locate, sent, v, p, StoredIn(s, v)[p])
  }

  ghost predicate RequestsFrom(s: State, sent: set<Request>) {
    && (forall r <- s.late :: r in sent)
    && (forall c <- s.clients | s.clients[c].phase.Sent? && s.clients[c].phase.next < |s.clients[c].plan.toUpload| ::
          RequestOf(s.clients[c]) in sent)
  }

  ghost predicate ComesFrom(s: State, sent: set<Request>) { StoredFrom(s, sent) && RequestsFrom(s, sent) }

  lemma StoreFrom(s: State, r: Request, sent: set<Request>)
    requires StoredFrom(s, sent) && r in sent
    ensures StoredFrom(Store(s, r), sent)
  {
    forall v, p | p in StoredIn(Store(s, r), v) ensures IsSent(s.locate, sent, v, p, StoredIn(Store(s, r), v)[p]) {
      assert p in StoredIn(s, v) || (v == r.version && s.locate(r.artifact.path) == Some(p));
      if p in StoredIn(s, v) { assert IsSent(s.locate, sent, v, p, StoredIn(s, v)[p]); }
    }
  }

  lemma StoredFromSame(s: State, t: State, sent: set<Request>, more: set<Request>)
    requires StoredFrom(s, sent) && s.locate == t.locate && s.stored == t.stored && sent <= more
    ensures StoredFrom(t, more)
  {
    forall v, p | p in StoredIn(t, v) ensures IsSent(s.locate, more, v, p, StoredIn(t, v)[p]) {
      assert StoredIn(t, v) == StoredIn(s, v);
      assert IsSent(s.locate, sent, v, p, StoredIn(s, v)[p]);
    }
  }

  lemma StepStoredFrom(s: State, a: Action, sent: set<Request>)
    requires Enabled(s, a) && ComesFrom(s, sent)
    ensures StoredFrom(Next(s, a), sent)
  {
    hide PlanFor, CheckManifest, StoredFrom, Answer, StoredIn;
    if a.Handle? {
      var client := s.clients[a.c];
      var t := InPhase(s, a.c, Answered(client.phase.next, Answer(s, RequestOf(client))));
      StoredFromSame(s, t, sent, sent);
      StoreFrom(t, RequestOf(client), sent);
    } else if a.HandleLate? {
      StoreFrom(s, a.request, sent);
      StoredFromSame(Store(s, a.request), Next(s, a), sent, sent);
    } else {
      StoredFromSame(s, Next(s, a), sent, sent);
    }
  }

  /** A request is outstanding only after it was sent, and late only after it was outstanding. */
  lemma NewlySent(s: State, a: Action, c: nat)
    requires Enabled(s, a) && ActsFor(a, c) && c in Next(s, a).clients && Next(s, a).clients[c].phase.Sent?
    ensures a == Send(c) && Next(s, a).clients[c].phase.next < |Next(s, a).clients[c].plan.toUpload|
    ensures SentIn(s, a) == {RequestOf(Next(s, a).clients[c])}
  {
    hide PlanFor, CheckManifest, Answer, StoredIn, Outstanding;
  }

  lemma NewlyLate(s: State, a: Action, r: Request)
    requires Enabled(s, a) && r in Next(s, a).late && r !in s.late
    ensures !a.HandleLate? && a.c in s.clients && r in Outstanding(s.clients[a.c])
  {
    hide PlanFor, CheckManifest, Answer, StoredIn, Outstanding;
  }

  lemma StepRequestsFrom(s: State, a: Action, sent: set<Request>)
    requires Enabled(s, a) && RequestsFrom(s, sent)
    ensures RequestsFrom(Next(s, a), sent + SentIn(s, a))
  {
    hide Next, Enabled, SentIn;
    var s' := Next(s, a);
    forall r | r in s'.late ensures r in sent {
      if r !in s.late { NewlyLate(s, a, r); }
    }
    forall c | c in s'.clients && s'.clients[c].phase.Sent? && s'.clients[c].phase.next < |s'.clients[c].plan.toUpload|
      ensures RequestOf(s'.clients[c]) in sent + SentIn(s, a)
    {
      if ActsFor(a, c) {
        NewlySent(s, a, c);
      } else {
        OthersKept(s, a, c);
      }
    }
  }

  lemma StepComesFrom(s: State, a: Action, sent: set<Request>)
    requires Enabled(s, a) && ComesFrom(s, sent)
    ensures ComesFrom(Next(s, a), sent + SentIn(s, a))
  {
    hide Next, Enabled, StoredFrom, RequestsFrom;
    StepStoredFrom(s, a, sent);
    StoredFromSame(Next(s, a), Next(s, a), sent, sent + SentIn(s, a));
    StepRequestsFrom(s, a, sent);
  }

  /** Nothing is ever in store that no client has sent. */
  lemma {:induction false} StoredComesFrom(s: State, actions: seq<Action>, sent: set<Request>)
    requires IsRun(s, actions) && ComesFrom(s, sent)
    ensures ComesFrom(Run(s, actions), sent + SentBy(s, actions))
    decreases actions
  {
    if actions == [] {
      assert sent + SentBy(s, actions) == sent;
    } else {
      var a := actions[0];
      StepComesFrom(s, a, sent);
      hide Next, Enabled, ComesFrom, SentIn;
      StoredComesFrom(Next(s, a), actions[1..], sent + SentIn(s, a));
      assert sent + SentIn(s, a) + SentBy(Next(s, a), actions[1..]) == sent + SentBy(s, actions);
    }
  }

  /** Past a preflight without conflicts, or failed. */
  predicate IsPastPreflight(s: State, c: nat) {
    && c in s.clients
    && var phase := s.clients[c].phase;
       phase.Uploading? || phase.Sent? || phase.Answered? || phase.Done? || phase.Failed?
  }

  lemma StepStaysPastPreflight(s: State, a: Action, c: nat)
    requires Enabled(s, a) && IsPastPreflight(s, c) && a != Crash(c)
    ensures IsPastPreflight(Next(s, a), c)
  {
    hide PlanFor, CheckManifest, Answer, StoredIn, Outstanding;
  }

  lemma {:induction false} RunStaysPastPreflight(s: State, actions: seq<Action>, c: nat)
    requires IsRun(s, actions) && IsPastPreflight(s, c) && Crash(c) !in actions
    ensures IsPastPreflight(Run(s, actions), c)
    decreases actions
  {
    if actions != [] {
      hide Next, Enabled;
      StepStaysPastPreflight(s, actions[0], c);
      RunStaysPastPreflight(Next(s, actions[0]), actions[1..], c);
    }
  }

  /** A client that aborts because of conflicts has sent no artifact in its whole run. */
  lemma {:induction false} AbortedSentNothing(s: State, actions: seq<Action>, c: nat)
    requires IsRun(s, actions) && Crash(c) !in actions
    requires c in Run(s, actions).clients && Run(s, actions).clients[c].phase.Aborted?
    ensures Send(c) !in actions
    decreases actions
  {
    if actions != [] {
      if actions[0] == Send(c) {
        RunStaysPastPreflight(Next(s, actions[0]), actions[1..], c);
      }
      AbortedSentNothing(Next(s, actions[0]), actions[1..], c);
    }
  }
}
