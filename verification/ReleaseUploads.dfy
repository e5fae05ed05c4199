/**
 * Uploads to releases as the server carries them out (`finalizeArtifactUpload` and `resolveInsertRace`
 * of apps/api/src/services/artifacts.ts), many at a time, on a record store with one record for each
 * path of a release and on the artifact store, taken as the map it refines. The storage key is made of
 * the release and the digest of the content; the path is not in it.
 */
module ReleaseUploads {
  import opened Wrappers
  import opened JsText
  import opened StorageKeys
  import Store = ArtifactStore

  type Bytes = seq<Byte>

  /** What one request uploads: where to, canonical path included, and the bytes. */
  datatype Upload = Upload(projectId: Text, releaseId: Text, path: Text, content: Bytes)

  /** All the requests, by number, and the digest. */
  datatype Job = Job(uploads: map<nat, Upload>, digest: Bytes -> Text)

  datatype Place = Place(releaseId: Text, path: Text)

  datatype Record = Record(key: Text, contentHash: Text)

  datatype Phase = Ready | Unrecorded | Written | Clashed | Removing | Done | Failed

  /** How far each request has got; the records; and the stored files. */
  datatype State = State(phases: map<nat, Phase>, records: map<Place, Record>, files: Store.Spec)

  datatype Action =
    // Looks for a record of the path.
    | Find(c: nat)
    // Puts the file, or the store fails.
    | PutFile(c: nat, ok: bool)
    // Inserts the record; `fails` for another reason than that there is one.
    | Insert(c: nat, fails: bool)
    // After a lost race, looks at the record that won.
    | FindWinner(c: nat)
    // Compensates: deletes the file, or that fails too.
    | Remove(c: nat, ok: bool)
    | Crash(c: nat)

  function PlaceOf(j: Job, c: nat): Place
    requires c in j.uploads
  {
    Place(j.uploads[c].releaseId, j.uploads[c].path)
  }

  function HashOf(j: Job, c: nat): Text
    requires c in j.uploads
  {
    j.digest(j.uploads[c].content)
  }

  function PartsOf(j: Job, c: nat): Parts
    requires c in j.uploads
  {
    Parts(j.uploads[c].projectId, j.uploads[c].releaseId, HashOf(j, c))
  }

  /** `buildArtifactStorageKey`. */
  function KeyOf(j: Job, c: nat): Text
    requires c in j.uploads
  {
    match Build(PartsOf(j, c))
    case Ok(key) => key
    case Err(_) => []
  }

  /** Ids are UUIDs and digests are SHA-256 in hex; a release is of one project. */
  ghost predicate IsWellFormed(j: Job) {
    && (forall c <- j.uploads :: ArePartsValid(PartsOf(j, c)))
    && (forall c, d | c in j.uploads && d in j.uploads && j.uploads[c].releaseId == j.uploads[d].releaseId ::
          j.uploads[c].projectId == j.uploads[d].projectId)
  }

  predicate InPhase(j: Job, s: State, c: nat, phase: Phase) {
    c in j.uploads && c in s.phases && s.phases[c] == phase
  }

  predicate Enabled(j: Job, s: State, a: Action) {
    match a
    case Find(c) => InPhase(j, s, c, Ready)
    case PutFile(c, _) => InPhase(j, s, c, Unrecorded)
    case Insert(c, _) => InPhase(j, s, c, Written)
    case FindWinner(c) => InPhase(j, s, c, Clashed) && PlaceOf(j, c) in s.records
    case Remove(c, _) => InPhase(j, s, c, Removing)
    case Crash(c) => c in j.uploads && c in s.phases && s.phases[c] != Done
  }

  function To(s: State, c: nat, phase: Phase): State { s.(phases := s.phases[c := phase]) }

  /** A record of the same content is as good as one's own; one of other content is a conflict. */
  function Met(j: Job, s: State, c: nat, conflict: Phase): State
    requires c in j.uploads && PlaceOf(j, c) in s.records
  {
    To(s, c, if s.records[PlaceOf(j, c)].contentHash == HashOf(j, c) then Done else conflict)
  }

  function Next(j: Job, s: State, a: Action): State
    requires Enabled(j, s, a)
  {
    match a
    case Find(c) => if PlaceOf(j, c) in s.records then Met(j, s, c, Failed) else To(s, c, Unrecorded)
    case PutFile(c, ok) =>
      if ok
      then To(s, c, Written).(files := Store.SpecStep(s.files, Store.SpecPut(KeyOf(j, c), j.uploads[c].content)))
      else To(s, c, Failed)
    case Insert(c, fails) =>
      if fails then To(s, c, Removing)
      else if PlaceOf(j, c) in s.records then To(s, c, Clashed)
      else To(s, c, Done).(records := s.records[PlaceOf(j, c) := Record(KeyOf(j, c), HashOf(j, c))])
    case FindWinner(c) => Met(j, s, c, Removing)
    case Remove(c, ok) =>
      if ok then To(s, c, Failed).(files := Store.SpecStep(s.files, Store.SpecDelete(KeyOf(j, c))))
      else To(s, c, Failed)
    case Crash(c) => To(s, c, Failed)
  }

  /** Every record names a stored file of the content it promises. */
  ghost predicate RecordsHold(j: Job, s: State) {
    forall p <- s.records ::
      s.records[p].key in s.files && j.digest(s.files[s.records[p].key]) == s.records[p].contentHash
  }

  function Start(j: Job): State { State(map c | c in j.uploads :: Ready, map[], map[]) }

  ghost predicate IsRun(j: Job, s: State, actions: seq<Action>)
    decreases actions
  {
    actions != [] ==> Enabled(j, s, actions[0]) && IsRun(j, Next(j, s, actions[0]), actions[1..])
  }

  ghost function Run(j: Job, s: State, actions: seq<Action>): State
    requires IsRun(j, s, actions)
    decreases actions
  {
    if actions == [] then s else Run(j, Next(j, s, actions[0]), actions[1..])
  }

  /** Keys are equal exactly for equal releases and digests. */
  lemma SameKeyIff(j: Job, c: nat, d: nat)
    requires IsWellFormed(j) && c in j.uploads && d in j.uploads
    ensures KeyOf(j, c) == KeyOf(j, d) <==>
      j.uploads[c].releaseId == j.uploads[d].releaseId && HashOf(j, c) == HashOf(j, d)
  {
    hide ArePartsValid, Parse, Build;
    ParseBuild(PartsOf(j, c));
    ParseBuild(PartsOf(j, d));
  }

  // ---------- which removals can hurt ----------

  /** A request can come to delete its file: if inserts may fail, or if another has the place with other content. */
  ghost predicate CanRemove(j: Job, d: nat, failing: bool)
    requires d in j.uploads
  {
    failing || exists e <- j.uploads :: PlaceOf(j, e) == PlaceOf(j, d) && HashOf(j, e) != HashOf(j, d)
  }

  /** One request can delete the file that the record of another names. */
  ghost predicate IsInDanger(j: Job, c: nat, d: nat, failing: bool)
    requires c in j.uploads && d in j.uploads
  {
    && c != d && KeyOf(j, c) == KeyOf(j, d) && CanRemove(j, d, failing)
    && (failing || PlaceOf(j, c) != PlaceOf(j, d))
  }

  ghost predicate IsSafe(j: Job, failing: bool) {
    forall c, d | c in j.uploads && d in j.uploads :: !IsInDanger(j, c, d, failing)
  }

  /** The insert of a request has made this record. */
  ghost predicate IsRecordOf(j: Job, s: State, c: nat, p: Place) {
    InPhase(j, s, c, Done) && PlaceOf(j, c) == p && p in s.records && s.records[p] == Record(KeyOf(j, c), HashOf(j, c))
  }

  ghost predicate IsStored(j: Job, s: State, c: nat)
    requires c in j.uploads
  {
    KeyOf(j, c) in s.files && j.digest(s.files[KeyOf(j, c)]) == HashOf(j, c)
  }

  ghost predicate Inv(j: Job, s: State, failing: bool) {
    && s.phases.Keys == j.uploads.Keys
    && (forall p <- s.records :: exists c <- j.uploads :: IsRecordOf(j, s, c, p) && IsStored(j, s, c))
    && (forall c <- j.uploads | s.phases[c] == Written :: IsStored(j, s, c) || (!failing && PlaceOf(j, c) in s.records))
    && (forall c <- j.uploads | s.phases[c] == Removing ::
          failing || (PlaceOf(j, c) in s.records && s.records[PlaceOf(j, c)].contentHash != HashOf(j, c)))
  }

  predicate MayHappen(a: Action, failing: bool) { a.Insert? && a.fails ==> failing }

  lemma StartOk(j: Job, failing: bool)
    ensures Inv(j, Start(j), failing)
  {}

  lemma InvHolds(j: Job, s: State, failing: bool)
    requires Inv(j, s, failing)
    ensures RecordsHold(j, s)
  {
    hide KeyOf;
    forall p | p in s.records
      ensures s.records[p].key in s.files && j.digest(s.files[s.records[p].key]) == s.records[p].contentHash
    {
      var c :| c in j.uploads && IsRecordOf(j, s, c, p) && IsStored(j, s, c);
    }
  }

  /** A request that is removing can remove, and is not the one that made any record. */
  lemma RemovingCan(j: Job, s: State, d: nat, failing: bool)
    requires Inv(j, s, failing) && InPhase(j, s, d, Removing)
    ensures CanRemove(j, d, failing)
  {
    hide KeyOf;
    if !failing {
      var p := PlaceOf(j, d);
      var e :| e in j.uploads && IsRecordOf(j, s, e, p) && IsStored(j, s, e);
    }
  }

  /** What is stored for one request stays, unless its file is deleted. */
  lemma StoredStays(j: Job, s: State, a: Action, c: nat)
    requires IsWellFormed(j) && Enabled(j, s, a) && c in j.uploads && IsStored(j, s, c)
    requires a.Remove? && a.ok ==> KeyOf(j, a.c) != KeyOf(j, c)
    ensures IsStored(j, Next(j, s, a), c)
  {
    if a.PutFile? { SameKeyIff(j, a.c, c); }
    hide KeyOf, IsWellFormed;
  }

  lemma RecordStays(j: Job, s: State, a: Action, c: nat, p: Place)
    requires Enabled(j, s, a) && IsRecordOf(j, s, c, p)
    ensures IsRecordOf(j, Next(j, s, a), c, p)
  {
    hide KeyOf;
  }

  /** A removal spares what a record names. */
  lemma RemovalSparesRecord(j: Job, s: State, d: nat, c: nat, p: Place, failing: bool)
    requires IsWellFormed(j) && IsSafe(j, failing) && Inv(j, s, failing)
    requires InPhase(j, s, d, Removing) && c in j.uploads && IsRecordOf(j, s, c, p)
    ensures KeyOf(j, d) != KeyOf(j, c)
  {
    hide KeyOf, IsWellFormed;
    RemovingCan(j, s, d, failing);
    SameKeyIff(j, c, d);
    assert !IsInDanger(j, c, d, failing);
  }

  /** A removal spares what is about to be recorded, or the place is taken. */
  lemma RemovalSparesWritten(j: Job, s: State, d: nat, c: nat, failing: bool)
    requires IsWellFormed(j) && IsSafe(j, failing) && Inv(j, s, failing)
    requires InPhase(j, s, d, Removing) && InPhase(j, s, c, Written)
    ensures KeyOf(j, d) != KeyOf(j, c) || (!failing && PlaceOf(j, c) in s.records)
  {
    hide KeyOf, IsWellFormed;
    RemovingCan(j, s, d, failing);
    assert !IsInDanger(j, c, d, failing);
  }

  lemma RecordsAfter(j: Job, s: State, a: Action, p: Place, failing: bool) returns (c: nat)
    requires IsWellFormed(j) && IsSafe(j, failing) && Inv(j, s, failing) && Enabled(j, s, a)
    requires p in Next(j, s, a).records
    ensures c in j.uploads && IsRecordOf(j, Next(j, s, a), c, p) && IsStored(j, Next(j, s, a), c)
  {
    hide KeyOf, IsWellFormed, IsSafe;
    if p in s.records {
      c :| c in j.uploads && IsRecordOf(j, s, c, p) && IsStored(j, s, c);
      if a.Remove? { RemovalSparesRecord(j, s, a.c, c, p, failing); }
      RecordStays(j, s, a, c, p);
      StoredStays(j, s, a, c);
    } else {
      c := a.c;
    }
  }

  lemma WrittenAfter(j: Job, s: State, a: Action, c: nat, failing: bool)
    requires IsWellFormed(j) && IsSafe(j, failing) && Inv(j, s, failing) && Enabled(j, s, a)
    requires c in j.uploads && InPhase(j, Next(j, s, a), c, Written)
    ensures IsStored(j, Next(j, s, a), c) || (!failing && PlaceOf(j, c) in Next(j, s, a).records)
  {
    hide KeyOf, IsWellFormed, IsSafe;
    if InPhase(j, s, c, Written) {
      if IsStored(j, s, c) {
        if a.Remove? { RemovalSparesWritten(j, s, a.c, c, failing); }
        if !(a.Remove? && a.ok && KeyOf(j, a.c) == KeyOf(j, c)) { StoredStays(j, s, a, c); }
      }
    }
  }

  lemma RemovingAfter(j: Job, s: State, a: Action, c: nat, failing: bool)
    requires Inv(j, s, failing) && Enabled(j, s, a) && MayHappen(a, failing)
    requires c in j.uploads && InPhase(j, Next(j, s, a), c, Removing)
    ensures var s' := Next(j, s, a);
      failing || (PlaceOf(j, c) in s'.records && s'.records[PlaceOf(j, c)].contentHash != HashOf(j, c))
  {
    hide KeyOf, IsRecordOf, IsStored, Store.SpecStep;
  }

  lemma PhasesKept(j: Job, s: State, a: Action)
    requires Enabled(j, s, a) && s.phases.Keys == j.uploads.Keys
    ensures Next(j, s, a).phases.Keys == j.uploads.Keys
  {
    hide KeyOf;
  }

  lemma StepKeepsInv(j: Job, s: State, a: Action, failing: bool)
    requires IsWellFormed(j) && IsSafe(j, failing) && Inv(j, s, failing)
    requires Enabled(j, s, a) && MayHappen(a, failing)
    ensures Inv(j, Next(j, s, a), failing)
  {
    hide Next, Enabled, KeyOf, IsWellFormed, IsSafe, IsStored, IsRecordOf, MayHappen;
    var s' := Next(j, s, a);
    PhasesKept(j, s, a);
    forall p | p in s'.records ensures exists c <- j.uploads :: IsRecordOf(j, s', c, p) && IsStored(j, s', c) {
      var c := RecordsAfter(j, s, a, p, failing);
    }
    forall c | c in j.uploads && s'.phases[c] == Written
      ensures IsStored(j, s', c) || (!failing && PlaceOf(j, c) in s'.records)
    {
      WrittenAfter(j, s, a, c, failing);
    }
    forall c | c in j.uploads && s'.phases[c] == Removing
      ensures failing || (PlaceOf(j, c) in s'.records && s'.records[PlaceOf(j, c)].contentHash != HashOf(j, c))
    {
      RemovingAfter(j, s, a, c, failing);
    }
  }

  /** A run in which inserts fail only for a record that is there, unless `failing`. */
  ghost predicate IsRunOf(j: Job, s: State, actions: seq<Action>, failing: bool) {
    IsRun(j, s, actions) && forall a <- actions :: MayHappen(a, failing)
  }

  lemma {:induction false} RunKeepsInv(j: Job, s: State, actions: seq<Action>, failing: bool)
    requires IsWellFormed(j) && IsSafe(j, failing) && Inv(j, s, failing) && IsRunOf(j, s, actions, failing)
    ensures Inv(j, Run(j, s, actions), failing)
    decreases actions
  {
    if actions != [] {
      hide Next, Enabled, Inv, IsSafe, IsWellFormed, MayHappen;
      assert actions[0] in actions;
      StepKeepsInv(j, s, actions[0], failing);
      RunKeepsInv(j, Next(j, s, actions[0]), actions[1..], failing);
    }
  }

  // ---------- the runs that go wrong ----------

  lemma {:induction false} RunMore(j: Job, s: State, actions: seq<Action>, a: Action)
    requires IsRun(j, s, actions) && Enabled(j, Run(j, s, actions), a)
    ensures IsRun(j, s, actions + [a]) && Run(j, s, actions + [a]) == Next(j, Run(j, s, actions), a)
    decreases actions
  {
    hide Next, Enabled;
    if actions == [] {
      assert actions + [a] == [a] && [a][1..] == [];
    } else {
      RunMore(j, Next(j, s, actions[0]), actions[1..], a);
      assert (actions + [a])[1..] == actions[1..] + [a];
    }
  }

  /** Nothing recorded yet: a request looks, finds nothing and puts its file. */
  lemma Writes(j: Job, actions: seq<Action>, c: nat, failing: bool) returns (longer: seq<Action>)
    requires IsRunOf(j, Start(j), actions, failing)
    requires var s := Run(j, Start(j), actions); InPhase(j, s, c, Ready) && s.records == map[]
    ensures IsRunOf(j, Start(j), longer, failing)
    ensures var s, t := Run(j, Start(j), actions), Run(j, Start(j), longer);
      t.records == map[] && t.phases == s.phases[c := Written] && KeyOf(j, c) in t.files
  {
    hide KeyOf;
    var s := Run(j, Start(j), actions);
    RunMore(j, Start(j), actions, Find(c));
    RunMore(j, Start(j), actions + [Find(c)], PutFile(c, true));
    longer := actions + [Find(c)] + [PutFile(c, true)];
  }

  /** A request records its file. */
  lemma Records(j: Job, actions: seq<Action>, c: nat, failing: bool) returns (longer: seq<Action>)
    requires IsRunOf(j, Start(j), actions, failing)
    requires var s := Run(j, Start(j), actions); InPhase(j, s, c, Written) && PlaceOf(j, c) !in s.records
    ensures IsRunOf(j, Start(j), longer, failing)
    ensures var s, t := Run(j, Start(j), actions), Run(j, Start(j), longer);
      && t.records == s.records[PlaceOf(j, c) := Record(KeyOf(j, c), HashOf(j, c))]
      && t.phases == s.phases[c := Done] && t.files == s.files
  {
    hide KeyOf;
    RunMore(j, Start(j), actions, Insert(c, false));
    longer := actions + [Insert(c, false)];
  }

  /** The request compensates, and a record is left whose file is gone. */
  lemma Removes(j: Job, actions: seq<Action>, d: nat, p: Place, failing: bool) returns (longer: seq<Action>)
    requires IsRunOf(j, Start(j), actions, failing)
    requires var s := Run(j, Start(j), actions);
      InPhase(j, s, d, Removing) && p in s.records && s.records[p].key == KeyOf(j, d)
    ensures IsRunOf(j, Start(j), longer, failing) && !RecordsHold(j, Run(j, Start(j), longer))
  {
    hide KeyOf;
    RunMore(j, Start(j), actions, Remove(d, true));
    longer := actions + [Remove(d, true)];
    var t := Run(j, Start(j), longer);
    assert p in t.records && t.records[p].key !in t.files;
  }

  lemma NothingHappened(j: Job, failing: bool)
    ensures IsRunOf(j, Start(j), [], failing) && Run(j, Start(j), []) == Start(j)
  {}

  /** An insert fails after another request has recorded the same file. */
  lemma FailedInsertRun(j: Job, c: nat, d: nat) returns (actions: seq<Action>)
    requires c in j.uploads && d in j.uploads && c != d && KeyOf(j, c) == KeyOf(j, d)
    ensures IsRunOf(j, Start(j), actions, true) && !RecordsHold(j, Run(j, Start(j), actions))
  {
    hide KeyOf, Run, IsRun;
    NothingHappened(j, true);
    actions := Writes(j, [], c, true);
    actions := Writes(j, actions, d, true);
    actions := Records(j, actions, c, true);
    RunMore(j, Start(j), actions, Insert(d, true));
    var before := actions;
    actions := actions + [Insert(d, true)];
    assert IsRunOf(j, Start(j), actions, true);
    actions := Removes(j, actions, d, PlaceOf(j, c), true);
  }

  /** A race for one place is lost after another request has recorded the same file at another. */
  lemma LostRaceRun(j: Job, c: nat, d: nat, e: nat) returns (actions: seq<Action>)
    requires c in j.uploads && d in j.uploads && e in j.uploads
    requires KeyOf(j, c) == KeyOf(j, d) && PlaceOf(j, c) != PlaceOf(j, d)
    requires PlaceOf(j, e) == PlaceOf(j, d) && HashOf(j, e) != HashOf(j, d)
    ensures IsRunOf(j, Start(j), actions, false) && !RecordsHold(j, Run(j, Start(j), actions))
  {
    hide KeyOf, Run, IsRun;
    NothingHappened(j, false);
    actions := Writes(j, [], c, false);
    actions := Writes(j, actions, d, false);
    actions := Writes(j, actions, e, false);
    actions := Records(j, actions, c, false);
    actions := Records(j, actions, e, false);
    RunMore(j, Start(j), actions, Insert(d, false));
    actions := actions + [Insert(d, false)];
    RunMore(j, Start(j), actions, FindWinner(d));
    actions := actions + [FindWinner(d)];
    assert IsRunOf(j, Start(j), actions, false);
    actions := Removes(j, actions, d, PlaceOf(j, c), false);
  }

  /** In every run, and so at every moment of every run, each record names a stored file of its content. */
  ghost predicate RecordsAlwaysHold(j: Job, failing: bool) {
    forall actions | IsRunOf(j, Start(j), actions, failing) :: RecordsHold(j, Run(j, Start(j), actions))
  }

  /**
   * Exactly for which requests the records always hold. If inserts can fail for other reasons than a
   * record that is there: if no two requests bring the same content to one release. If they cannot: if
   * no request, of two with the same content for different paths, shares its path with a third that
   * brings other content.
   */
  lemma RecordsAlwaysHoldIff(j: Job, failing: bool)
    requires IsWellFormed(j)
    ensures RecordsAlwaysHold(j, failing) <==> IsSafe(j, failing)
  {
    hide KeyOf, IsWellFormed, Run, IsRun;
    if IsSafe(j, failing) {
      StartOk(j, failing);
      forall actions | IsRunOf(j, Start(j), actions, failing) ensures RecordsHold(j, Run(j, Start(j), actions)) {
        RunKeepsInv(j, Start(j), actions, failing);
        InvHolds(j, Run(j, Start(j), actions), failing);
      }
    } else {
      var c, d :| c in j.uploads && d in j.uploads && IsInDanger(j, c, d, failing);
      if failing {
        var actions := FailedInsertRun(j, c, d);
      } else {
        var e :| e in j.uploads && PlaceOf(j, e) == PlaceOf(j, d) && HashOf(j, e) != HashOf(j, d);
        var actions := LostRaceRun(j, c, d, e);
      }
    }
  }

  /** With inserts that can fail the records always hold exactly if no two requests share release and digest. */
  lemma SafeIffContentsDiffer(j: Job)
    requires IsWellFormed(j)
    ensures IsSafe(j, true) <==>
      forall c, d | c in j.uploads && d in j.uploads && c != d ::
        j.uploads[c].releaseId != j.uploads[d].releaseId || HashOf(j, c) != HashOf(j, d)
  {
    hide IsWellFormed, KeyOf;
    forall c, d | c in j.uploads && d in j.uploads
      ensures KeyOf(j, c) == KeyOf(j, d) <==>
        j.uploads[c].releaseId == j.uploads[d].releaseId && HashOf(j, c) == HashOf(j, d)
    {
      SameKeyIff(j, c, d);
    }
    if IsSafe(j, true) {
      forall c, d | c in j.uploads && d in j.uploads && c != d
        ensures j.uploads[c].releaseId != j.uploads[d].releaseId || HashOf(j, c) != HashOf(j, d)
      {
        assert !IsInDanger(j, c, d, true);
      }
    }
  }

  // ---------- what becomes of a request ----------

  predicate IsRecorded(j: Job, s: State, c: nat)
    requires c in j.uploads
  {
    PlaceOf(j, c) in s.records && s.records[PlaceOf(j, c)].contentHash == HashOf(j, c)
  }

  /** Its place has a record of other content. */
  predicate IsRefused(j: Job, s: State, c: nat)
    requires c in j.uploads
  {
    PlaceOf(j, c) in s.records && s.records[PlaceOf(j, c)].contentHash != HashOf(j, c)
  }

  /** Storing its file failed, or its insert did, or its process died. */
  predicate IsTrouble(a: Action, c: nat) { a == PutFile(c, false) || a == Insert(c, true) || a == Crash(c) }

  /** How a request stands, by its phase; `trouble` is whether anything has failed. */
  predicate IsAnswered(j: Job, s: State, c: nat, trouble: bool) {
    c in j.uploads && c in s.phases ==>
      match s.phases[c]
      case Done => IsRecorded(j, s, c)
      case Failed => trouble || IsRefused(j, s, c)
      case Removing => trouble || IsRefused(j, s, c)
      case _ => true
  }

  lemma RecordsKept(j: Job, s: State, a: Action)
    requires Enabled(j, s, a)
    ensures forall p <- s.records :: p in Next(j, s, a).records && Next(j, s, a).records[p] == s.records[p]
  {
    hide KeyOf;
  }

  lemma StepIsAnswered(j: Job, s: State, a: Action, c: nat, trouble: bool)
    requires Enabled(j, s, a) && IsAnswered(j, s, c, trouble)
    ensures IsAnswered(j, Next(j, s, a), c, trouble || IsTrouble(a, c))
  {
    hide KeyOf;
    RecordsKept(j, s, a);
  }

  lemma {:induction false} RunIsAnswered(j: Job, s: State, actions: seq<Action>, c: nat, trouble: bool)
    requires IsRun(j, s, actions) && IsAnswered(j, s, c, trouble)
    ensures IsAnswered(j, Run(j, s, actions), c, trouble || exists a <- actions :: IsTrouble(a, c))
    decreases actions
  {
    if actions != [] {
      hide Next, Enabled, IsAnswered;
      var a := actions[0];
      StepIsAnswered(j, s, a, c, trouble);
      RunIsAnswered(j, Next(j, s, a), actions[1..], c, trouble || IsTrouble(a, c));
      assert (exists b <- actions :: IsTrouble(b, c)) <==>
        IsTrouble(a, c) || exists b <- actions[1..] :: IsTrouble(b, c) by { SomeTrouble(actions, c); }
    }
  }

  lemma SomeTrouble(actions: seq<Action>, c: nat)
    requires actions != []
    ensures (exists b <- actions :: IsTrouble(b, c)) <==>
      IsTrouble(actions[0], c) || exists b <- actions[1..] :: IsTrouble(b, c)
  {
    hide IsTrouble;
    assert forall b :: b in actions <==> b == actions[0] || b in actions[1..];
  }

  /** Over every run: records stay as they are. */
  lemma {:induction false} RecordsNeverChange(j: Job, s: State, actions: seq<Action>, p: Place)
    requires IsRun(j, s, actions) && p in s.records
    ensures p in Run(j, s, actions).records && Run(j, s, actions).records[p] == s.records[p]
    decreases actions
  {
    if actions != [] {
      hide Next, Enabled;
      RecordsKept(j, s, actions[0]);
      RecordsNeverChange(j, Next(j, s, actions[0]), actions[1..], p);
    }
  }

  /**
   * In every run a request that was answered well has its content recorded at its place, and one that was
   * not met a record of other content there, unless its file or its insert failed or its process died.
   */
  lemma RequestsAreAnswered(j: Job, actions: seq<Action>, c: nat)
    requires IsRun(j, Start(j), actions) && c in j.uploads && c in Run(j, Start(j), actions).phases
    ensures var s := Run(j, Start(j), actions);
      && (s.phases[c] == Done ==> IsRecorded(j, s, c))
      && (s.phases[c] == Failed && (forall a <- actions :: !IsTrouble(a, c)) ==> IsRefused(j, s, c))
  {
    hide Run, IsRun, IsRecorded, IsRefused, IsTrouble;
    RunIsAnswered(j, Start(j), actions, c, false);
  }

  // ---------- the course of a request ----------

  function StepsOf(actions: seq<Action>, c: nat): seq<Action> {
    if actions == [] then []
    else (if actions[0].c == c then [actions[0]] else []) + StepsOf(actions[1..], c)
  }

  /** The file is put before the record is inserted. */
  function Recording(c: nat): seq<Action> { [Find(c), PutFile(c, true)] }

  /** Only a request that has put its file removes one: after a failed insert, or a race lost to other content. */
  predicate ComesToRemove(steps: seq<Action>, c: nat) {
    steps == Recording(c) + [Insert(c, true)] || steps == Recording(c) + [Insert(c, false), FindWinner(c)]
  }

  /** The steps that lead to each phase, if the process of the request does not die. */
  predicate LeadTo(steps: seq<Action>, phase: Phase, c: nat) {
    match phase
    case Ready => steps == []
    case Unrecorded => steps == [Find(c)]
    case Written => steps == Recording(c)
    case Clashed => steps == Recording(c) + [Insert(c, false)]
    case Removing => ComesToRemove(steps, c)
    case Done =>
      || steps == [Find(c)] || steps == Recording(c) + [Insert(c, false)]
      || steps == Recording(c) + [Insert(c, false), FindWinner(c)]
    case Failed =>
      || steps == [Find(c)] || steps == [Find(c), PutFile(c, false)]
      || (steps != [] && ComesToRemove(steps[..|steps| - 1], c) && steps[|steps| - 1].Remove?)
  }

  lemma StepLeadsOn(j: Job, s: State, a: Action, steps: seq<Action>)
    requires Enabled(j, s, a) && !a.Crash? && a.c in s.phases && LeadTo(steps, s.phases[a.c], a.c)
    ensures a.c in Next(j, s, a).phases && LeadTo(steps + [a], Next(j, s, a).phases[a.c], a.c)
  {
    hide KeyOf;
    assert (steps + [a])[..|steps|] == steps;
    assert Recording(a.c) + [Insert(a.c, false)] + [FindWinner(a.c)] ==
      Recording(a.c) + [Insert(a.c, false), FindWinner(a.c)];
  }

  lemma OthersWait(j: Job, s: State, a: Action, c: nat)
    requires Enabled(j, s, a) && a.c != c && c in s.phases
    ensures c in Next(j, s, a).phases && Next(j, s, a).phases[c] == s.phases[c]
  {
    hide KeyOf;
  }

  lemma {:induction false} StepsLead(j: Job, s: State, actions: seq<Action>, c: nat, steps: seq<Action>)
    requires IsRun(j, s, actions) && Crash(c) !in actions && c in s.phases && LeadTo(steps, s.phases[c], c)
    ensures c in Run(j, s, actions).phases
    ensures LeadTo(steps + StepsOf(actions, c), Run(j, s, actions).phases[c], c)
    decreases actions
  {
    hide Next, Enabled, LeadTo;
    if actions == [] {
      assert steps + StepsOf(actions, c) == steps;
    } else {
      var a := actions[0];
      var mine := if a.c == c then [a] else [];
      if a.c == c { StepLeadsOn(j, s, a, steps); } else { OthersWait(j, s, a, c); }
      assert a.c != c ==> steps + mine == steps;
      StepsLead(j, Next(j, s, a), actions[1..], c, steps + mine);
      assert steps + mine + StepsOf(actions[1..], c) == steps + StepsOf(actions, c);
    }
  }

  /** Over every run the steps of a request are, in order, those that lead to its phase: it has at most five. */
  lemma RequestsFollowCourse(j: Job, actions: seq<Action>, c: nat)
    requires IsRun(j, Start(j), actions) && Crash(c) !in actions && c in j.uploads
    ensures c in Run(j, Start(j), actions).phases
    ensures LeadTo(StepsOf(actions, c), Run(j, Start(j), actions).phases[c], c) && |StepsOf(actions, c)| <= 5
  {
    hide Run, IsRun;
    StepsLead(j, Start(j), actions, c, []);
    assert [] + StepsOf(actions, c) == StepsOf(actions, c);
  }

  /** A record that is there at the first look settles the request, and nothing is put. */
  lemma FirstLookSettles(j: Job, s: State, c: nat)
    requires Enabled(j, s, Find(c)) && PlaceOf(j, c) in s.records
    ensures var s' := Next(j, s, Find(c));
      && s'.records == s.records && s'.files == s.files
      && (s'.phases[c] == Done <==> IsRecorded(j, s, c)) && (s'.phases[c] == Failed <==> IsRefused(j, s, c))
  {}
}
