/**
 * `LocalArtifactStorage` (packages/artifacts/src/local-storage.ts) as interleaved steps of any number
 * of clients on one file system, and its refinement to a plain map from keys to bytes.
 *
 * One action is one file-system call, one item from a byte source, or one failure. File names point to
 * inodes, so a reader that has opened a file keeps its bytes when the name is replaced or removed.
 */
module ArtifactStore {
  import opened JsText
  import opened StorageKeys

  type Bytes = seq<Byte>
  type Location = seq<Text>
  type Inode = nat

  /** Where a key is stored, below the root. */
  function Target(key: Text): Location { Split(key, SLASH) }

  /** A temp file lies beside its target, under a name that starts with a dot. */
  function TempLocation(key: Text, tempName: Text): Location {
    var t := Target(key);
    t[..|t| - 1] + [tempName]
  }

  predicate IsTempName(name: Text) { name != [] && name[0] == DOT }

  predicate IsTemp(l: Location) { l != [] && IsTempName(l[|l| - 1]) }

  /** The directories that `mkdir(dirname, recursive)` creates. */
  function Ancestors(l: Location): set<Location> { set n | 0 <= n < |l| :: l[..n] }

  /** A file stands where the location of a key needs a directory: lookups below it fail with ENOTDIR. */
  predicate IsBelowFile(files: set<Location>, key: Text) {
    exists n | 0 < n < |Target(key)| :: Target(key)[..n] in files
  }

  const LAST_ATTEMPT := 5

  datatype PutPhase =
    | Opening
    | Reading
    | Writing(chunk: Bytes, offset: nat)
    | Syncing
    | Renaming(attempt: nat)
    | Removing
    | Stored
    | Failed

  datatype GetPhase = Found | Streaming(inode: Inode, whole: Bytes, got: Bytes) | Ended(bytes: Bytes) | Broken

  datatype Client =
    | Put(key: Text, temp: Location, inode: Inode, hashed: Bytes, sizeBytes: nat, phase: PutPhase)
    | Get(key: Text, stream: GetPhase)

  datatype State = State(
    names: map<Location, Inode>,
    data: map<Inode, Bytes>,
    next: Inode,
    directories: set<Location>,
    clients: map<nat, Client>,
    abandoned: set<Location>)

  datatype RenameOutcome = Renamed | Transient | Fatal

  datatype Action =
    // Some of the directories of a put are made, or all of them.
    | Mkdir(key: Text, made: set<Location>)
    | StartPut(c: nat, key: Text, tempName: Text)
    | OpenTemp(c: nat, ok: bool)
    | NextChunk(c: nat, chunk: Bytes)
    | SourceFails(c: nat)
    | SourceEnds(c: nat)
    | Write(c: nat, count: nat)
    | WriteFails(c: nat)
    | Sync(c: nat, ok: bool)
    | Rename(c: nat, outcome: RenameOutcome)
    | RemoveTemp(c: nat, ok: bool)
    | Crash(c: nat)
    | StartGet(c: nat, key: Text)
    | OpenStream(c: nat)
    | Read(c: nat, count: nat)
    | EndOfStream(c: nat)
    | Exists(key: Text)
    | Delete(key: Text)

  predicate PutIn(s: State, c: nat) { c in s.clients && s.clients[c].Put? }

  predicate StreamingIn(s: State, c: nat) {
    c in s.clients && s.clients[c].Get? && s.clients[c].stream.Streaming?
  }

  /** Whether the call can be made, and the outcome named by the action can occur. */
  predicate Enabled(s: State, a: Action) {
    match a
    case Mkdir(key, made) => IsKey(key) && !IsBelowFile(s.names.Keys, key) && made <= Ancestors(Target(key))
    case StartPut(c, key, tempName) =>
      c !in s.clients && IsKey(key) && IsTempName(tempName)
    case OpenTemp(c, ok) =>
      && PutIn(s, c) && s.clients[c].phase.Opening?
      && (ok ==> s.clients[c].temp !in s.names && s.clients[c].temp !in s.directories)
    case NextChunk(c, _) => PutIn(s, c) && s.clients[c].phase.Reading?
    case SourceFails(c) => PutIn(s, c) && s.clients[c].phase.Reading?
    case SourceEnds(c) => PutIn(s, c) && s.clients[c].phase.Reading?
    case Write(c, count) =>
      && PutIn(s, c) && s.clients[c].phase.Writing? && s.clients[c].inode in s.data
      && 0 < count <= |s.clients[c].phase.chunk| - s.clients[c].phase.offset
    case WriteFails(c) =>
      && PutIn(s, c) && s.clients[c].phase.Writing?
      && s.clients[c].phase.offset < |s.clients[c].phase.chunk|
    case Sync(c, _) => PutIn(s, c) && s.clients[c].phase.Syncing?
    case Rename(c, outcome) =>
      && PutIn(s, c) && s.clients[c].phase.Renaming?
      && (outcome.Renamed? ==>
            && s.clients[c].temp in s.names
            && Target(s.clients[c].key) !in s.directories)
    case RemoveTemp(c, _) => PutIn(s, c) && s.clients[c].phase.Removing?
    case Crash(c) => c in s.clients
    case StartGet(c, key) => c !in s.clients && IsKey(key)
    case OpenStream(c) => c in s.clients && s.clients[c].Get? && s.clients[c].stream.Found?
    case Read(c, count) =>
      && StreamingIn(s, c) && s.clients[c].stream.inode in s.data
      && |s.clients[c].stream.got| + count <= |s.data[s.clients[c].stream.inode]|
    case EndOfStream(c) =>
      && StreamingIn(s, c) && s.clients[c].stream.inode in s.data
      && |s.clients[c].stream.got| == |s.data[s.clients[c].stream.inode]|
    case Exists(key) => IsKey(key)
    case Delete(key) => IsKey(key)
  }

  function InPhase(s: State, c: nat, phase: PutPhase): State
    requires PutIn(s, c)
  {
    s.(clients := s.clients[c := s.clients[c].(phase := phase)])
  }

  /** After its chunk is written out, a put asks its source for more. */
  function AfterWrite(chunk: Bytes, offset: nat): PutPhase {
    if offset < |chunk| then Writing(chunk, offset) else Reading
  }

  /** A put has its temp file from `open` until the file is renamed or removed. */
  predicate IsOwner(client: Client) {
    client.Put? && !client.phase.Opening? && !client.phase.Stored? && !client.phase.Failed?
  }

  function OwnedTemp(client: Client): set<Location> {
    if IsOwner(client) then {client.temp} else {}
  }

  function Next(s: State, a: Action): State
    requires Enabled(s, a)
  {
    match a
    case Mkdir(_, made) => s.(directories := s.directories + made)
    case StartPut(c, key, tempName) =>
      if IsBelowFile(s.names.Keys, key) then s
      else s.(clients := s.clients[c := Put(key, TempLocation(key, tempName), 0, [], 0, Opening)],
         directories := s.directories + Ancestors(Target(key)))
    case OpenTemp(c, ok) =>
      if !ok then InPhase(s, c, Failed)
      else
        var p := s.clients[c];
        s.(names := s.names[p.temp := s.next], data := s.data[s.next := []], next := s.next + 1,
           clients := s.clients[c := p.(inode := s.next, phase := Reading)])
    case NextChunk(c, chunk) =>
      var p := s.clients[c];
      s.(clients := s.clients[c := p.(hashed := p.hashed + chunk, sizeBytes := p.sizeBytes + |chunk|,
                                      phase := AfterWrite(chunk, 0))])
    case SourceFails(c) => InPhase(s, c, Removing)
    case SourceEnds(c) => InPhase(s, c, Syncing)
    case Write(c, count) =>
      var p := s.clients[c];
      var chunk, offset := p.phase.chunk, p.phase.offset;
      InPhase(s, c, AfterWrite(chunk, offset + count))
        .(data := s.data[p.inode := s.data[p.inode] + chunk[offset..offset + count]])
    case WriteFails(c) => InPhase(s, c, Removing)
    case Sync(c, ok) => InPhase(s, c, if ok then Renaming(0) else Removing)
    case Rename(c, outcome) =>
      var p := s.clients[c];
      (match outcome
       case Renamed =>
         InPhase(s, c, Stored).(names := (s.names - {p.temp})[Target(p.key) := s.names[p.temp]])
       case Transient =>
         InPhase(s, c, if p.phase.attempt < LAST_ATTEMPT then Renaming(p.phase.attempt + 1) else Removing)
       case Fatal => InPhase(s, c, Removing))
    case RemoveTemp(c, ok) =>
      var p := s.clients[c];
      if ok then InPhase(s, c, Failed).(names := s.names - {p.temp})
      else InPhase(s, c, Failed).(abandoned := s.abandoned + {p.temp})
    case Crash(c) =>
      s.(clients := s.clients - {c}, abandoned := s.abandoned + OwnedTemp(s.clients[c]))
    case StartGet(c, key) =>
      if Target(key) in s.names || (Target(key) in s.directories && !IsBelowFile(s.names.Keys, key))
      then s.(clients := s.clients[c := Get(key, Found)])
      else s
    case OpenStream(c) =>
      var g := s.clients[c];
      var target := Target(g.key);
      var stream :=
        if target in s.names && s.names[target] in s.data
        then Streaming(s.names[target], s.data[s.names[target]], []) else Broken;
      s.(clients := s.clients[c := g.(stream := stream)])
    case Read(c, count) =>
      var g := s.clients[c];
      var n := |g.stream.got|;
      var got := g.stream.got + s.data[g.stream.inode][n..n + count];
      s.(clients := s.clients[c := g.(stream := g.stream.(got := got))])
    case EndOfStream(c) =>
      var g := s.clients[c];
      s.(clients := s.clients[c := g.(stream := Ended(g.stream.got))])
    case Exists(_) => s
    case Delete(key) => s.(names := s.names - {Target(key)})
  }

  // ---------- what the calls report ----------

  datatype Response = Quiet | Answer(yes: bool) | NotFound | Error | PutResult(hashed: Bytes, sizeBytes: nat)

  /** Only ENOENT is taken for "missing"; every other failure of a lookup is thrown. */
  function Respond(s: State, a: Action): Response
    requires Enabled(s, a)
  {
    match a
    case Mkdir(key, made) => if made == Ancestors(Target(key)) then Quiet else Error
    case StartPut(_, key, _) => if IsBelowFile(s.names.Keys, key) then Error else Quiet
    case Exists(key) =>
      if Target(key) in s.names then Answer(true)
      else if IsBelowFile(s.names.Keys, key) then Error
      else Answer(false)
    case Delete(key) =>
      if Target(key) in s.names then Answer(true)
      else if IsBelowFile(s.names.Keys, key) || Target(key) in s.directories then Error
      else Answer(false)
    case StartGet(_, key) =>
      if Target(key) in s.names then Quiet
      else if IsBelowFile(s.names.Keys, key) then Error
      else if Target(key) in s.directories then Quiet
      else NotFound
    case Rename(c, Renamed) => PutResult(s.clients[c].hashed, s.clients[c].sizeBytes)
    case _ => Quiet
  }

  /** Making the directories of a key succeeds exactly if all of them are there afterwards. */
  lemma MkdirSucceedsIff(s: State, key: Text, made: set<Location>)
    requires Enabled(s, Mkdir(key, made))
    ensures Respond(s, Mkdir(key, made)) == Quiet <==> forall n | 0 <= n < |Target(key)| :: Target(key)[..n] in made
  {
    hide Split;
    if forall n | 0 <= n < |Target(key)| :: Target(key)[..n] in made { assert Ancestors(Target(key)) <= made; }
    forall n | 0 <= n < |Target(key)| ensures Target(key)[..n] in Ancestors(Target(key)) {}
  }

  /** A put or a get goes on exactly if its first lookup is answered neither with an error nor with "not found". */
  lemma StartsIff(s: State, a: Action)
    requires Enabled(s, a) && (a.StartPut? || a.StartGet?)
    ensures a.c in Next(s, a).clients <==> Respond(s, a) == Quiet
  {}

  // ---------- the specification: a map from keys to bytes ----------

  type Spec = map<Text, Bytes>

  datatype SpecOp = Nothing | SpecPut(key: Text, content: Bytes) | SpecDelete(key: Text)

  function SpecStep(m: Spec, op: SpecOp): Spec {
    match op
    case Nothing => m
    case SpecPut(key, content) => m[key := content]
    case SpecDelete(key) => m - {key}
  }

  /** The atomic points: a successful rename of everything the source yielded, and an unlink. */
  function Effect(s: State, a: Action): SpecOp
    requires Enabled(s, a)
  {
    match a
    case Rename(c, Renamed) => SpecPut(s.clients[c].key, s.clients[c].hashed)
    case Delete(key) => SpecDelete(key)
    case _ => Nothing
  }

  /** The files at the locations of valid keys are exactly the entries of the map. */
  ghost predicate Refines(s: State, m: Spec) {
    && (forall key <- m :: IsKey(key))
    && (forall key | IsKey(key) :: key in m <==> Target(key) in s.names)
    && (forall key <- m :: Target(key) in s.names && s.names[Target(key)] in s.data
                           && m[key] == s.data[s.names[Target(key)]])
  }

  // ---------- invariant ----------

  ghost predicate FilesOk(s: State) {
    && (forall l <- s.names :: s.names[l] in s.data && s.names[l] < s.next)
    && (forall l, k | l in s.names && k in s.names && s.names[l] == s.names[k] :: l == k)
    && (forall i <- s.data :: i < s.next)
    && s.directories !! s.names.Keys && [] !in s.names
  }

  /** How far the temp file has got, phase by phase. */
  ghost predicate ContentOk(p: Client, written: Bytes)
    requires p.Put?
  {
    match p.phase
    case Writing(chunk, offset) => offset < |chunk| && written + chunk[offset..] == p.hashed
    case Removing => true
    case Renaming(attempt) => attempt <= LAST_ATTEMPT && written == p.hashed
    case _ => written == p.hashed
  }

  ghost predicate PutOk(s: State, p: Client)
    requires p.Put?
  {
    && IsKey(p.key) && IsTemp(p.temp) && p.sizeBytes == |p.hashed|
    && (p.phase.Opening? ==> p.hashed == [])
    && (IsOwner(p) ==>
          && p.temp in s.names && s.names[p.temp] == p.inode && p.inode in s.data
          && ContentOk(p, s.data[p.inode]))
  }

  ghost predicate GetOk(s: State, g: Client)
    requires g.Get?
  {
    && IsKey(g.key)
    && (g.stream.Streaming? ==>
          && g.stream.inode in s.data && s.data[g.stream.inode] == g.stream.whole
          && g.stream.got <= g.stream.whole)
  }

  ghost predicate ClientOk(s: State, client: Client) {
    if client.Put? then PutOk(s, client) else GetOk(s, client)
  }

  ghost predicate ClientsOk(s: State) { forall c <- s.clients :: ClientOk(s, s.clients[c]) }

  /** No two puts write the same file, and nobody reads a file that is being written. */
  ghost predicate Exclusive(s: State) {
    && (forall c, d | c in s.clients && d in s.clients && c != d && IsOwner(s.clients[c]) && IsOwner(s.clients[d]) ::
          s.clients[c].inode != s.clients[d].inode)
    && (forall c, d | c in s.clients && StreamingIn(s, d) && IsOwner(s.clients[c]) ::
          s.clients[c].inode != s.clients[d].stream.inode)
  }

  /** A temp file belongs to a put that is still running, unless its removal failed or its process died. */
  ghost predicate TempsOk(s: State) {
    forall l <- s.names | IsTemp(l) && l !in s.abandoned ::
      exists c <- s.clients :: l in OwnedTemp(s.clients[c])
  }

  ghost predicate Inv(s: State) { FilesOk(s) && ClientsOk(s) && Exclusive(s) && TempsOk(s) }

  const EMPTY := State(map[], map[], 0, {}, map[], {})

  lemma EmptyOk()
    ensures Inv(EMPTY) && Refines(EMPTY, map[])
  {}

  // ---------- every step keeps the invariant ----------

  /** Target locations are never temp locations. */
  lemma TargetIsNotTemp(key: Text)
    requires IsKey(key)
    ensures !IsTemp(Target(key)) && forall d <- Ancestors(Target(key)) :: !IsTemp(d)
  {
    forall seg | seg in Target(key) ensures !IsTempName(seg) {
      KeySegmentIsPlain(seg);
    }
  }

  lemma TargetInjective(a: Text, b: Text)
    requires Target(a) == Target(b)
    ensures a == b
  {
    JoinSplit(a, SLASH);
    JoinSplit(b, SLASH);
  }

  /** Steps that change no file, only what a client knows. */
  predicate IsBookkeeping(a: Action) {
    match a
    case Mkdir(_, _) => false
    case StartPut(_, _, _) => false
    case OpenTemp(_, _) => false
    case Write(_, _) => false
    case Rename(_, outcome) => !outcome.Renamed?
    case RemoveTemp(_, _) => false
    case Delete(_) => false
    case _ => true
  }

  ghost predicate SameFiles(s: State, t: State) {
    s.names == t.names && s.data == t.data && s.next == t.next && s.directories == t.directories
  }

  lemma BookkeepingKeepsFiles(s: State, a: Action)
    requires Enabled(s, a) && IsBookkeeping(a)
    ensures SameFiles(s, Next(s, a))
  {}

  lemma DirectoriesFilesOk(s: State, a: Action)
    requires Inv(s) && Enabled(s, a) && (a.StartPut? || a.Mkdir?)
    ensures FilesOk(Next(s, a))
  {
    hide IsKey, Split, ClientsOk, Exclusive, TempsOk, Ancestors, IsBelowFile, TempLocation;
    if !IsBelowFile(s.names.Keys, a.key) { AncestorsAreNoFiles(s.names.Keys, a.key); }
  }

  lemma StepFilesOk(s: State, a: Action)
    requires Inv(s) && Enabled(s, a)
    ensures FilesOk(Next(s, a))
  {
    hide IsKey, Split, Exclusive, TempsOk, Ancestors, IsBelowFile, TempLocation, GetOk, ContentOk;
    if IsBookkeeping(a) {
      BookkeepingKeepsFiles(s, a);
      hide Next;
    } else if a.StartPut? || a.Mkdir? {
      DirectoriesFilesOk(s, a);
      hide Next;
    } else if a.Rename? || a.OpenTemp? {
      assert ClientOk(s, s.clients[a.c]);
    }
  }

  lemma AncestorsAreNoFiles(files: set<Location>, key: Text)
    requires [] !in files && !IsBelowFile(files, key)
    ensures Ancestors(Target(key)) !! files
  {
    forall d | d in Ancestors(Target(key)) ensures d !in files {
      var n :| 0 <= n < |Target(key)| && d == Target(key)[..n];
    }
  }

  predicate ActsFor(a: Action, c: nat) {
    match a
    case Mkdir(_, _) => false
    case Exists(_) => false
    case Delete(_) => false
    case _ => a.c == c
  }

  lemma OthersKept(s: State, a: Action, d: nat)
    requires Enabled(s, a) && !ActsFor(a, d)
    ensures d in Next(s, a).clients <==> d in s.clients
    ensures d in s.clients ==> Next(s, a).clients[d] == s.clients[d]
  {}

  lemma PutBystanderOk(s: State, a: Action, d: nat)
    requires Inv(s) && Enabled(s, a) && PutIn(s, d) && !ActsFor(a, d)
    ensures PutOk(Next(s, a), s.clients[d])
  {
    hide IsKey, Split, TempsOk, Ancestors, IsBelowFile, ContentOk, TempLocation, GetOk;
    assert ClientOk(s, s.clients[d]);
    if IsBookkeeping(a) {
      BookkeepingKeepsFiles(s, a);
      hide Next, Enabled;
    } else if a.Delete? {
      TargetIsNotTemp(a.key);
    } else if !a.StartPut? && !a.Mkdir? {
      assert ClientOk(s, s.clients[a.c]);
      TargetIsNotTemp(s.clients[a.c].key);
    }
  }

  lemma GetBystanderOk(s: State, a: Action, d: nat)
    requires Inv(s) && Enabled(s, a) && d in s.clients && s.clients[d].Get? && !ActsFor(a, d)
    ensures GetOk(Next(s, a), s.clients[d])
  {
    hide IsKey, Split, TempsOk, Ancestors, IsBelowFile, ContentOk, TempLocation;
    assert ClientOk(s, s.clients[d]);
    if IsBookkeeping(a) {
      BookkeepingKeepsFiles(s, a);
      hide Next, Enabled;
    }
  }

  /** A client is not disturbed by the steps of others. */
  lemma BystanderOk(s: State, a: Action, d: nat)
    requires Inv(s) && Enabled(s, a) && d in s.clients && !ActsFor(a, d)
    ensures ClientOk(Next(s, a), s.clients[d])
  {
    hide Next, Enabled, Inv, PutOk, GetOk;
    if s.clients[d].Put? { PutBystanderOk(s, a, d); } else { GetBystanderOk(s, a, d); }
  }

  /** A write moves bytes from the rest of the chunk to the file; nothing is lost or repeated. */
  lemma WriterOk(s: State, c: nat, count: nat)
    requires Inv(s) && Enabled(s, Write(c, count))
    ensures ClientOk(Next(s, Write(c, count)), Next(s, Write(c, count)).clients[c])
  {
    hide IsKey, Split, TempsOk, Exclusive;
    var p := s.clients[c];
    assert ClientOk(s, p);
    var written, chunk, offset := s.data[p.inode], p.phase.chunk, p.phase.offset;
    WriteMovesBytes(written, chunk, offset, count);
  }

  lemma WriteMovesBytes(written: Bytes, chunk: Bytes, offset: nat, count: nat)
    requires offset + count <= |chunk|
    ensures (written + chunk[offset..offset + count]) + chunk[offset + count..] == written + chunk[offset..]
    ensures offset + count == |chunk| ==> written + chunk[offset..offset + count] == written + chunk[offset..]
  {
    assert chunk[offset..] == chunk[offset..offset + count] + chunk[offset + count..];
  }

  lemma ReaderOk(s: State, c: nat, count: nat)
    requires Inv(s) && Enabled(s, Read(c, count))
    ensures ClientOk(Next(s, Read(c, count)), Next(s, Read(c, count)).clients[c])
  {
    hide IsKey, Split, TempsOk, Exclusive;
    assert ClientOk(s, s.clients[c]);
    var got, whole := s.clients[c].stream.got, s.clients[c].stream.whole;
    assert got + whole[|got|..|got| + count] == whole[..|got| + count];
  }

  lemma PutActorOk(s: State, a: Action, c: nat)
    requires Inv(s) && Enabled(s, a) && ActsFor(a, c) && c in Next(s, a).clients && (a.StartPut? || PutIn(s, c))
    ensures ClientOk(Next(s, a), Next(s, a).clients[c])
  {
    hide IsKey, Split, TempsOk, Exclusive, Ancestors, IsBelowFile, FilesOk, GetOk;
    if c in s.clients { assert ClientOk(s, s.clients[c]); }
    match a
    case Write(_, count) => WriterOk(s, c, count);
    case NextChunk(_, chunk) =>
      assert chunk[0..] == chunk;
    case _ =>
  }

  lemma GetActorOk(s: State, a: Action, c: nat)
    requires Inv(s) && Enabled(s, a) && ActsFor(a, c) && c in Next(s, a).clients && !a.StartPut? && !PutIn(s, c)
    ensures ClientOk(Next(s, a), Next(s, a).clients[c])
  {
    hide IsKey, Split, TempsOk, Exclusive, Ancestors, IsBelowFile, PutOk, TempLocation;
    if c in s.clients { assert ClientOk(s, s.clients[c]); }
    if a.Read? { ReaderOk(s, c, a.count); }
  }

  /** The acting client is left in order. */
  lemma ActorOk(s: State, a: Action, c: nat)
    requires Inv(s) && Enabled(s, a) && ActsFor(a, c) && c in Next(s, a).clients
    ensures ClientOk(Next(s, a), Next(s, a).clients[c])
  {
    hide Next, Enabled, Inv, ClientOk;
    if a.StartPut? || PutIn(s, c) {
      PutActorOk(s, a, c);
    } else {
      GetActorOk(s, a, c);
    }
  }

  lemma StepClientsOk(s: State, a: Action)
    requires Inv(s) && Enabled(s, a)
    ensures ClientsOk(Next(s, a))
  {
    hide Next, ClientOk, Enabled;
    var s' := Next(s, a);
    forall d | d in s'.clients ensures ClientOk(s', s'.clients[d]) {
      if ActsFor(a, d) {
        ActorOk(s, a, d);
      } else {
        OthersKept(s, a, d);
        BystanderOk(s, a, d);
      }
    }
  }

  /** The inode of an owner or of a reader is not new. */
  lemma InodesAreOld(s: State, c: nat)
    requires Inv(s) && c in s.clients
    ensures IsOwner(s.clients[c]) ==> s.clients[c].inode < s.next
    ensures StreamingIn(s, c) ==> s.clients[c].stream.inode < s.next
  {
    hide IsKey, Split, TempsOk, Exclusive;
    assert ClientOk(s, s.clients[c]);
  }

  /** What a key names is not being written. */
  lemma TargetIsNotOwned(s: State, c: nat, key: Text)
    requires Inv(s) && c in s.clients && IsOwner(s.clients[c])
    requires IsKey(key) && Target(key) in s.names
    ensures s.names[Target(key)] != s.clients[c].inode
  {
    hide IsKey, Split, TempsOk, Exclusive;
    assert ClientOk(s, s.clients[c]);
    TargetIsNotTemp(key);
  }

  /** Only `open` makes an owner, of a new inode. */
  lemma OwnerComesFrom(s: State, a: Action, c: nat)
    requires Inv(s) && Enabled(s, a) && c in Next(s, a).clients && IsOwner(Next(s, a).clients[c])
    ensures
      || (a == OpenTemp(c, true) && Next(s, a).clients[c].inode == s.next)
      || (c in s.clients && IsOwner(s.clients[c]) && Next(s, a).clients[c].inode == s.clients[c].inode)
  {
    hide IsKey, Split, Inv, Ancestors, IsBelowFile, TempLocation;
  }

  /** Only opening a stream makes a reader, of what its key names. */
  lemma ReaderComesFrom(s: State, a: Action, d: nat)
    requires Inv(s) && Enabled(s, a) && StreamingIn(Next(s, a), d)
    ensures d in s.clients && s.clients[d].Get? && IsKey(s.clients[d].key)
    ensures var inode := Next(s, a).clients[d].stream.inode;
      if StreamingIn(s, d) then inode == s.clients[d].stream.inode
      else Target(s.clients[d].key) in s.names && inode == s.names[Target(s.clients[d].key)]
  {
    hide IsKey, Split, TempsOk, Exclusive, Ancestors, IsBelowFile, TempLocation, FilesOk;
    if d in s.clients { assert ClientOk(s, s.clients[d]); }
  }

  lemma StepExclusive(s: State, a: Action)
    requires Inv(s) && Enabled(s, a)
    ensures Exclusive(Next(s, a))
  {
    hide Next, Enabled, ClientOk;
    var s' := Next(s, a);
    forall c, d | c in s'.clients && d in s'.clients && c != d && IsOwner(s'.clients[c]) && IsOwner(s'.clients[d])
      ensures s'.clients[c].inode != s'.clients[d].inode
    {
      OwnerComesFrom(s, a, c);
      OwnerComesFrom(s, a, d);
      if c in s.clients { InodesAreOld(s, c); }
      if d in s.clients { InodesAreOld(s, d); }
    }
    forall c, d | c in s'.clients && StreamingIn(s', d) && IsOwner(s'.clients[c])
      ensures s'.clients[c].inode != s'.clients[d].stream.inode
    {
      OwnerComesFrom(s, a, c);
      ReaderComesFrom(s, a, d);
      InodesAreOld(s, d);
      if c in s.clients && IsOwner(s.clients[c]) && !StreamingIn(s, d) {
        TargetIsNotOwned(s, c, s.clients[d].key);
      }
    }
  }

  lemma ActorTempAfter(s: State, a: Action, c: nat)
    requires Inv(s) && Enabled(s, a) && ActsFor(a, c) && PutIn(s, c) && IsOwner(s.clients[c])
    ensures var s', l := Next(s, a), s.clients[c].temp;
      || l !in s'.names
      || l in s'.abandoned
      || (c in s'.clients && l in OwnedTemp(s'.clients[c]))
  {
    hide IsKey, Split, TempsOk, Exclusive, FilesOk, Ancestors, IsBelowFile, TempLocation, ContentOk, GetOk;
    assert ClientOk(s, s.clients[c]);
    if a.Rename? { TargetIsNotTemp(s.clients[c].key); }
  }

  /** A put keeps its temp file, or the file is renamed or removed, or it is counted as abandoned. */
  lemma OwnedTempAfter(s: State, a: Action, c: nat)
    requires Inv(s) && Enabled(s, a) && c in s.clients && IsOwner(s.clients[c])
    ensures var s', l := Next(s, a), s.clients[c].temp;
      || l !in s'.names
      || l in s'.abandoned
      || (c in s'.clients && l in OwnedTemp(s'.clients[c]))
  {
    hide Next, Enabled, Inv;
    if ActsFor(a, c) {
      ActorTempAfter(s, a, c);
    } else {
      OthersKept(s, a, c);
    }
  }

  /** Temp files appear only when they are opened. */
  lemma TempComesFrom(s: State, a: Action, l: Location)
    requires Inv(s) && Enabled(s, a) && l in Next(s, a).names && IsTemp(l)
    ensures
      || l in s.names
      || (a.OpenTemp? && a.ok && a.c in Next(s, a).clients && l in OwnedTemp(Next(s, a).clients[a.c]))
    ensures s.abandoned <= Next(s, a).abandoned
  {
    hide IsKey, Split, TempsOk, Exclusive, Ancestors, IsBelowFile, TempLocation, ContentOk, GetOk;
    match a
    case Rename(d, Renamed) =>
      assert ClientOk(s, s.clients[d]);
      TargetIsNotTemp(s.clients[d].key);
    case _ =>
  }

  lemma StepTempsOk(s: State, a: Action)
    requires Inv(s) && Enabled(s, a)
    ensures TempsOk(Next(s, a))
  {
    hide Next, Enabled, ClientOk, OwnedTemp;
    var s' := Next(s, a);
    forall l | l in s'.names && IsTemp(l) && l !in s'.abandoned
      ensures exists c <- s'.clients :: l in OwnedTemp(s'.clients[c])
    {
      TempComesFrom(s, a, l);
      if l in s.names {
        var c :| c in s.clients && l in OwnedTemp(s.clients[c]);
        OwnedTempIs(s.clients[c], l);
        OwnedTempAfter(s, a, c);
      }
    }
  }

  lemma OwnedTempIs(client: Client, l: Location)
    requires l in OwnedTemp(client)
    ensures IsOwner(client) && client.temp == l
  {}

  lemma StepKeepsInv(s: State, a: Action)
    requires Inv(s) && Enabled(s, a)
    ensures Inv(Next(s, a))
  {
    hide Next, Enabled, FilesOk, ClientsOk, Exclusive, TempsOk;
    StepFilesOk(s, a);
    StepClientsOk(s, a);
    StepExclusive(s, a);
    StepTempsOk(s, a);
  }

  // ---------- refinement ----------

  lemma RenameRefines(s: State, c: nat, m: Spec)
    requires Inv(s) && Enabled(s, Rename(c, Renamed)) && Refines(s, m)
    ensures Refines(Next(s, Rename(c, Renamed)), m[s.clients[c].key := s.clients[c].hashed])
  {
    hide IsKey, Split, TempsOk, Exclusive, GetOk;
    var p, s', m' := s.clients[c], Next(s, Rename(c, Renamed)), m[s.clients[c].key := s.clients[c].hashed];
    assert ClientOk(s, p);
    forall key | IsKey(key)
      ensures key in m' <==> Target(key) in s'.names
      ensures key in m' ==> s'.names[Target(key)] in s'.data && m'[key] == s'.data[s'.names[Target(key)]]
    {
      TargetIsNotTemp(key);
      if Target(key) == Target(p.key) { TargetInjective(key, p.key); }
    }
  }

  lemma DeleteRefines(s: State, k: Text, m: Spec)
    requires Inv(s) && Enabled(s, Delete(k)) && Refines(s, m)
    ensures Refines(Next(s, Delete(k)), m - {k})
  {
    hide IsKey, Split, TempsOk, Exclusive, ClientsOk;
    forall key | IsKey(key) ensures key in m - {k} <==> Target(key) in Next(s, Delete(k)).names {
      if Target(key) == Target(k) { TargetInjective(key, k); }
    }
  }

  /** Every other step leaves what keys name as it was. */
  lemma QuietStepKeepsValue(s: State, a: Action, key: Text)
    requires Inv(s) && Enabled(s, a) && Effect(s, a) == Nothing && IsKey(key)
    ensures var s', t := Next(s, a), Target(key);
      && (t in s'.names <==> t in s.names)
      && (t in s.names ==>
            && s'.names[t] == s.names[t] && s.names[t] in s.data && s.names[t] in s'.data
            && s'.data[s.names[t]] == s.data[s.names[t]])
  {
    hide IsKey, Split, TempsOk, Exclusive, Ancestors, IsBelowFile, TempLocation, ContentOk, GetOk;
    TargetIsNotTemp(key);
    if IsBookkeeping(a) {
      BookkeepingKeepsFiles(s, a);
      hide Next, Enabled;
    } else if !a.StartPut? && !a.Mkdir? {
      assert ClientOk(s, s.clients[a.c]);
      if a.Write? && Target(key) in s.names { TargetIsNotOwned(s, a.c, key); }
    }
  }

  /** One step of the file system is one step, or none, of the map. */
  lemma StepRefines(s: State, a: Action, m: Spec)
    requires Inv(s) && Enabled(s, a) && Refines(s, m)
    ensures Refines(Next(s, a), SpecStep(m, Effect(s, a)))
  {
    hide IsKey, Split;
    if Effect(s, a) == Nothing {
      var s' := Next(s, a);
      hide Next, Enabled, Inv;
      forall key | IsKey(key)
        ensures key in m <==> Target(key) in s'.names
        ensures key in m ==> s'.names[Target(key)] in s'.data && m[key] == s'.data[s'.names[Target(key)]]
      {
        QuietStepKeepsValue(s, a, key);
      }
    } else if a.Delete? {
      DeleteRefines(s, a.key, m);
    } else {
      RenameRefines(s, a.c, m);
    }
  }

  /** A key that is stored lies on the way to this one. */
  ghost predicate IsBelowStored(m: Spec, key: Text) { exists k <- m :: Target(k) < Target(key) }

  lemma BelowFileIff(s: State, m: Spec, key: Text)
    requires Refines(s, m) && IsKey(key)
    ensures IsBelowFile(s.names.Keys, key) <==> IsBelowStored(m, key)
  {
    hide IsKey, Split;
    if n :| 0 < n < |Target(key)| && Target(key)[..n] in s.names {
      KeyPrefixIsKey(key, n);
      var short := Join(Split(key, SLASH)[..n], SLASH);
      assert short in m && Target(short) < Target(key);
    }
    if k :| k in m && Target(k) < Target(key) {
      assert Target(key)[..|Target(k)|] == Target(k);
      assert Target(k) in s.names;
    }
  }

  /**
   * What the calls report, by what the map says at that moment. A call fails exactly if a key that is
   * stored lies on the way to its own, or, for a delete, if its own is the directory of another.
   */
  lemma ResponsesMatch(s: State, a: Action, m: Spec)
    requires Inv(s) && Enabled(s, a) && Refines(s, m)
    ensures a.Exists? ==>
      Respond(s, a) == if a.key in m then Answer(true) else if IsBelowStored(m, a.key) then Error else Answer(false)
    ensures a.Delete? ==>
      && (Respond(s, a) == Answer(true) <==> a.key in m)
      && (Respond(s, a) == Error <==>
            a.key !in m && (IsBelowStored(m, a.key) || Target(a.key) in s.directories))
      && (Respond(s, a) == Answer(false) <==>
            a.key !in m && !IsBelowStored(m, a.key) && Target(a.key) !in s.directories)
    ensures a.StartGet? ==>
      && (Respond(s, a) == Error <==> a.key !in m && IsBelowStored(m, a.key))
      && (Respond(s, a) == NotFound <==>
            a.key !in m && !IsBelowStored(m, a.key) && Target(a.key) !in s.directories)
    ensures a.StartPut? ==> (Respond(s, a) == Error <==> IsBelowStored(m, a.key))
    ensures a.Rename? && a.outcome.Renamed? ==>
      Effect(s, a) == SpecPut(s.clients[a.c].key, Respond(s, a).hashed) &&
        Respond(s, a).sizeBytes == |Respond(s, a).hashed|
    ensures a.OpenStream? ==>
      var key, stream := s.clients[a.c].key, Next(s, a).clients[a.c].stream;
      stream == if key in m then Streaming(s.names[Target(key)], m[key], []) else Broken
  {
    hide IsKey, Split, TempsOk, Exclusive, Ancestors, IsBelowFile, TempLocation;
    if a.Rename? || a.OpenStream? { assert ClientOk(s, s.clients[a.c]); }
    if a.Exists? || a.Delete? || a.StartGet? || a.StartPut? { BelowFileIff(s, m, a.key); }
  }

  // ---------- the files by their names ----------

  function View(s: State): map<Location, Bytes> {
    map l | l in s.names && s.names[l] in s.data :: s.data[s.names[l]]
  }

  /** What one step does to the files. */
  function ViewAfter(s: State, a: Action): map<Location, Bytes>
    requires Inv(s) && Enabled(s, a)
  {
    match a
    case OpenTemp(c, true) => View(s)[s.clients[c].temp := []]
    case Write(c, count) =>
      var p := s.clients[c];
      OwnerHasTemp(s, c);
      View(s)[p.temp := View(s)[p.temp] + p.phase.chunk[p.phase.offset..p.phase.offset + count]]
    case Rename(c, Renamed) =>
      var p := s.clients[c];
      OwnerHasTemp(s, c);
      (View(s) - {p.temp})[Target(p.key) := View(s)[p.temp]]
    case RemoveTemp(c, true) => View(s) - {s.clients[c].temp}
    case Delete(key) => View(s) - {Target(key)}
    case _ => View(s)
  }

  lemma OwnerHasTemp(s: State, c: nat)
    requires Inv(s) && PutIn(s, c) && IsOwner(s.clients[c])
    ensures var p := s.clients[c];
      p.temp in s.names && s.names[p.temp] == p.inode && p.inode in s.data && p.temp in View(s)
  {
    hide IsKey, Split, TempsOk, Exclusive, FilesOk;
    assert ClientOk(s, s.clients[c]);
  }

  lemma ViewOfWrite(s: State, c: nat, count: nat)
    requires Inv(s) && Enabled(s, Write(c, count))
    ensures View(Next(s, Write(c, count))) == ViewAfter(s, Write(c, count))
  {
    hide IsKey, Split, TempsOk, Exclusive, ClientsOk;
    OwnerHasTemp(s, c);
  }

  lemma ViewOfRename(s: State, c: nat)
    requires Inv(s) && Enabled(s, Rename(c, Renamed))
    ensures View(Next(s, Rename(c, Renamed))) == ViewAfter(s, Rename(c, Renamed))
  {
    hide IsKey, Split, TempsOk, Exclusive, ClientsOk;
    OwnerHasTemp(s, c);
  }

  lemma ViewOfOpen(s: State, c: nat, ok: bool)
    requires Inv(s) && Enabled(s, OpenTemp(c, ok))
    ensures View(Next(s, OpenTemp(c, ok))) == ViewAfter(s, OpenTemp(c, ok))
  {
    hide IsKey, Split, TempsOk, Exclusive, ClientsOk;
  }

  lemma ViewOfRemove(s: State, c: nat, ok: bool)
    requires Inv(s) && Enabled(s, RemoveTemp(c, ok))
    ensures View(Next(s, RemoveTemp(c, ok))) == ViewAfter(s, RemoveTemp(c, ok))
  {
    hide IsKey, Split, TempsOk, Exclusive, ClientsOk, FilesOk;
  }

  lemma ViewOfDelete(s: State, key: Text)
    requires Inv(s) && Enabled(s, Delete(key))
    ensures View(Next(s, Delete(key))) == ViewAfter(s, Delete(key))
  {
    hide IsKey, Split, TempsOk, Exclusive, ClientsOk, FilesOk;
  }

  lemma ViewOfStart(s: State, a: Action)
    requires Inv(s) && Enabled(s, a) && (a.StartPut? || a.Mkdir?)
    ensures View(Next(s, a)) == ViewAfter(s, a)
  {
    hide IsKey, Split, Inv, Ancestors, IsBelowFile, TempLocation;
  }

  lemma ViewOfBookkeeping(s: State, a: Action)
    requires Inv(s) && Enabled(s, a) && IsBookkeeping(a)
    ensures View(Next(s, a)) == ViewAfter(s, a)
  {
    hide Next, Enabled, Inv;
    BookkeepingKeepsFiles(s, a);
  }

  lemma ViewOfNext(s: State, a: Action)
    requires Inv(s) && Enabled(s, a)
    ensures View(Next(s, a)) == ViewAfter(s, a)
  {
    hide Next, Enabled, Inv, View, ViewAfter;
    if a.Write? {
      ViewOfWrite(s, a.c, a.count);
    } else if a.Rename? && a.outcome.Renamed? {
      ViewOfRename(s, a.c);
    } else if IsBookkeeping(a) {
      ViewOfBookkeeping(s, a);
    } else {
      match a {
        case OpenTemp(c, ok) => ViewOfOpen(s, c, ok);
        case RemoveTemp(c, ok) => ViewOfRemove(s, c, ok);
        case Delete(key) => ViewOfDelete(s, key);
        case _ => ViewOfStart(s, a);
      }
    }
  }

  // ---------- whole runs ----------

  ghost predicate IsRun(s: State, actions: seq<Action>)
    decreases actions
  {
    actions != [] ==> Enabled(s, actions[0]) && IsRun(Next(s, actions[0]), actions[1..])
  }

  ghost function Run(s: State, actions: seq<Action>): State
    requires IsRun(s, actions)
    decreases actions
  {
    if actions == [] then s else Run(Next(s, actions[0]), actions[1..])
  }

  lemma {:induction false} RunMore(s: State, actions: seq<Action>, a: Action)
    requires IsRun(s, actions) && Enabled(Run(s, actions), a)
    ensures IsRun(s, actions + [a]) && Run(s, actions + [a]) == Next(Run(s, actions), a)
    decreases actions
  {
    hide Next, Enabled;
    if actions == [] {
      assert actions + [a] == [a] && [a][1..] == [];
    } else {
      RunMore(Next(s, actions[0]), actions[1..], a);
      assert (actions + [a])[1..] == actions[1..] + [a];
    }
  }

  /** The operations a run performs on the map. */
  ghost function Effects(s: State, actions: seq<Action>): seq<SpecOp>
    requires IsRun(s, actions)
    decreases actions
  {
    if actions == [] then [] else [Effect(s, actions[0])] + Effects(Next(s, actions[0]), actions[1..])
  }

  ghost function SpecRun(m: Spec, ops: seq<SpecOp>): Spec
    decreases ops
  {
    if ops == [] then m else SpecRun(SpecStep(m, ops[0]), ops[1..])
  }

  /** Over every interleaving the files at valid keys are those of the map after the same puts and deletes. */
  lemma {:induction false} RunRefines(s: State, m: Spec, actions: seq<Action>)
    requires Inv(s) && Refines(s, m) && IsRun(s, actions)
    ensures Inv(Run(s, actions)) && Refines(Run(s, actions), SpecRun(m, Effects(s, actions)))
    decreases actions
  {
    if actions != [] {
      hide Next, Enabled, Inv, Refines;
      StepKeepsInv(s, actions[0]);
      StepRefines(s, actions[0], m);
      RunRefines(Next(s, actions[0]), SpecStep(m, Effect(s, actions[0])), actions[1..]);
      assert Effects(s, actions)[1..] == Effects(Next(s, actions[0]), actions[1..]);
    }
  }

  predicate Touches(op: SpecOp, key: Text) { !op.Nothing? && op.key == key }

  /** The last operation on a key is a put of this content. */
  ghost predicate LastIsPut(ops: seq<SpecOp>, key: Text, content: Bytes) {
    exists i | 0 <= i < |ops| :: ops[i] == SpecPut(key, content) && forall j | i < j < |ops| :: !Touches(ops[j], key)
  }

  ghost predicate NeverTouched(ops: seq<SpecOp>, key: Text) { forall j | 0 <= j < |ops| :: !Touches(ops[j], key) }

  lemma {:induction false} SpecHoldsLastPut(m: Spec, ops: seq<SpecOp>, key: Text, content: Bytes)
    ensures key in SpecRun(m, ops) && SpecRun(m, ops)[key] == content <==>
      LastIsPut(ops, key, content) || (NeverTouched(ops, key) && key in m && m[key] == content)
    decreases ops
  {
    if ops != [] {
      var tail := ops[1..];
      SpecHoldsLastPut(SpecStep(m, ops[0]), tail, key, content);
      assert forall j | 0 < j < |ops| :: ops[j] == tail[j - 1];
      if LastIsPut(tail, key, content) {
        var i :| 0 <= i < |tail| && tail[i] == SpecPut(key, content) &&
          forall j | i < j < |tail| :: !Touches(tail[j], key);
        assert ops[i + 1] == SpecPut(key, content) && forall j | i + 1 < j < |ops| :: !Touches(ops[j], key);
      }
      if LastIsPut(ops, key, content) {
        var i :| 0 <= i < |ops| && ops[i] == SpecPut(key, content) && forall j | i < j < |ops| :: !Touches(ops[j], key);
        if i > 0 {
          assert tail[i - 1] == SpecPut(key, content) && forall j | i - 1 < j < |tail| :: !Touches(tail[j], key);
        } else {
          assert NeverTouched(tail, key);
        }
      }
      assert NeverTouched(ops, key) <==> !Touches(ops[0], key) && NeverTouched(tail, key);
    }
  }

  /**
   * In every reachable state the file at a key, if there is one, is the whole byte sequence of one put
   * that reached its rename, the last of the operations on that key: never a prefix, never a mixture.
   */
  lemma StoredFileIsOnePut(actions: seq<Action>, key: Text)
    requires IsRun(EMPTY, actions) && IsKey(key)
    ensures var s := Run(EMPTY, actions);
      Target(key) in s.names ==>
        && s.names[Target(key)] in s.data
        && LastIsPut(Effects(EMPTY, actions), key, s.data[s.names[Target(key)]])
  {
    EmptyOk();
    RunRefines(EMPTY, map[], actions);
    var s := Run(EMPTY, actions);
    if Target(key) in s.names {
      SpecHoldsLastPut(map[], Effects(EMPTY, actions), key, s.data[s.names[Target(key)]]);
    }
  }

  /** Callers put content only under canonical keys that carry its digest. */
  ghost predicate AreContentAddressed(ops: seq<SpecOp>, digest: Bytes -> Text) {
    forall i | 0 <= i < |ops| && ops[i].SpecPut? ::
      Parse(ops[i].key).Ok? && Parse(ops[i].key).value.contentHash == digest(ops[i].content)
  }

  /** With such callers every stored file has the digest its key names, whoever wrote last. */
  lemma StoredFileMatchesKey(actions: seq<Action>, key: Text, digest: Bytes -> Text)
    requires IsRun(EMPTY, actions) && IsKey(key)
    requires AreContentAddressed(Effects(EMPTY, actions), digest)
    requires Target(key) in Run(EMPTY, actions).names
    ensures var s := Run(EMPTY, actions);
      && Parse(key).Ok? && s.names[Target(key)] in s.data
      && Parse(key).value.contentHash == digest(s.data[s.names[Target(key)]])
  {
    StoredFileIsOnePut(actions, key);
    var s, ops := Run(EMPTY, actions), Effects(EMPTY, actions);
    var i :| 0 <= i < |ops| && ops[i] == SpecPut(key, s.data[s.names[Target(key)]]);
  }

  lemma StreamKeepsSnapshot(s: State, a: Action, c: nat)
    requires Inv(s) && Enabled(s, a) && StreamingIn(s, c) && a != Crash(c)
    ensures c in Next(s, a).clients
    ensures var before, after := s.clients[c].stream, Next(s, a).clients[c];
      && after.Get?
      && (after.stream.Streaming? ==> after.stream.whole == before.whole)
      && (!after.stream.Streaming? ==> after.stream == Ended(before.whole))
  {
    hide IsKey, Split, TempsOk, Exclusive, Ancestors, IsBelowFile, TempLocation, ContentOk, FilesOk;
    assert ClientOk(s, s.clients[c]);
  }

  lemma EndedStays(s: State, a: Action, c: nat)
    requires Enabled(s, a) && c in s.clients && s.clients[c].Get? && s.clients[c].stream.Ended? && a != Crash(c)
    ensures c in Next(s, a).clients && Next(s, a).clients[c] == s.clients[c]
  {
    hide IsKey, Split, Ancestors, IsBelowFile, TempLocation;
  }

  /**
   * A stream that has been opened delivers exactly the bytes its key had at that moment, whatever is
   * put, deleted or written in the meantime and in whatever pieces it is read.
   */
  lemma {:induction false} StreamDeliversSnapshot(s: State, actions: seq<Action>, c: nat, whole: Bytes)
    requires Inv(s) && IsRun(s, actions) && Crash(c) !in actions
    requires c in s.clients && s.clients[c].Get?
    requires
      || (s.clients[c].stream.Streaming? && s.clients[c].stream.whole == whole)
      || s.clients[c].stream == Ended(whole)
    ensures c in Run(s, actions).clients && Run(s, actions).clients[c].Get?
    ensures Run(s, actions).clients[c].stream.Ended? ==> Run(s, actions).clients[c].stream == Ended(whole)
    decreases actions
  {
    if actions != [] {
      hide Next, Enabled, Inv;
      StepKeepsInv(s, actions[0]);
      if s.clients[c].stream.Streaming? {
        StreamKeepsSnapshot(s, actions[0], c);
      } else {
        EndedStays(s, actions[0], c);
      }
      StreamDeliversSnapshot(Next(s, actions[0]), actions[1..], c, whole);
    }
  }

  // ---------- keys that are in each other's way ----------

  /** A run that puts nothing but the empty content at a key. */
  function PutNothing(key: Text, tempName: Text): seq<Action> {
    [StartPut(0, key, tempName), OpenTemp(0, true), SourceEnds(0), Sync(0, true), Rename(0, Renamed)]
  }

  function AfterPut(key: Text, tempName: Text): State {
    State(
      map[Target(key) := 0], map[0 := []], 1, Ancestors(Target(key)),
      map[0 := Put(key, TempLocation(key, tempName), 0, [], 0, Stored)], {})
  }

  /** The states on the way. */
  function DuringPut(key: Text, tempName: Text, phase: PutPhase): State {
    var temp, dirs := TempLocation(key, tempName), Ancestors(Target(key));
    var clients := map[0 := Put(key, temp, 0, [], 0, phase)];
    if phase == Opening then State(map[], map[], 0, dirs, clients, {})
    else State(map[temp := 0], map[0 := []], 1, dirs, clients, {})
  }

  lemma FirstSteps(key: Text, tempName: Text)
    requires IsKey(key) && IsTempName(tempName)
    ensures var a, s1, s2 :=
        PutNothing(key, tempName), DuringPut(key, tempName, Opening), DuringPut(key, tempName, Reading);
      && Enabled(EMPTY, a[0]) && Next(EMPTY, a[0]) == s1
      && Enabled(s1, a[1]) && Next(s1, a[1]) == s2
  {
    hide IsKey, Split;
    var temp := TempLocation(key, tempName);
    assert temp[|temp| - 1] == tempName;
    TargetIsNotTemp(key);
    hide TempLocation, Ancestors;
    assert temp !in Ancestors(Target(key));
  }

  lemma MiddleSteps(key: Text, tempName: Text)
    ensures var a, s2, s3, s4 := PutNothing(key, tempName), DuringPut(key, tempName, Reading),
      DuringPut(key, tempName, Syncing), DuringPut(key, tempName, Renaming(0));
      && Enabled(s2, a[2]) && Next(s2, a[2]) == s3
      && Enabled(s3, a[3]) && Next(s3, a[3]) == s4
  {
    hide Split, TempLocation, Ancestors;
  }

  lemma LastStep(key: Text, tempName: Text)
    requires IsKey(key) && IsTempName(tempName)
    ensures var a, s4 := Rename(0, Renamed), DuringPut(key, tempName, Renaming(0));
      Enabled(s4, a) && Next(s4, a) == AfterPut(key, tempName)
  {
    hide IsKey, Split, TempLocation;
    assert Target(key) !in Ancestors(Target(key)) by {
      assert forall n | 0 <= n < |Target(key)| :: |Target(key)[..n]| == n;
    }
    hide Ancestors;
    var temp := TempLocation(key, tempName);
    assert map[temp := 0] - {temp} == map[];
  }

  lemma PutNothingRuns(key: Text, tempName: Text)
    requires IsKey(key) && IsTempName(tempName)
    ensures IsRun(EMPTY, PutNothing(key, tempName))
    ensures Run(EMPTY, PutNothing(key, tempName)) == AfterPut(key, tempName)
  {
    FirstSteps(key, tempName);
    MiddleSteps(key, tempName);
    LastStep(key, tempName);
    hide Next, Enabled, AfterPut, DuringPut;
    var a, end := PutNothing(key, tempName), AfterPut(key, tempName);
    assert a[4..] == [a[4]] && [a[4]][1..] == [];
    assert a[1..][1..] == a[2..] && a[2..][1..] == a[3..] && a[3..][1..] == a[4..];
    var s4, s3 := DuringPut(key, tempName, Renaming(0)), DuringPut(key, tempName, Syncing);
    var s2, s1 := DuringPut(key, tempName, Reading), DuringPut(key, tempName, Opening);
    assert IsRun(s4, a[4..]) && Run(s4, a[4..]) == end;
    assert IsRun(s3, a[3..]) && Run(s3, a[3..]) == end;
    assert IsRun(s2, a[2..]) && Run(s2, a[2..]) == end;
    assert IsRun(s1, a[1..]) && Run(s1, a[1..]) == end;
  }

  const A: Text := ['a' as int]
  const A_B: Text := ['a' as int, SLASH, 'b' as int]

  lemma ExampleKeys()
    ensures IsKey(A) && IsKey(A_B) && Target(A) == [A] && Target(A_B) == [A, ['b' as int]]
  {
    var b: Text := ['b' as int];
    SplitFree(A, SLASH);
    SplitFree(b, SLASH);
    assert A_B == A + [SLASH] + b;
    SplitAt(A, b, SLASH);
    assert [A] + [b] == [A, b];
    assert IsKeySegment(A) && IsKeySegment(b);
  }

  /** Asking for, deleting, getting and putting a key below a file all fail: none says "missing". */
  lemma BelowFileFails(s: State, c: nat, key: Text, tempName: Text)
    requires IsKey(key) && IsTempName(tempName) && c !in s.clients
    requires IsBelowFile(s.names.Keys, key) && Target(key) !in s.names
    ensures Enabled(s, Exists(key)) && Respond(s, Exists(key)) == Error
    ensures Enabled(s, Delete(key)) && Respond(s, Delete(key)) == Error
    ensures Enabled(s, StartGet(c, key)) && Respond(s, StartGet(c, key)) == Error
    ensures Enabled(s, StartPut(c, key, tempName)) && Respond(s, StartPut(c, key, tempName)) == Error
  {
    hide IsKey, Split, IsBelowFile;
  }

  /** So it is for `a/b` after a put of `a`. */
  lemma KeyBelowKeyFails(tempName: Text)
    requires IsTempName(tempName)
    ensures IsRun(EMPTY, PutNothing(A, tempName))
    ensures var s := Run(EMPTY, PutNothing(A, tempName));
      && Enabled(s, Exists(A_B)) && Respond(s, Exists(A_B)) == Error
      && Enabled(s, Delete(A_B)) && Respond(s, Delete(A_B)) == Error
      && Enabled(s, StartGet(1, A_B)) && Respond(s, StartGet(1, A_B)) == Error
      && Enabled(s, StartPut(1, A_B, tempName)) && Respond(s, StartPut(1, A_B, tempName)) == Error
  {
    ExampleKeys();
    PutNothingRuns(A, tempName);
    hide IsKey, Split, Run, IsRun, Enabled, Respond;
    assert Target(A_B)[..1] == Target(A);
    BelowFileFails(Run(EMPTY, PutNothing(A, tempName)), 1, A_B, tempName);
  }

  // ---------- keys that are directories ----------

  /** The directories one action makes. */
  function MadeIn(s: State, a: Action): set<Location>
    requires Enabled(s, a)
  {
    match a
    case Mkdir(_, made) => made
    case StartPut(_, key, _) => if IsBelowFile(s.names.Keys, key) then {} else Ancestors(Target(key))
    case _ => {}
  }

  /** The directories of every put of a run that did not fail on a file in the way. */
  ghost function MadeBy(s: State, actions: seq<Action>): set<Location>
    requires IsRun(s, actions)
    decreases actions
  {
    if actions == [] then {} else MadeIn(s, actions[0]) + MadeBy(Next(s, actions[0]), actions[1..])
  }

  lemma StepDirectories(s: State, a: Action)
    requires Enabled(s, a)
    ensures Next(s, a).directories == s.directories + MadeIn(s, a)
  {
    hide IsKey, Split, Ancestors, IsBelowFile, TempLocation;
  }

  lemma {:induction false} RunDirectories(s: State, actions: seq<Action>)
    requires IsRun(s, actions)
    ensures Run(s, actions).directories == s.directories + MadeBy(s, actions)
    decreases actions
  {
    if actions != [] {
      hide Next, Enabled, MadeIn;
      StepDirectories(s, actions[0]);
      RunDirectories(Next(s, actions[0]), actions[1..]);
    }
  }

  /** Where a put has made a directory, its key lies below. */
  lemma {:induction false} MadeIsAbovePut(s: State, actions: seq<Action>, key: Text)
    requires IsRun(s, actions) && Target(key) in MadeBy(s, actions)
    ensures exists a <- actions :: (a.StartPut? || a.Mkdir?) && IsKey(a.key) && Target(key) < Target(a.key)
    decreases actions
  {
    hide IsKey, Split, Next;
    var a := actions[0];
    if Target(key) in MadeIn(s, a) {
      var n :| 0 <= n < |Target(a.key)| && Target(key) == Target(a.key)[..n];
      assert a in actions;
    } else {
      MadeIsAbovePut(Next(s, a), actions[1..], key);
      var b :| b in actions[1..] && (b.StartPut? || b.Mkdir?) && IsKey(b.key) && Target(key) < Target(b.key);
      assert b in actions;
    }
  }

  /**
   * What delete and get report after any run from the empty store, by what was done in it: the map the
   * puts and deletes leave, and the directories the puts have made.
   */
  lemma ResponsesAfterRun(actions: seq<Action>, a: Action)
    requires IsRun(EMPTY, actions) && Enabled(Run(EMPTY, actions), a)
    ensures var s, m, made :=
        Run(EMPTY, actions), SpecRun(map[], Effects(EMPTY, actions)), MadeBy(EMPTY, actions);
      && (a.Delete? ==>
            && (Respond(s, a) == Error <==> a.key !in m && (IsBelowStored(m, a.key) || Target(a.key) in made))
            && (Respond(s, a) == Answer(false) <==>
                  a.key !in m && !IsBelowStored(m, a.key) && Target(a.key) !in made))
      && (a.StartGet? ==>
            (Respond(s, a) == NotFound <==>
               a.key !in m && !IsBelowStored(m, a.key) && Target(a.key) !in made))
  {
    EmptyOk();
    RunRefines(EMPTY, map[], actions);
    RunDirectories(EMPTY, actions);
    ResponsesMatch(Run(EMPTY, actions), a, SpecRun(map[], Effects(EMPTY, actions)));
    hide Run, IsRun, Respond, Enabled, Inv, Refines, SpecRun, Effects, MadeBy, IsBelowStored, Next;
  }

  /** Deleting a key that is a directory fails, and getting it gives a stream that breaks. */
  lemma DirectoryFails(s: State, c: nat, key: Text)
    requires IsKey(key) && c !in s.clients && Target(key) in s.directories
    requires Target(key) !in s.names && !IsBelowFile(s.names.Keys, key)
    ensures Enabled(s, Delete(key)) && Respond(s, Delete(key)) == Error
    ensures Enabled(s, StartGet(c, key)) && Respond(s, StartGet(c, key)) == Quiet
    ensures var t := Next(s, StartGet(c, key));
      Enabled(t, OpenStream(c)) && Next(t, OpenStream(c)).clients[c] == Get(key, Broken)
  {
    hide IsKey, Split, IsBelowFile;
  }

  /** So it is for `a` after a put of `a/b`. */
  lemma KeyAboveKeyFails(tempName: Text)
    requires IsTempName(tempName)
    ensures IsRun(EMPTY, PutNothing(A_B, tempName))
    ensures var s := Run(EMPTY, PutNothing(A_B, tempName));
      && Enabled(s, Delete(A)) && Respond(s, Delete(A)) == Error
      && Enabled(s, StartGet(1, A)) && Respond(s, StartGet(1, A)) == Quiet
      && var t := Next(s, StartGet(1, A));
        Enabled(t, OpenStream(1)) && Next(t, OpenStream(1)).clients[1] == Get(A, Broken)
  {
    ExampleKeys();
    PutNothingRuns(A_B, tempName);
    hide IsKey, Split, Run, IsRun, Enabled, Respond, Next;
    assert Target(A_B)[..1] == Target(A);
    DirectoryFails(Run(EMPTY, PutNothing(A_B, tempName)), 1, A);
  }

  // ---------- canonical keys are never in each other's way ----------

  function KeyOf(a: Action): Text {
    match a
    case StartPut(_, key, _) => key
    case StartGet(_, key) => key
    case Exists(key) => key
    case Delete(key) => key
    case _ => []
  }

  /** Directories and files come from puts at canonical keys only. */
  ghost predicate IsCanonicalOnly(s: State) {
    && (forall d <- s.directories :: exists k :: Parse(k).Ok? && d in Ancestors(Target(k)))
    && (forall l <- s.names | !IsTemp(l) :: exists k :: Parse(k).Ok? && l == Target(k))
    && (forall c <- s.clients | s.clients[c].Put? :: Parse(s.clients[c].key).Ok?)
  }

  predicate PutsCanonical(a: Action) { a.StartPut? || a.Mkdir? ==> Parse(a.key).Ok? }

  lemma StepCanonicalOnly(s: State, a: Action)
    requires Inv(s) && Enabled(s, a) && IsCanonicalOnly(s) && PutsCanonical(a)
    ensures IsCanonicalOnly(Next(s, a))
  {
    hide IsKey, Split, TempsOk, Exclusive, Ancestors, IsBelowFile, TempLocation, ContentOk, GetOk, Parse, FilesOk;
    if a.Rename? || a.OpenTemp? { assert ClientOk(s, s.clients[a.c]); }
    var s' := Next(s, a);
    forall l | l in s'.names && !IsTemp(l) ensures exists k :: Parse(k).Ok? && l == Target(k) {
      if l !in s.names { assert a.Rename? && l == Target(s.clients[a.c].key); }
    }
  }

  lemma {:induction false} RunCanonicalOnly(s: State, actions: seq<Action>)
    requires Inv(s) && IsRun(s, actions) && IsCanonicalOnly(s) && forall a <- actions :: PutsCanonical(a)
    ensures Inv(Run(s, actions)) && IsCanonicalOnly(Run(s, actions))
    decreases actions
  {
    if actions != [] {
      hide Next, Enabled, Inv, IsCanonicalOnly;
      StepKeepsInv(s, actions[0]);
      StepCanonicalOnly(s, actions[0]);
      RunCanonicalOnly(Next(s, actions[0]), actions[1..]);
    }
  }

  lemma CanonicalIsFree(s: State, key: Text)
    requires IsCanonicalOnly(s) && Parse(key).Ok?
    ensures !IsBelowFile(s.names.Keys, key) && Target(key) !in s.directories
  {
    hide Split, Parse;
    assert IsKey(key) by { ParsedIsKey(key); }
    TargetIsNotTemp(key);
    if n :| 0 < n < |Target(key)| && Target(key)[..n] in s.names {
      assert Target(key)[..n] in Ancestors(Target(key));
      var k :| Parse(k).Ok? && Target(key)[..n] == Target(k);
      CanonicalKeysArePrefixFree(k, key);
    }
    if Target(key) in s.directories {
      var k :| Parse(k).Ok? && Target(key) in Ancestors(Target(k));
      var n :| 0 <= n < |Target(k)| && Target(key) == Target(k)[..n];
      CanonicalKeysArePrefixFree(key, k);
    }
  }

  lemma ParsedIsKey(key: Text)
    requires Parse(key).Ok?
    ensures IsKey(key)
  {}

  /** With canonical keys only, in every reachable state, no call ever fails because of another key. */
  lemma CanonicalKeysNeverFail(actions: seq<Action>, a: Action)
    requires IsRun(EMPTY, actions) && forall b <- actions :: PutsCanonical(b)
    requires Enabled(Run(EMPTY, actions), a) && Parse(KeyOf(a)).Ok?
    ensures Respond(Run(EMPTY, actions), a) != Error
  {
    EmptyOk();
    RunCanonicalOnly(EMPTY, actions);
    CanonicalIsFree(Run(EMPTY, actions), KeyOf(a));
    hide Run, IsRun, Parse, Enabled, IsBelowFile, IsCanonicalOnly, Inv;
  }

  // ---------- cleanup and retries ----------

  predicate LeavesTemp(a: Action) { a.Crash? || (a.RemoveTemp? && !a.ok) }

  /** A file is abandoned only by a failed removal or a crash. */
  lemma AbandonedBy(s: State, a: Action)
    requires Enabled(s, a) && !LeavesTemp(a)
    ensures Next(s, a).abandoned == s.abandoned
  {
    hide IsKey, Split, Ancestors, IsBelowFile, TempLocation;
  }

  /**
   * Over every run in which removals succeed and no process dies, each temp file present belongs to a
   * put that is still running: every put that has ended, well or not, has renamed or removed its own.
   */
  lemma {:induction false} TempsBelongToRunningPuts(s: State, actions: seq<Action>)
    requires Inv(s) && IsRun(s, actions) && s.abandoned == {}
    requires forall a <- actions :: !LeavesTemp(a)
    ensures var end := Run(s, actions);
      forall l <- end.names | IsTemp(l) ::
        exists c <- end.clients :: IsOwner(end.clients[c]) && end.clients[c].temp == l
    decreases actions
  {
    hide IsKey, Split;
    if actions == [] {
      forall l | l in s.names && IsTemp(l)
        ensures exists c <- s.clients :: IsOwner(s.clients[c]) && s.clients[c].temp == l
      {
        var c :| c in s.clients && l in OwnedTemp(s.clients[c]);
      }
    } else {
      hide Next, Enabled, Inv;
      StepKeepsInv(s, actions[0]);
      AbandonedBy(s, actions[0]);
      TempsBelongToRunningPuts(Next(s, actions[0]), actions[1..]);
    }
  }

  ghost function RenameCalls(actions: seq<Action>, c: nat): nat {
    if actions == [] then 0
    else (if actions[0].Rename? && actions[0].c == c then 1 else 0) + RenameCalls(actions[1..], c)
  }

  /** The rename calls a client can still make. */
  function RenamesLeft(s: State, c: nat): nat {
    if c !in s.clients then LAST_ATTEMPT + 1
    else if !s.clients[c].Put? then 0
    else match s.clients[c].phase
      case Renaming(attempt) => if attempt <= LAST_ATTEMPT then LAST_ATTEMPT + 1 - attempt else 0
      case Removing => 0
      case Stored => 0
      case Failed => 0
      case _ => LAST_ATTEMPT + 1
  }

  lemma ActorRenamesLeft(s: State, a: Action, c: nat)
    requires Enabled(s, a) && ActsFor(a, c) && !a.Crash?
    requires PutIn(s, c) && s.clients[c].phase.Renaming? ==> s.clients[c].phase.attempt <= LAST_ATTEMPT
    ensures RenamesLeft(Next(s, a), c) + (if a.Rename? then 1 else 0) <= RenamesLeft(s, c)
  {
    hide IsKey, Split, Ancestors, IsBelowFile, TempLocation;
  }

  lemma StepRenamesLeft(s: State, a: Action, c: nat)
    requires Inv(s) && Enabled(s, a) && a != Crash(c)
    ensures RenamesLeft(Next(s, a), c) + (if a.Rename? && a.c == c then 1 else 0) <= RenamesLeft(s, c)
  {
    hide Next, Enabled, FilesOk, Exclusive, TempsOk, IsKey, Split, GetOk;
    if c in s.clients { assert ClientOk(s, s.clients[c]); }
    if ActsFor(a, c) {
      ActorRenamesLeft(s, a, c);
    } else {
      OthersKept(s, a, c);
    }
  }

  /** A put calls rename at most six times. */
  lemma {:induction false} RenameTriedAtMostSixTimes(s: State, actions: seq<Action>, c: nat)
    requires Inv(s) && IsRun(s, actions) && Crash(c) !in actions
    ensures RenameCalls(actions, c) <= RenamesLeft(s, c) <= 6
    decreases actions
  {
    if actions != [] {
      hide Next, Enabled, Inv;
      StepKeepsInv(s, actions[0]);
      StepRenamesLeft(s, actions[0], c);
      RenameTriedAtMostSixTimes(Next(s, actions[0]), actions[1..], c);
    }
  }

  // ---------- why puts end as they do ----------

  /** A failed call of a client, a failure of its source, or a rename, however it went. */
  predicate IsTelling(a: Action, c: nat) {
    match a
    case OpenTemp(d, ok) => d == c && !ok
    case SourceFails(d) => d == c
    case WriteFails(d) => d == c
    case Sync(d, ok) => d == c && !ok
    case Rename(d, _) => d == c
    case _ => false
  }

  function Told(actions: seq<Action>, c: nat): seq<Action> {
    if actions == [] then []
    else (if IsTelling(actions[0], c) then [actions[0]] else []) + Told(actions[1..], c)
  }

  lemma {:induction false} ToldConcat(actions: seq<Action>, more: seq<Action>, c: nat)
    ensures Told(actions + more, c) == Told(actions, c) + Told(more, c)
  {
    hide IsTelling;
    if actions == [] {
      assert actions + more == more;
    } else {
      ToldConcat(actions[1..], more, c);
      HeadOfAppend(actions, more);
      AppendAssociative(if IsTelling(actions[0], c) then [actions[0]] else [], Told(actions[1..], c), Told(more, c));
    }
  }

  /** The put had to be broken off before its rename. */
  predicate IsBrokenOff(told: seq<Action>, c: nat) {
    told == [SourceFails(c)] || told == [WriteFails(c)] || told == [Sync(c, false)]
  }

  /** Renames that failed for now, and nothing else. */
  predicate AreTransient(told: seq<Action>, c: nat) { forall a <- told :: a == Rename(c, Transient) }

  /** Every rename but the last failed for now; this is how the last one went. */
  predicate EndsIn(told: seq<Action>, c: nat, outcome: RenameOutcome) {
    told != [] && AreTransient(told[..|told| - 1], c) && told[|told| - 1] == Rename(c, outcome)
  }

  /** The last rename failed for good, or the sixth one failed as the others did. */
  predicate IsGivenUp(told: seq<Action>, c: nat) {
    |told| <= 6 && (EndsIn(told, c, Fatal) || (|told| == 6 && AreTransient(told, c)))
  }

  /** What a put has been told, phase by phase. */
  ghost predicate IsTold(s: State, c: nat, told: seq<Action>) {
    if !PutIn(s, c) then told == []
    else match s.clients[c].phase
      case Renaming(attempt) => |told| == attempt < 6 && AreTransient(told, c)
      case Stored => |told| <= 6 && EndsIn(told, c, Renamed)
      case Removing => IsBrokenOff(told, c) || IsGivenUp(told, c)
      case Failed => told == [OpenTemp(c, false)] || IsBrokenOff(told, c) || IsGivenUp(told, c)
      case _ => told == []
  }

  lemma ActorIsTold(s: State, a: Action, c: nat, told: seq<Action>)
    requires Enabled(s, a) && ActsFor(a, c) && !a.Crash? && IsTold(s, c, told)
    ensures IsTold(Next(s, a), c, told + (if IsTelling(a, c) then [a] else []))
  {
    hide IsKey, Split, Ancestors, IsBelowFile, TempLocation;
    assert told + [] == told;
    if a.Rename? {
      assert (told + [a])[..|told|] == told;
    } else if a.Sync? || a.OpenTemp? || a.SourceFails? || a.WriteFails? {
      assert told == [];
    }
  }

  lemma StepIsTold(s: State, a: Action, c: nat, told: seq<Action>)
    requires Enabled(s, a) && a != Crash(c) && IsTold(s, c, told)
    ensures IsTold(Next(s, a), c, told + Told([a], c))
  {
    hide Next, Enabled, IsTold;
    assert Told([a], c) == if IsTelling(a, c) then [a] else [];
    assert told + [] == told;
    if ActsFor(a, c) { ActorIsTold(s, a, c, told); } else { OtherIsTold(s, a, c, told); }
  }

  lemma OtherIsTold(s: State, a: Action, c: nat, told: seq<Action>)
    requires Enabled(s, a) && !ActsFor(a, c) && IsTold(s, c, told)
    ensures IsTold(Next(s, a), c, told) && !IsTelling(a, c)
  {
    hide Next, Enabled, IsBrokenOff, IsGivenUp, AreTransient, EndsIn;
    OthersKept(s, a, c);
  }

  lemma ToldNothing(c: nat)
    ensures Told([], c) == []
  {}

  lemma NobodyIsTold(c: nat)
    ensures IsTold(EMPTY, c, [])
  {}

  lemma {:induction false} RunIsTold(s: State, actions: seq<Action>, c: nat, told: seq<Action>)
    requires IsRun(s, actions) && Crash(c) !in actions && IsTold(s, c, told)
    ensures IsTold(Run(s, actions), c, told + Told(actions, c))
    decreases actions
  {
    hide Next, Enabled, IsTold, Told;
    if actions == [] {
      ToldNothing(c);
      assert told + Told(actions, c) == told;
    } else {
      StepIsTold(s, actions[0], c, told);
      ToldConcat([actions[0]], actions[1..], c);
      assert [actions[0]] + actions[1..] == actions;
      RunIsTold(Next(s, actions[0]), actions[1..], c, told + Told([actions[0]], c));
      assert told + Told([actions[0]], c) + Told(actions[1..], c) == told + Told(actions, c);
    }
  }

  lemma ToldMeans(s: State, c: nat, told: seq<Action>)
    requires PutIn(s, c) && IsTold(s, c, told)
    ensures var phase := s.clients[c].phase;
      && (phase.Stored? <==> EndsIn(told, c, Renamed))
      && (phase.Removing? ==> IsBrokenOff(told, c) || IsGivenUp(told, c))
      && (phase.Failed? ==> told == [OpenTemp(c, false)] || IsBrokenOff(told, c) || IsGivenUp(told, c))
      && (phase.Renaming? ==> |told| < 6 && AreTransient(told, c))
      && (IsGivenUp(told, c) ==> phase.Removing? || phase.Failed?)
  {
    if told != [] { assert told[|told| - 1] in told; }
  }

  /**
   * In every run a put removes its temp file, or has failed, only because opening, its source, a write
   * or the sync failed, or because a rename failed for good or six of them failed for now; it goes on
   * renaming after fewer; and it has stored its file exactly after a rename that succeeded.
   */
  lemma PutsEndAsTold(actions: seq<Action>, c: nat)
    requires IsRun(EMPTY, actions) && Crash(c) !in actions && PutIn(Run(EMPTY, actions), c)
    ensures var phase, told := Run(EMPTY, actions).clients[c].phase, Told(actions, c);
      && (phase.Stored? <==> EndsIn(told, c, Renamed))
      && (phase.Removing? ==> IsBrokenOff(told, c) || IsGivenUp(told, c))
      && (phase.Failed? ==> told == [OpenTemp(c, false)] || IsBrokenOff(told, c) || IsGivenUp(told, c))
      && (phase.Renaming? ==> |told| < 6 && AreTransient(told, c))
      && (IsGivenUp(told, c) ==> phase.Removing? || phase.Failed?)
  {
    hide Run, IsRun, IsTold, Told, IsBrokenOff, IsGivenUp, AreTransient, EndsIn;
    NobodyIsTold(c);
    RunIsTold(EMPTY, actions, c, []);
    assert [] + Told(actions, c) == Told(actions, c);
    ToldMeans(Run(EMPTY, actions), c, Told(actions, c));
  }
}
