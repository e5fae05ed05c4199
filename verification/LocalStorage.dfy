/**
 * The body of `LocalArtifactStorage` as one caller runs it (packages/artifacts/src/local-storage.ts):
 * temp names, the nested write loop with partial writes, the rename loop, and cleanup on every exit.
 * Each file-system call may fail, or do less than asked, as it likes.
 */
module LocalStorage {
  import opened Wrappers
  import opened JsText
  import opened StorageKeys
  import opened ByteStreams
  import Store = ArtifactStore

  // ---------- temp names ----------

  function Decimal(n: nat): (s: Text)
    ensures s != [] && forall c <- s :: IsDigit(c)
  {
    if n < 10 then ['0' as int + n] else Decimal(n / 10) + ['0' as int + n % 10]
  }

  function Value(s: Text): int {
    if s == [] then 0 else 10 * Value(s[..|s| - 1]) + (s[|s| - 1] - '0' as int)
  }

  lemma {:induction false} ValueOfDecimal(n: nat)
    ensures Value(Decimal(n)) == n
  {
    if n < 10 {
      assert Decimal(n)[..0] == [];
    } else {
      ValueOfDecimal(n / 10);
      assert Decimal(n)[..|Decimal(n)| - 1] == Decimal(n / 10);
    }
  }

  const TMP: Text := [DOT, 't' as int, 'm' as int, 'p' as int]
  const PART: Text := [DOT, 'p' as int, 'a' as int, 'r' as int, 't' as int]

  function TempName(pid: nat, counter: nat, random: Text): (name: Text)
    ensures Store.IsTempName(name)
  {
    TMP + [HYPHEN] + (Decimal(pid) + [HYPHEN] + (Decimal(counter) + [HYPHEN] + (random + PART)))
  }

  lemma TempNameIs(pid: nat, counter: nat, random: Text)
    ensures TempName(pid, counter, random) ==
      Lit(".tmp-") + Decimal(pid) + Lit("-") + Decimal(counter) + Lit("-") + random + Lit(".part")
  {
    hide Decimal;
    assert Lit(".tmp-") == TMP + [HYPHEN] && Lit("-") == [HYPHEN] && Lit(".part") == PART;
  }

  lemma TempNameParts(pid: nat, counter: nat, random: Text)
    ensures |Split(TempName(pid, counter, random), HYPHEN)| > 2
    ensures Split(TempName(pid, counter, random), HYPHEN)[2] == Decimal(counter)
  {
    var rest2 := random + PART;
    var rest1 := Decimal(counter) + [HYPHEN] + rest2;
    var rest0 := Decimal(pid) + [HYPHEN] + rest1;
    assert HYPHEN !in Decimal(pid) && HYPHEN !in Decimal(counter);
    SplitAt(TMP, rest0, HYPHEN);
    SplitAt(Decimal(pid), rest1, HYPHEN);
    SplitAt(Decimal(counter), rest2, HYPHEN);
  }

  /** Two puts of one process never share a temp name, whatever the random parts are. */
  lemma TempNamesDistinct(pid: nat, a: nat, b: nat, randomA: Text, randomB: Text)
    requires a != b
    ensures TempName(pid, a, randomA) != TempName(pid, b, randomB)
  {
    TempNameParts(pid, a, randomA);
    TempNameParts(pid, b, randomB);
    ValueOfDecimal(a);
    ValueOfDecimal(b);
  }

  ghost predicate IsNameUpTo(pid: nat, last: nat, name: Text) {
    exists counter: nat, random: Text :: counter <= last && name == TempName(pid, counter, random)
  }

  /** A temp file never lies where a valid key does. */
  lemma TempIsNoKey(key: Text, other: Text, pid: nat, counter: nat, random: Text)
    requires IsKey(key) && IsKey(other)
    ensures Store.TempLocation(key, TempName(pid, counter, random)) != Store.Target(other)
  {
    Store.TargetIsNotTemp(other);
    var l := Store.TempLocation(key, TempName(pid, counter, random));
    assert l[|l| - 1] == TempName(pid, counter, random);
  }

  // ---------- what a client has been told ----------

  /** What was recorded since is of one client, and the directories of its put. */
  ghost predicate AreOf(c: nat, since: seq<Store.Action>, history: seq<Store.Action>) {
    && since <= history
    && forall i | |since| <= i < |history| :: Store.ActsFor(history[i], c) || history[i].Mkdir?
  }

  /** The failures and renames of a client that were recorded since. */
  ghost function ToldSince(c: nat, since: seq<Store.Action>, history: seq<Store.Action>): seq<Store.Action> {
    if since <= history then Store.Told(history[|since|..], c) else []
  }

  lemma ToldNow(history: seq<Store.Action>, c: nat)
    ensures AreOf(c, history, history) && ToldSince(c, history, history) == []
  {}

  lemma ToldNext(since: seq<Store.Action>, history: seq<Store.Action>, a: Store.Action, c: nat)
    requires AreOf(c, since, history) && (Store.ActsFor(a, c) || a.Mkdir?)
    ensures AreOf(c, since, history + [a])
    ensures ToldSince(c, since, history + [a]) ==
      if Store.IsTelling(a, c) then ToldSince(c, since, history) + [a] else ToldSince(c, since, history)
  {
    assert [a][1..] == [];
    Store.ToldConcat(history[|since|..], [a], c);
    assert (history + [a])[|since|..] == history[|since|..] + [a];
  }

  lemma ToldRemoval(since: seq<Store.Action>, history: seq<Store.Action>, c: nat, ok: bool)
    requires AreOf(c, since, history)
    ensures var later := history + [Store.RemoveTemp(c, ok)];
      AreOf(c, since, later) && ToldSince(c, since, later) == ToldSince(c, since, history)
  {
    ToldNext(since, history, Store.RemoveTemp(c, ok), c);
  }

  lemma ToldOpening(history: seq<Store.Action>, c: nat, ok: bool)
    ensures var later := history + [Store.OpenTemp(c, ok)];
      AreOf(c, history, later) && ToldSince(c, history, later) == if ok then [] else [Store.OpenTemp(c, ok)]
  {
    ToldNow(history, c);
    ToldNext(history, history, Store.OpenTemp(c, ok), c);
  }

  lemma ToldAcross(since: seq<Store.Action>, between: seq<Store.Action>, history: seq<Store.Action>, c: nat)
    requires AreOf(c, since, between) && AreOf(c, between, history) && ToldSince(c, since, between) == []
    ensures AreOf(c, since, history) && ToldSince(c, since, history) == ToldSince(c, between, history)
  {
    Store.ToldConcat(between[|since|..], history[|between|..], c);
    assert history[|since|..] == between[|since|..] + history[|between|..];
  }

  /** What a put has been told when it returns this. */
  ghost predicate ToldMatches(c: nat, told: seq<Store.Action>, source: Stream, r: Result<PutResult, PutError>)
    requires source.Chunks?
  {
    match r
    case Ok(_) => |told| <= 6 && Store.EndsIn(told, c, Store.Renamed)
    case Err(NotFinalized) => Store.IsGivenUp(told, c)
    case Err(WriteFailed) => Store.IsBrokenOff(told, c) && (told[0].SourceFails? ==> source.fails)
    case Err(NoTempFile) => told == [Store.OpenTemp(c, false)]
    case Err(_) => told == []
  }

  // ---------- the storage object ----------

  lemma TempLocationIsTemp(key: Text, name: Text)
    requires Store.IsTempName(name)
    ensures Store.IsTemp(Store.TempLocation(key, name))
  {
    var temp := Store.TempLocation(key, name);
    assert temp[|temp| - 1] == name;
  }

  lemma ViewKeys(s: Store.State)
    requires Store.Inv(s)
    ensures Store.View(s).Keys == s.names.Keys
  {}

  datatype PutError = BadKey(error: KeyError) | NoDirectory | NoTempFile | WriteFailed | NotFinalized

  datatype PutResult = PutResult(contentHash: Text, sizeBytes: nat)

  /** What `get`, `exists` and `delete` throw: a bad key, or a lookup that failed other than with ENOENT. */
  datatype AccessError = InvalidKey(error: KeyError) | AccessFailed

  /**
   * The class keeps, as ghosts, the state of the store and the run that led to it, so that whatever holds
   * of all runs holds of its files.
   */
  class LocalArtifactStorage {
    const pid: nat
    var files: map<Store.Location, Bytes>
    var directories: set<Store.Location>
    var tempCounter: nat
    // Every temp name given out.
    ghost var issued: set<Text>
    ghost var store: Store.State
    ghost var history: seq<Store.Action>
    // The number of the next client.
    ghost var next: nat

    /** The fields show a state that the store can reach. */
    ghost predicate Mirrors()
      reads this
    {
      && Store.IsRun(Store.EMPTY, history) && Store.Run(Store.EMPTY, history) == store && Store.Inv(store)
      && files == Store.View(store) && directories == store.directories
      && forall c <- store.clients :: c < next
    }

    ghost predicate Valid()
      reads this
    {
      Mirrors() && forall name <- issued :: IsNameUpTo(pid, tempCounter, name)
    }

    constructor (pid: nat)
      ensures Valid() && files == map[] && directories == {} && tempCounter == 0
      ensures issued == {} && history == [] && this.pid == pid
    {
      this.pid := pid;
      files, directories, tempCounter, issued := map[], {}, 0, {};
      store, history, next := Store.EMPTY, [], 0;
      Store.EmptyOk();
    }

    /** What holds of all runs holds here: a file at a key is the whole content of the last put on it. */
    lemma FileIsLastPut(key: Text)
      requires Valid() && IsKey(key) && Store.Target(key) in files
      ensures Store.LastIsPut(Store.Effects(Store.EMPTY, history), key, files[Store.Target(key)])
    {
      hide Store.Inv, Store.LastIsPut, Store.IsRun, Store.Run, Store.Effects, IsKey, Split;
      Store.StoredFileIsOnePut(history, key);
    }

    /** The put of client `c` is in this phase. */
    ghost predicate IsPutting(c: nat, key: Text, temp: Store.Location, hashed: Bytes, phase: Store.PutPhase)
      reads this`store
    {
      && c in store.clients && store.clients[c].Put?
      && var p := store.clients[c];
        && p.key == key && p.temp == temp && p.hashed == hashed && p.sizeBytes == |hashed| && p.phase == phase
    }

    /** One more action of the run. */
    ghost method Record(a: Store.Action)
      requires Store.IsRun(Store.EMPTY, history) && Store.Run(Store.EMPTY, history) == store
      requires Store.Inv(store) && Store.Enabled(store, a)
      modifies this`store, this`history
      ensures store == Store.Next(old(store), a) && history == old(history) + [a]
      ensures Store.IsRun(Store.EMPTY, history) && Store.Run(Store.EMPTY, history) == store && Store.Inv(store)
      ensures Store.View(store) == Store.ViewAfter(old(store), a)
    {
      hide Store.Next, Store.Enabled, Store.Inv, Store.View, Store.ViewAfter;
      Store.RunMore(Store.EMPTY, history, a);
      Store.StepKeepsInv(store, a);
      Store.ViewOfNext(store, a);
      store, history := Store.Next(store, a), history + [a];
    }

    /** A name that was never given out before, whatever the random part. */
    method TempFileName(random: Text) returns (name: Text)
      requires Valid()
      modifies this`tempCounter, this`issued
      ensures Valid() && tempCounter == old(tempCounter) + 1
      ensures name !in old(issued) && issued == old(issued) + {name}
      ensures Store.IsTempName(name)
    {
      hide Store.IsRun, Store.Run, Store.Inv, Store.View;
      tempCounter := tempCounter + 1;
      name := TempName(pid, tempCounter, random);
      forall used | used in issued ensures used != name && IsNameUpTo(pid, tempCounter, used) {
        var counter: nat, r: Text :| counter <= old(tempCounter) && used == TempName(pid, counter, r);
        TempNamesDistinct(pid, counter, tempCounter, r, random);
      }
      issued := issued + {name};
    }

    // ---------- file-system calls, with every outcome they can have ----------

    /** Creates the directories down to the file of a key, or some of them when it fails. */
    method MakeDirectories(ghost c: nat, key: Text) returns (ok: bool)
      requires Valid() && IsKey(key)
      modifies this`directories, this`store, this`history
      ensures Valid() && old(directories) <= directories <= old(directories) + Store.Ancestors(Store.Target(key))
      ensures store.abandoned == old(store.abandoned)
      ensures ok ==> directories == old(directories) + Store.Ancestors(Store.Target(key))
      ensures Store.IsBelowFile(files.Keys, key) ==>
        !ok && directories == old(directories) && history == old(history)
      ensures AreOf(c, old(history), history) && ToldSince(c, old(history), history) == []
      ensures !Store.IsBelowFile(files.Keys, key) ==>
        exists made :: history == old(history) + [Store.Mkdir(key, made)]
                       && (ok <==> made == Store.Ancestors(Store.Target(key)))
    {
      hide Store.IsRun, Store.Run, Store.Inv, IsKey, Split, Store.Ancestors, AreOf, ToldSince;
      ToldNow(history, c);
      if Store.IsBelowFile(files.Keys, key) { return false; }
      assert store.names.Keys == files.Keys by { ViewKeys(store); }
      var made: set<Store.Location> :| made <= Store.Ancestors(Store.Target(key));
      ok := made == Store.Ancestors(Store.Target(key));
      Record(Store.Mkdir(key, made));
      ToldNext(old(history), old(history), Store.Mkdir(key, made), c);
      directories := directories + made;
    }

    method OpenExclusive(ghost c: nat, ghost key: Text, path: Store.Location) returns (ok: bool)
      requires Valid() && IsPutting(c, key, path, [], Store.Opening)
      modifies this`files, this`store, this`history
      ensures Valid() && history == old(history) + [Store.OpenTemp(c, ok)]
      ensures store.abandoned == old(store.abandoned)
      ensures ok ==> path !in old(files) && path !in directories && files == old(files)[path := []]
      ensures ok ==> IsPutting(c, key, path, [], Store.Reading)
      ensures !ok ==> files == old(files) && IsPutting(c, key, path, [], Store.Failed)
    {
      hide Store.IsRun, Store.Run, Store.Inv;
      assert store.names.Keys == files.Keys by { ViewKeys(store); }
      ok := *;
      if path in files || path in directories { ok := false; }
      Record(Store.OpenTemp(c, ok));
      if ok { files := files[path := []]; }
    }

    ghost method RecordWrite(
      c: nat, key: Text, path: Store.Location, hashed: Bytes, buffer: Bytes, offset: nat, count: nat)
      requires Mirrors() && offset < |buffer| && 0 < count <= |buffer| - offset
      requires IsPutting(c, key, path, hashed, Store.Writing(buffer, offset))
      modifies this`store, this`history
      ensures Store.IsRun(Store.EMPTY, history) && Store.Run(Store.EMPTY, history) == store && Store.Inv(store)
      ensures path in files && Store.View(store) == files[path := files[path] + buffer[offset..offset + count]]
      ensures store.directories == old(store.directories) && store.abandoned == old(store.abandoned)
      ensures store.clients.Keys == old(store.clients).Keys
      ensures history == old(history) + [Store.Write(c, count)]
      ensures IsPutting(c, key, path, hashed, Store.AfterWrite(buffer, offset + count))
    {
      hide Store.IsRun, Store.Run, Store.Inv, Store.View;
      Store.OwnerHasTemp(store, c);
      Record(Store.Write(c, count));
    }

    ghost method RecordFailure(c: nat, key: Text, path: Store.Location, hashed: Bytes, buffer: Bytes, offset: nat)
      requires Mirrors() && offset < |buffer| && IsPutting(c, key, path, hashed, Store.Writing(buffer, offset))
      modifies this`store, this`history
      ensures Mirrors() && store.abandoned == old(store.abandoned)
      ensures history == old(history) + [Store.WriteFails(c)]
      ensures IsPutting(c, key, path, hashed, Store.Removing)
    {
      hide Store.IsRun, Store.Run, Store.Inv, Store.View;
      Record(Store.WriteFails(c));
    }

    /** A write that throws, or takes nothing, ends the put; any other takes some of the chunk. */
    method Write(
      ghost c: nat, ghost key: Text, path: Store.Location, ghost hashed: Bytes, buffer: Bytes, offset: nat)
      returns (ok: bool, bytesWritten: nat)
      requires Valid() && offset < |buffer| && IsPutting(c, key, path, hashed, Store.Writing(buffer, offset))
      modifies this`files, this`store, this`history
      ensures Valid() && path in old(files) && bytesWritten <= |buffer| - offset
      ensures store.abandoned == old(store.abandoned)
      ensures ok ==> bytesWritten > 0 && history == old(history) + [Store.Write(c, bytesWritten)]
      ensures ok ==> files == old(files)[path := old(files)[path] + buffer[offset..offset + bytesWritten]]
      ensures ok ==> IsPutting(c, key, path, hashed, Store.AfterWrite(buffer, offset + bytesWritten))
      ensures !ok ==> files == old(files) && history == old(history) + [Store.WriteFails(c)]
      ensures !ok ==> IsPutting(c, key, path, hashed, Store.Removing)
    {
      hide Store.IsRun, Store.Run, Store.Inv, Store.View, Store.Next, Store.Enabled;
      Store.OwnerHasTemp(store, c);
      var threw: bool := *;
      bytesWritten :| bytesWritten <= |buffer| - offset;
      ok := !threw && bytesWritten > 0;
      if ok {
        RecordWrite(c, key, path, hashed, buffer, offset, bytesWritten);
        files := files[path := files[path] + buffer[offset..offset + bytesWritten]];
      } else {
        RecordFailure(c, key, path, hashed, buffer, offset);
      }
    }

    method Rename(
      ghost c: nat, ghost key: Text, from: Store.Location, to: Store.Location, ghost hashed: Bytes, ghost attempt: nat)
      returns (outcome: Store.RenameOutcome)
      requires Valid() && to == Store.Target(key) && IsPutting(c, key, from, hashed, Store.Renaming(attempt))
      modifies this`files, this`store, this`history
      ensures Valid() && from in old(files) && history == old(history) + [Store.Rename(c, outcome)]
      ensures store.abandoned == old(store.abandoned)
      ensures outcome.Renamed? ==>
        && to !in directories && files == (old(files) - {from})[to := old(files)[from]]
        && IsPutting(c, key, from, hashed, Store.Stored)
      ensures !outcome.Renamed? ==>
        && files == old(files)
        && IsPutting(c, key, from, hashed,
            if outcome.Transient? && attempt < Store.LAST_ATTEMPT then Store.Renaming(attempt + 1) else Store.Removing)
    {
      hide Store.IsRun, Store.Run, Store.Inv, Split;
      Store.OwnerHasTemp(store, c);
      outcome := *;
      if to in directories { outcome := Store.Fatal; }
      Record(Store.Rename(c, outcome));
      if outcome.Renamed? { files := (files - {from})[to := files[from]]; }
    }

    method RemoveQuietly(ghost c: nat, ghost key: Text, path: Store.Location, ghost hashed: Bytes) returns (ok: bool)
      requires Valid() && IsPutting(c, key, path, hashed, Store.Removing)
      modifies this`files, this`store, this`history
      ensures Valid() && history == old(history) + [Store.RemoveTemp(c, ok)]
      ensures files == if ok then old(files) - {path} else old(files)
      ensures store.abandoned == if ok then old(store.abandoned) else old(store.abandoned) + {path}
      ensures IsPutting(c, key, path, hashed, Store.Failed)
    {
      hide Store.IsRun, Store.Run, Store.Inv;
      ok := *;
      Record(Store.RemoveTemp(c, ok));
      if ok { files := files - {path}; }
    }

    // ---------- the loops ----------

    /** Writes one chunk, however little each call takes. */
    method WriteChunk(
      ghost c: nat, ghost key: Text, path: Store.Location, ghost hashed: Bytes, buffer: Bytes) returns (ok: bool)
      requires Valid() && path in files && IsPutting(c, key, path, hashed, Store.AfterWrite(buffer, 0))
      modifies this`files, this`store, this`history
      ensures Valid() && AreOf(c, old(history), history) && store.abandoned == old(store.abandoned)
      ensures path in files && files.Keys == old(files).Keys
      ensures files - {path} == old(files) - {path}
      ensures ok ==> files[path] == old(files)[path] + buffer
      ensures ToldSince(c, old(history), history) == if ok then [] else [Store.WriteFails(c)]
      ensures IsPutting(c, key, path, hashed, if ok then Store.Reading else Store.Removing)
    {
      hide Store.IsRun, Store.Run, Store.Inv, Store.View, AreOf, ToldSince;
      var offset := 0;
      ToldNow(history, c);
      assert files[path] + buffer[..0] == files[path];
      while offset < |buffer|
        invariant offset <= |buffer| && Valid() && AreOf(c, old(history), history)
        invariant store.abandoned == old(store.abandoned)
        invariant path in files && files == old(files)[path := old(files)[path] + buffer[..offset]]
        invariant ToldSince(c, old(history), history) == []
        invariant IsPutting(c, key, path, hashed, Store.AfterWrite(buffer, offset))
      {
        ghost var before := history;
        var written, bytesWritten := Write(c, key, path, hashed, buffer, offset);
        ToldNext(old(history), before, history[|before|], c);
        if !written { return false; }
        assert buffer[..offset] + buffer[offset..offset + bytesWritten] == buffer[..offset + bytesWritten];
        AppendAssociative(old(files)[path], buffer[..offset], buffer[offset..offset + bytesWritten]);
        offset := offset + bytesWritten;
      }
      assert buffer[..offset] == buffer;
      return true;
    }

    /** Renames with bounded retries on transient failures; `tries` counts the calls. */
    method RenameWithRetry(
      ghost c: nat, ghost key: Text, from: Store.Location, to: Store.Location, ghost hashed: Bytes)
      returns (ok: bool, tries: nat)
      requires Valid() && to == Store.Target(key) && IsPutting(c, key, from, hashed, Store.Renaming(0))
      modifies this`files, this`store, this`history
      ensures Valid() && AreOf(c, old(history), history) && from in old(files)
      ensures store.abandoned == old(store.abandoned)
      ensures var told := ToldSince(c, old(history), history);
        |told| == tries <= 6 && if ok then Store.EndsIn(told, c, Store.Renamed) else Store.IsGivenUp(told, c)
      ensures ok ==> to !in directories && files == (old(files) - {from})[to := old(files)[from]]
      ensures ok ==> history != [] && history[|history| - 1] == Store.Rename(c, Store.Renamed)
      ensures !ok ==> files == old(files)
      ensures IsPutting(c, key, from, hashed, if ok then Store.Stored else Store.Removing)
    {
      hide Store.IsRun, Store.Run, Store.Inv, Store.View, Split, Store.Target, Mirrors, Valid, AreOf, ToldSince;
      var delaysMs := [5, 15, 40, 100, 250];
      var attempt := 0;
      tries := 0;
      ToldNow(history, c);
      while true
        invariant attempt == tries <= |delaysMs|
        invariant files == old(files) && Valid() && AreOf(c, old(history), history)
        invariant store.abandoned == old(store.abandoned)
        invariant |ToldSince(c, old(history), history)| == tries
        invariant Store.AreTransient(ToldSince(c, old(history), history), c)
        invariant IsPutting(c, key, from, hashed, Store.Renaming(attempt))
        decreases |delaysMs| - attempt
      {
        ghost var before := history;
        var outcome := Rename(c, key, from, to, hashed, attempt);
        ToldNext(old(history), before, Store.Rename(c, outcome), c);
        tries := tries + 1;
        if outcome.Renamed? { return true, tries; }
        if outcome.Fatal? || attempt >= |delaysMs| { return false, tries; }
        attempt := attempt + 1;
      }
    }

    ghost method RecordChunk(c: nat, key: Text, temp: Store.Location, hashed: Bytes, buffer: Bytes)
      requires Valid() && IsPutting(c, key, temp, hashed, Store.Reading)
      modifies this`store, this`history
      ensures Valid() && history == old(history) + [Store.NextChunk(c, buffer)]
      ensures store.abandoned == old(store.abandoned)
      ensures IsPutting(c, key, temp, hashed + buffer, Store.AfterWrite(buffer, 0))
    {
      hide Store.IsRun, Store.Run, Store.Inv, Store.View;
      Record(Store.NextChunk(c, buffer));
    }

    /** The source fails, or it ends and the file is synced, or not. */
    ghost method RecordEnd(c: nat, key: Text, temp: Store.Location, hashed: Bytes, fails: bool, synced: bool)
      requires Valid() && IsPutting(c, key, temp, hashed, Store.Reading)
      modifies this`store, this`history
      ensures Valid() && store.abandoned == old(store.abandoned)
      ensures history == old(history) + (
        if fails then [Store.SourceFails(c)] else [Store.SourceEnds(c)] + [Store.Sync(c, synced)])
      ensures IsPutting(c, key, temp, hashed, if !fails && synced then Store.Renaming(0) else Store.Removing)
    {
      hide Store.IsRun, Store.Run, Store.Inv, Store.View;
      if fails {
        Record(Store.SourceFails(c));
      } else {
        Record(Store.SourceEnds(c));
        Record(Store.Sync(c, synced));
      }
    }

    /** The loop over the source, and the sync: everything that is read is hashed, counted and written. */
    method Fill(ghost c: nat, ghost key: Text, temp: Store.Location, source: Stream)
      returns (ok: bool, hashed: Bytes, sizeBytes: nat)
      requires Valid() && source.Chunks? && temp in files && files[temp] == []
      requires IsPutting(c, key, temp, [], Store.Reading)
      modifies this`files, this`store, this`history
      ensures Valid() && AreOf(c, old(history), history) && store.abandoned == old(store.abandoned)
      ensures temp in files && files.Keys == old(files).Keys && files - {temp} == old(files) - {temp}
      ensures ok ==> !source.fails && files[temp] == hashed == Concat(source.chunks) && sizeBytes == |hashed|
      ensures ok ==> ToldSince(c, old(history), history) == []
      ensures !ok ==>
        var told := ToldSince(c, old(history), history);
        Store.IsBrokenOff(told, c) && (told[0].SourceFails? ==> source.fails)
      ensures IsPutting(c, key, temp, hashed, if ok then Store.Renaming(0) else Store.Removing)
    {
      hide Store.IsRun, Store.Run, Store.Inv, Store.View, Store.Next, Store.Enabled, Store.AfterWrite;
      hide AreOf, ToldSince;
      hashed, sizeBytes := [], 0;
      var i := 0;
      ToldNow(history, c);
      while i < |source.chunks|
        invariant i <= |source.chunks| && Valid() && AreOf(c, old(history), history)
        invariant store.abandoned == old(store.abandoned)
        invariant temp in files && files.Keys == old(files).Keys && files - {temp} == old(files) - {temp}
        invariant files[temp] == hashed == Concat(source.chunks[..i]) && sizeBytes == |hashed|
        invariant ToldSince(c, old(history), history) == []
        invariant IsPutting(c, key, temp, hashed, Store.Reading)
      {
        var buffer := source.chunks[i];
        ghost var before := history;
        RecordChunk(c, key, temp, hashed, buffer);
        ToldNext(old(history), before, Store.NextChunk(c, buffer), c);
        ghost var between := history;
        hashed := hashed + buffer;
        sizeBytes := sizeBytes + |buffer|;
        var written := WriteChunk(c, key, temp, hashed, buffer);
        ToldAcross(old(history), between, history, c);
        if !written { return false, hashed, sizeBytes; }
        i := i + 1;
        assert source.chunks[..i][..i - 1] == source.chunks[..i - 1];
      }
      assert source.chunks[..i] == source.chunks;
      var synced: bool := *;
      ghost var before := history;
      RecordEnd(c, key, temp, hashed, source.fails, synced);
      if source.fails {
        ToldNext(old(history), before, Store.SourceFails(c), c);
      } else {
        ToldNext(old(history), before, Store.SourceEnds(c), c);
        ToldNext(old(history), before + [Store.SourceEnds(c)], Store.Sync(c, synced), c);
        assert history == before + [Store.SourceEnds(c)] + [Store.Sync(c, synced)];
      }
      return !source.fails && synced, hashed, sizeBytes;
    }

    /** The rest of a put, from the opening of its temp file on, with cleanup on every exit. */
    method PutVia(ghost c: nat, key: Text, temp: Store.Location, source: Stream, digest: Bytes -> Text)
      returns (r: Result<PutResult, PutError>)
      requires Valid() && source.Chunks? && IsPutting(c, key, temp, [], Store.Opening)
      modifies this`files, this`store, this`history
      ensures Valid() && AreOf(c, old(history), history)
      ensures r.Ok? ==>
        && !source.fails && Store.Target(key) !in directories
        && files == old(files)[Store.Target(key) := Concat(source.chunks)]
        && r.value == PutResult(digest(Concat(source.chunks)), |Concat(source.chunks)|)
        && history != [] && history[|history| - 1] == Store.Rename(c, Store.Renamed)
        && store.abandoned == old(store.abandoned)
      ensures r.Err? ==>
        && !r.error.BadKey? && !r.error.NoDirectory?
        && (|| (files == old(files) && store.abandoned == old(store.abandoned))
            || (store.abandoned == old(store.abandoned) + {temp} && files - {temp} == old(files)))
      ensures ToldMatches(c, ToldSince(c, old(history), history), source, r)
    {
      hide Mirrors, Valid, IsPutting, Split, Concat, Store.Target, Store.IsTelling, AreOf, ToldSince;
      hide Store.EndsIn, Store.IsGivenUp, Store.IsBrokenOff;
      var created := OpenExclusive(c, key, temp);
      ToldOpening(old(history), c, created);
      if !created { return Err(NoTempFile); }
      ghost var start := history;
      assert files - {temp} == old(files);
      var filled, hashed, sizeBytes := Fill(c, key, temp, source);
      ToldAcross(old(history), start, history, c);
      ghost var written := history;
      if !filled {
        var removed := RemoveQuietly(c, key, temp, hashed);
        ToldRemoval(old(history), written, c, removed);
        return Err(WriteFailed);
      }
      var renamed, tries := RenameWithRetry(c, key, temp, Store.Target(key), hashed);
      ToldAcross(old(history), written, history, c);
      ghost var tried := history;
      if !renamed {
        var removed := RemoveQuietly(c, key, temp, hashed);
        ToldRemoval(old(history), tried, c, removed);
        return Err(NotFinalized);
      }
      return Ok(PutResult(digest(hashed), sizeBytes));
    }

    /** A new client of the store, whose directories have been made. */
    ghost method Begin(key: Text, name: Text)
      requires Valid() && IsKey(key) && Store.IsTempName(name) && !Store.IsBelowFile(files.Keys, key)
      requires Store.Ancestors(Store.Target(key)) <= directories
      modifies this`store, this`history, this`next
      ensures Valid() && next == old(next) + 1
      ensures store.abandoned == old(store.abandoned)
      ensures history == old(history) + [Store.StartPut(old(next), key, name)]
      ensures IsPutting(old(next), key, Store.TempLocation(key, name), [], Store.Opening)
    {
      hide Store.IsRun, Store.Run, Store.Inv, IsKey, Split;
      assert store.names.Keys == files.Keys by { ViewKeys(store); }
      Record(Store.StartPut(next, key, name));
      next := next + 1;
    }

    /**
     * `put` with no other client in between: it stores the concatenation of everything the source
     * yielded and reports its digest and size, or it fails and changes no file, unless removing the
     * temp file fails too. All it does is a run of one new client of the store.
     */
    method Put(key: Text, source: Stream, random: Text, digest: Bytes -> Text) returns (r: Result<PutResult, PutError>)
      requires Valid() && source.Chunks?
      modifies this
      ensures Valid() && AreOf(old(next), old(history), history)
      ensures r.Ok? ==>
        && IsKey(key) && !source.fails
        && !Store.IsBelowFile(old(files).Keys, key) && Store.Target(key) !in old(directories)
        && directories == old(directories) + Store.Ancestors(Store.Target(key))
        && files == old(files)[Store.Target(key) := Concat(source.chunks)]
        && r.value == PutResult(digest(Concat(source.chunks)), |Concat(source.chunks)|)
        && history[|history| - 1] == Store.Rename(old(next), Store.Renamed)
      ensures r.Ok? ==> store.abandoned == old(store.abandoned)
      ensures r.Err? ==>
        || (files == old(files) && store.abandoned == old(store.abandoned))
        || (exists temp :: Store.IsTemp(temp) && store.abandoned == old(store.abandoned) + {temp}
                           && files - {temp} == old(files))
      ensures IsKey(key) ==>
        old(directories) <= directories <= old(directories) + Store.Ancestors(Store.Target(key))
      ensures IsKey(key) && Store.IsBelowFile(old(files).Keys, key) ==>
        r == Err(NoDirectory) && files == old(files) && directories == old(directories)
      ensures ToldMatches(old(next), ToldSince(old(next), old(history), history), source, r)
      ensures r == Err(NoDirectory) && !Store.IsBelowFile(old(files).Keys, key) ==>
        exists made | made != Store.Ancestors(Store.Target(key)) :: history == old(history) + [Store.Mkdir(key, made)]
      ensures !IsKey(key) <==> r.Err? && r.error.BadKey?
      ensures !IsKey(key) ==>
        tempCounter == old(tempCounter) && directories == old(directories) && history == old(history)
    {
      hide Mirrors, Valid, IsPutting, Split, Concat, Validate;
      hide Store.IsBelowFile, Store.Ancestors, Store.Target, Store.TempLocation;
      hide Store.EndsIn, Store.IsGivenUp, Store.IsBrokenOff, AreOf, ToldSince;
      ghost var c := next;
      ToldNow(history, c);
      var valid := Validate(key);
      if valid.Err? { return Err(BadKey(valid.error)); }
      var made := MakeDirectories(c, key);
      if !made { return Err(NoDirectory); }
      var name := TempFileName(random);
      var temp := Store.TempLocation(key, name);
      TempLocationIsTemp(key, name);
      ghost var ready := history;
      Begin(key, name);
      ToldNext(old(history), ready, Store.StartPut(c, key, name), c);
      ghost var begun := history;
      r := PutVia(c, key, temp, source, digest);
      ToldAcross(old(history), begun, history, c);
    }

    /** `exists`: false when nothing, or a directory, is there; an error when a file is in the way. */
    method Exists(key: Text) returns (r: Result<bool, AccessError>)
      requires Valid()
      ensures Validate(key).Err? ==> r == Err(InvalidKey(Validate(key).error))
      ensures IsKey(key) ==>
        && Store.Enabled(store, Store.Exists(key))
        && r == match Store.Respond(store, Store.Exists(key)) case Answer(yes) => Ok(yes) case _ => Err(AccessFailed)
      ensures r == Ok(true) <==> IsKey(key) && Store.Target(key) in files
    {
      hide Store.IsRun, Store.Run, Store.Inv, Split, Store.IsBelowFile;
      assert store.names.Keys == files.Keys by { ViewKeys(store); }
      var valid := Validate(key);
      if valid.Err? { return Err(InvalidKey(valid.error)); }
      if Store.Target(key) in files { return Ok(true); }
      if Store.IsBelowFile(files.Keys, key) { return Err(AccessFailed); }
      return Ok(false);
    }

    /** `delete`: true exactly when a file was removed; directories and files in the way are errors; all else stays. */
    method Delete(key: Text) returns (r: Result<bool, AccessError>)
      requires Valid()
      modifies this`files, this`store, this`history
      ensures Valid() && store.abandoned == old(store.abandoned)
      ensures Validate(key).Err? ==>
        r == Err(InvalidKey(Validate(key).error)) && files == old(files) && history == old(history)
      ensures IsKey(key) ==>
        && Store.Enabled(old(store), Store.Delete(key)) && history == old(history) + [Store.Delete(key)]
        && r == match Store.Respond(old(store), Store.Delete(key))
                case Answer(yes) => Ok(yes)
                case _ => Err(AccessFailed)
      ensures files == if r.Ok? then old(files) - {Store.Target(key)} else old(files)
      ensures r == Ok(true) <==> IsKey(key) && Store.Target(key) in old(files)
    {
      hide Store.IsRun, Store.Run, Store.Inv, Split, Store.IsBelowFile;
      assert store.names.Keys == files.Keys by { ViewKeys(store); }
      var valid := Validate(key);
      if valid.Err? { return Err(InvalidKey(valid.error)); }
      ghost var before := files;
      assert Store.Target(key) !in files ==> files - {Store.Target(key)} == files;
      Record(Store.Delete(key));
      if Store.Target(key) in files {
        files := files - {Store.Target(key)};
        return Ok(true);
      }
      if Store.IsBelowFile(files.Keys, key) || Store.Target(key) in directories { return Err(AccessFailed); }
      return Ok(false);
    }

    /**
     * `get`, read to its end: the stored bytes, in pieces of any size, unless no more than `readable` bytes
     * can be read. A directory gives a stream that fails at once; a file in the way is an error.
     */
    method Get(key: Text, readable: nat) returns (r: Result<Stream, AccessError>)
      requires Valid()
      ensures Validate(key).Err? ==> r == Err(InvalidKey(Validate(key).error))
      ensures IsKey(key) ==>
        && Store.Enabled(store, Store.StartGet(next, key))
        && match Store.Respond(store, Store.StartGet(next, key))
           case Error => r == Err(AccessFailed)
           case NotFound => r == Ok(Absent)
           case _ => r.Ok? && r.value.Chunks?
      ensures IsKey(key) && Store.Target(key) in files ==>
        && r.Ok? && r.value.Chunks?
        && var all, file := Concat(r.value.chunks), files[Store.Target(key)];
          && all <= file && (r.value.fails <==> readable < |file|)
          && all == if r.value.fails then file[..readable] else file
      ensures IsKey(key) && Store.Target(key) !in files && r.Ok? && r.value.Chunks? ==> r.value == Chunks([], true)
    {
      hide Store.IsRun, Store.Run, Store.Inv, Split, Store.IsBelowFile;
      assert store.names.Keys == files.Keys by { ViewKeys(store); }
      var valid := Validate(key);
      if valid.Err? { return Err(InvalidKey(valid.error)); }
      if Store.Target(key) !in files {
        if Store.IsBelowFile(files.Keys, key) { return Err(AccessFailed); }
        if Store.Target(key) in directories { return Ok(Chunks([], true)); }
        return Ok(Absent);
      }
      var whole := files[Store.Target(key)];
      var chunks: seq<Bytes> := [];
      var offset := 0;
      while offset < |whole|
        invariant offset <= |whole| && offset <= readable
        invariant Concat(chunks) == whole[..offset]
      {
        if offset == readable { return Ok(Chunks(chunks, true)); }
        var n: nat :| 0 < n <= |whole| - offset && offset + n <= readable;
        assert (chunks + [whole[offset..offset + n]])[..|chunks|] == chunks;
        chunks := chunks + [whole[offset..offset + n]];
        offset := offset + n;
      }
      assert whole[..offset] == whole;
      return Ok(Chunks(chunks, false));
    }
  }

  /** What was put is what a capped read returns, exactly if all of it can be read and it fits. */
  method PutThenRead(
    storage: LocalArtifactStorage, key: Text, source: Stream, random: Text, digest: Bytes -> Text, maxBytes: int,
    readable: nat)
    returns (put: Result<PutResult, PutError>, loaded: Result<Bytes, LoadError>)
    requires storage.Valid() && source.Chunks? && maxBytes > 0
    modifies storage
    ensures storage.Valid()
    ensures put.Ok? && loaded.Ok? ==> loaded.value == Concat(source.chunks)
    ensures put.Ok? ==> (loaded.Ok? <==> put.value.sizeBytes <= maxBytes && put.value.sizeBytes <= readable)
    ensures put.Ok? && put.value.sizeBytes > maxBytes && put.value.sizeBytes <= readable ==>
      loaded.Err? && loaded.error.TooLarge?
    ensures put.Ok? && loaded == Err(StreamFailed) ==> readable < put.value.sizeBytes
  {
    put := storage.Put(key, source, random, digest);
    if put.Err? { return put, Err(NotFound); }
    var stream := storage.Get(key, readable);
    ghost var kept: Bytes;
    loaded, kept := ReadArtifactToBuffer(stream.value, maxBytes);
  }
}
