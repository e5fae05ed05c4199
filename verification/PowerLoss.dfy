/**
 * Loss of power for `LocalArtifactStorage` (packages/artifacts/src/local-storage.ts): a file keeps what
 * was synced and any part of what was written after that. Names and directories are kept as they are.
 */
module PowerLoss {
  import opened JsText
  import opened StorageKeys
  import Store = ArtifactStore

  type Bytes = seq<Byte>

  /** The store, and what of each inode is on the disk for sure. */
  datatype Machine = Machine(store: Store.State, durable: map<Store.Inode, Bytes>)

  datatype Event = Call(a: Store.Action) | Outage(after: map<Store.Inode, Bytes>)

  predicate Enabled(m: Machine, e: Event) {
    match e
    case Call(a) => Store.Enabled(m.store, a)
    case Outage(after) =>
      && after.Keys == m.store.data.Keys == m.durable.Keys
      && forall i <- after :: m.durable[i] <= after[i] <= m.store.data[i]
  }

  /** What is durable after a call: a new file is empty, a successful sync makes durable what was written. */
  function DurableAfter(m: Machine, a: Store.Action): map<Store.Inode, Bytes>
    requires Store.Enabled(m.store, a)
  {
    match a
    case OpenTemp(_, true) => m.durable[m.store.next := []]
    case Sync(c, true) =>
      var inode := m.store.clients[c].inode;
      if inode in m.store.data then m.durable[inode := m.store.data[inode]] else m.durable
    case _ => m.durable
  }

  function Temps(s: Store.State): set<Store.Location> { set l | l in s.names && Store.IsTemp(l) }

  /** An outage ends every process and cuts the files; temp files stay behind. */
  function Next(m: Machine, e: Event): Machine
    requires Enabled(m, e)
  {
    match e
    case Call(a) => Machine(Store.Next(m.store, a), DurableAfter(m, a))
    case Outage(after) =>
      var s := m.store;
      Machine(s.(data := after, clients := map[], abandoned := s.abandoned + Temps(s)), after)
  }

  function Effect(m: Machine, e: Event): Store.SpecOp
    requires Enabled(m, e)
  {
    match e
    case Call(a) => Store.Effect(m.store, a)
    case Outage(_) => Store.Nothing
  }

  // ---------- what is durable ----------

  ghost predicate IsSynced(m: Machine, i: Store.Inode) {
    i in m.durable && i in m.store.data && m.durable[i] == m.store.data[i]
  }

  /** Every file but the temp files is durable to its end; so is a temp file that is about to be renamed. */
  ghost predicate DurableOk(m: Machine) {
    && m.durable.Keys == m.store.data.Keys
    && (forall i <- m.durable :: m.durable[i] <= m.store.data[i])
    && (forall l <- m.store.names | !Store.IsTemp(l) :: IsSynced(m, m.store.names[l]))
    && (forall c <- m.store.clients | m.store.clients[c].Put? && m.store.clients[c].phase.Renaming? ::
          IsSynced(m, m.store.clients[c].inode))
  }

  ghost predicate Inv(m: Machine) { Store.Inv(m.store) && DurableOk(m) }

  /** The inode that a put writes to has no name but its temp file's. */
  lemma OwnedIsTemp(s: Store.State, c: nat, l: Store.Location)
    requires Store.Inv(s) && Store.PutIn(s, c) && Store.IsOwner(s.clients[c]) && l in s.names && !Store.IsTemp(l)
    ensures s.names[l] != s.clients[c].inode
  {
    hide IsKey, Split, Store.TempsOk, Store.Exclusive;
    assert Store.ClientOk(s, s.clients[c]);
  }

  predicate Writes(s: Store.State, a: Store.Action, i: Store.Inode) {
    a.Write? && Store.PutIn(s, a.c) && s.clients[a.c].inode == i
  }

  /** The bytes of an old inode change only when it is written. */
  lemma DataAfter(s: Store.State, a: Store.Action, i: Store.Inode)
    requires Store.FilesOk(s) && Store.Enabled(s, a)
    ensures i in s.data ==> i in Store.Next(s, a).data && s.data[i] <= Store.Next(s, a).data[i]
    ensures i in s.data && !Writes(s, a, i) ==> Store.Next(s, a).data[i] == s.data[i]
    ensures i in Store.Next(s, a).data && i !in s.data ==> a.OpenTemp? && a.ok && i == s.next
  {
    hide IsKey, Split, Store.TempLocation, Store.Ancestors, Store.IsBelowFile;
  }

  lemma SyncedStays(m: Machine, a: Store.Action, i: Store.Inode)
    requires Store.FilesOk(m.store) && Store.Enabled(m.store, a)
    requires IsSynced(m, i) && !Writes(m.store, a, i)
    ensures IsSynced(Next(m, Call(a)), i)
  {
    DataAfter(m.store, a, i);
    hide Store.Next, Store.Enabled;
  }

  lemma OpenedData(s: Store.State, c: nat)
    requires Store.Enabled(s, Store.OpenTemp(c, true))
    ensures Store.Next(s, Store.OpenTemp(c, true)).data == s.data[s.next := []]
  {}

  lemma DurableIsPrefix(m: Machine, a: Store.Action)
    requires Store.FilesOk(m.store) && DurableOk(m) && Store.Enabled(m.store, a)
    ensures var m' := Next(m, Call(a));
      m'.durable.Keys == m'.store.data.Keys && forall i <- m'.durable :: m'.durable[i] <= m'.store.data[i]
  {
    hide Store.Next, Store.Enabled, Store.FilesOk, IsSynced;
    var s, m' := m.store, Next(m, Call(a));
    if a.OpenTemp? && a.ok { OpenedData(s, a.c); }
    forall i ensures i in m'.store.data <==> i in m'.durable { DataAfter(s, a, i); }
    forall i | i in m'.durable ensures m'.durable[i] <= m'.store.data[i] {
      DataAfter(s, a, i);
    }
  }

  /** A name that is no temp file's is old, or has just been given to a renamed file. */
  lemma NameComesFrom(s: Store.State, a: Store.Action, l: Store.Location)
    requires Store.Inv(s) && Store.Enabled(s, a) && l in Store.Next(s, a).names && !Store.IsTemp(l)
    ensures
      || (l in s.names && Store.Next(s, a).names[l] == s.names[l])
      || (a.Rename? && a.outcome.Renamed? && Store.Next(s, a).names[l] == s.clients[a.c].inode)
  {
    hide IsKey, Split, Store.TempsOk, Store.Exclusive, Store.GetOk, Store.ContentOk, Store.FilesOk;
    hide Store.TempLocation, Store.Ancestors, Store.IsBelowFile;
    if Store.IsBookkeeping(a) {
      Store.BookkeepingKeepsFiles(s, a);
      hide Store.Next, Store.Enabled;
    } else if a.OpenTemp? || a.Rename? {
      assert Store.ClientOk(s, s.clients[a.c]);
    }
  }

  /** A put that is about to rename was so before, or has just synced. */
  lemma RenamingComesFrom(s: Store.State, a: Store.Action, c: nat)
    requires Store.Enabled(s, a)
    requires Store.PutIn(Store.Next(s, a), c) && Store.Next(s, a).clients[c].phase.Renaming?
    ensures Store.PutIn(s, c) && Store.Next(s, a).clients[c].inode == s.clients[c].inode
    ensures s.clients[c].phase.Renaming? || (a == Store.Sync(c, true) && s.clients[c].phase.Syncing?)
  {
    hide IsKey, Split, Store.TempLocation, Store.Ancestors, Store.IsBelowFile;
  }

  lemma SyncSyncs(m: Machine, c: nat)
    requires Inv(m) && Store.Enabled(m.store, Store.Sync(c, true))
    ensures IsSynced(Next(m, Call(Store.Sync(c, true))), m.store.clients[c].inode)
  {
    hide IsKey, Split, Store.TempsOk, Store.Exclusive, Store.FilesOk;
    assert Store.ClientOk(m.store, m.store.clients[c]);
  }

  /** No put writes to a file that another is about to rename, nor to its own by then. */
  lemma RenamingIsNotWritten(s: Store.State, a: Store.Action, c: nat)
    requires Store.Inv(s) && Store.Enabled(s, a) && Store.PutIn(s, c)
    requires s.clients[c].phase.Renaming?
    ensures !Writes(s, a, s.clients[c].inode)
  {
    hide IsKey, Split, Store.TempsOk, Store.FilesOk, Store.ClientsOk;
  }

  lemma CallKeepsDurable(m: Machine, a: Store.Action)
    requires Inv(m) && Store.Enabled(m.store, a)
    ensures DurableOk(Next(m, Call(a)))
  {
    var s, m' := m.store, Next(m, Call(a));
    DurableIsPrefix(m, a);
    assert Store.FilesOk(s);
    hide Store.Next, Store.Enabled, Store.Inv, DurableAfter;
    forall l | l in m'.store.names && !Store.IsTemp(l) ensures IsSynced(m', m'.store.names[l]) {
      NameComesFrom(s, a, l);
      var i := m'.store.names[l];
      assert !Writes(s, a, i) by { NamedIsNotWritten(s, a, l); }
      SyncedStays(m, a, i);
    }
    forall c | c in m'.store.clients && m'.store.clients[c].Put? && m'.store.clients[c].phase.Renaming?
      ensures IsSynced(m', m'.store.clients[c].inode)
    {
      RenamingComesFrom(s, a, c);
      if s.clients[c].phase.Renaming? {
        RenamingIsNotWritten(s, a, c);
        SyncedStays(m, a, s.clients[c].inode);
      } else {
        SyncSyncs(m, c);
      }
    }
  }

  lemma NamedIsNotWritten(s: Store.State, a: Store.Action, l: Store.Location)
    requires Store.Inv(s) && Store.Enabled(s, a) && l in Store.Next(s, a).names && !Store.IsTemp(l)
    ensures !Writes(s, a, Store.Next(s, a).names[l])
  {
    NameComesFrom(s, a, l);
    if a.Write? && l in s.names { OwnedIsTemp(s, a.c, l); }
    hide Store.Next, Store.Inv;
  }

  // ---------- every event ----------

  lemma OutageKeepsInv(m: Machine, after: map<Store.Inode, Bytes>)
    requires Inv(m) && Enabled(m, Outage(after))
    ensures Inv(Next(m, Outage(after)))
  {
    hide IsKey, Split, Store.ClientOk, Store.TempLocation;
    var m' := Next(m, Outage(after));
    forall l | l in m'.store.names && !Store.IsTemp(l) ensures IsSynced(m', m'.store.names[l]) {
      assert IsSynced(m, m.store.names[l]);
    }
  }

  lemma StepKeepsInv(m: Machine, e: Event)
    requires Inv(m) && Enabled(m, e)
    ensures Inv(Next(m, e))
  {
    match e
    case Call(a) =>
      Store.StepKeepsInv(m.store, a);
      CallKeepsDurable(m, a);
      hide Store.Next, Store.Enabled, Store.Inv, DurableOk, DurableAfter;
    case Outage(after) =>
      OutageKeepsInv(m, after);
  }

  /** What an outage cuts off, no key names. */
  lemma OutageRefines(m: Machine, after: map<Store.Inode, Bytes>, spec: Store.Spec)
    requires Inv(m) && Enabled(m, Outage(after)) && Store.Refines(m.store, spec)
    ensures Store.Refines(Next(m, Outage(after)).store, spec)
  {
    hide IsKey, Split, Store.TempsOk, Store.ClientsOk, Store.Exclusive;
    forall key | key in spec
      ensures var t := Store.Target(key); after[m.store.names[t]] == m.store.data[m.store.names[t]]
    {
      Store.TargetIsNotTemp(key);
      assert IsSynced(m, m.store.names[Store.Target(key)]);
    }
  }

  lemma StepRefines(m: Machine, e: Event, spec: Store.Spec)
    requires Inv(m) && Enabled(m, e) && Store.Refines(m.store, spec)
    ensures Store.Refines(Next(m, e).store, Store.SpecStep(spec, Effect(m, e)))
  {
    hide Store.Next, Store.Enabled, Store.Inv, Store.Refines, DurableOk, DurableAfter, Store.Effect;
    match e
    case Call(a) => Store.StepRefines(m.store, a, spec);
    case Outage(after) => OutageRefines(m, after, spec);
  }

  // ---------- whole runs ----------

  ghost predicate IsRun(m: Machine, events: seq<Event>)
    decreases events
  {
    events != [] ==> Enabled(m, events[0]) && IsRun(Next(m, events[0]), events[1..])
  }

  ghost function Run(m: Machine, events: seq<Event>): Machine
    requires IsRun(m, events)
    decreases events
  {
    if events == [] then m else Run(Next(m, events[0]), events[1..])
  }

  ghost function Effects(m: Machine, events: seq<Event>): seq<Store.SpecOp>
    requires IsRun(m, events)
    decreases events
  {
    if events == [] then [] else [Effect(m, events[0])] + Effects(Next(m, events[0]), events[1..])
  }

  const EMPTY := Machine(Store.EMPTY, map[])

  /** With outages at any moment the files at valid keys are still those of the map after the same puts and deletes. */
  lemma {:induction false} RunRefines(m: Machine, spec: Store.Spec, events: seq<Event>)
    requires Inv(m) && Store.Refines(m.store, spec) && IsRun(m, events)
    ensures Inv(Run(m, events))
    ensures Store.Refines(Run(m, events).store, Store.SpecRun(spec, Effects(m, events)))
    decreases events
  {
    if events != [] {
      hide Next, Enabled, Inv, Store.Refines, Effect;
      StepKeepsInv(m, events[0]);
      StepRefines(m, events[0], spec);
      RunRefines(Next(m, events[0]), Store.SpecStep(spec, Effect(m, events[0])), events[1..]);
      assert Effects(m, events)[1..] == Effects(Next(m, events[0]), events[1..]);
    }
  }

  /**
   * Whatever was running when the power went, and however often: the file at a key is the whole byte
   * sequence of one put that reached its rename, the last operation on that key. It is never cut off.
   */
  lemma NoKeyHoldsACutFile(events: seq<Event>, key: Text)
    requires IsRun(EMPTY, events) && IsKey(key)
    ensures var s := Run(EMPTY, events).store;
      Store.Target(key) in s.names ==>
        && s.names[Store.Target(key)] in s.data
        && Store.LastIsPut(Effects(EMPTY, events), key, s.data[s.names[Store.Target(key)]])
  {
    Store.EmptyOk();
    RunRefines(EMPTY, map[], events);
    var s := Run(EMPTY, events).store;
    hide IsKey, Run, IsRun, Store.LastIsPut;
    if Store.Target(key) in s.names {
      Store.SpecHoldsLastPut(map[], Effects(EMPTY, events), key, s.data[s.names[Store.Target(key)]]);
    }
  }

  /** The sync is needed: until then an outage can leave of a temp file no more than was synced, that is nothing. */
  lemma UnsyncedIsCut(m: Machine, i: Store.Inode)
    requires Inv(m) && i in m.store.data
    ensures var e := Outage(m.store.data[i := m.durable[i]]);
      Enabled(m, e) && Next(m, e).store.data[i] == m.durable[i]
  {
    hide Store.Inv;
  }
}
