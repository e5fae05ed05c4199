/**
 * Loss of power when directories are not synced, as packages/artifacts/src/local-storage.ts does not:
 * each directory falls back, by itself, to something it held before. Files keep what was synced, as in
 * `PowerLoss`.
 */
module DirectoryLoss {
  import opened JsText
  import opened StorageKeys
  import Store = ArtifactStore
  import PowerLoss

  type Bytes = seq<Byte>

  /** All names, of files and of directories, at some moment. */
  datatype Tree = Tree(names: map<Store.Location, Store.Inode>, directories: set<Store.Location>)

  /** The machine, every tree there has been since it was started, and every content put at a key. */
  datatype Disk = Disk(machine: PowerLoss.Machine, past: set<Tree>, written: set<(Text, Bytes)>)

  datatype Event = Call(a: Store.Action) | Outage(after: map<Store.Inode, Bytes>, tree: Tree)

  function DirectoryOf(l: Store.Location): Store.Location { if l == [] then [] else l[..|l| - 1] }

  /** What one directory holds. */
  function Within(tree: Tree, d: Store.Location): Tree {
    Tree(
      map l | l in tree.names && DirectoryOf(l) == d :: tree.names[l],
      set l | l in tree.directories && DirectoryOf(l) == d)
  }

  const NOTHING := Tree(map[], {})

  /** Every directory is empty, or holds what it held before: not all of them what they held at one time. */
  ghost predicate FallsBack(tree: Tree, past: set<Tree>) {
    forall d: Store.Location ::
      Within(tree, d) == NOTHING || exists t <- past :: Within(tree, d) == Within(t, d)
  }

  ghost predicate Enabled(disk: Disk, e: Event) {
    match e
    case Call(a) => Store.Enabled(disk.machine.store, a)
    case Outage(after, tree) =>
      PowerLoss.Enabled(disk.machine, PowerLoss.Outage(after)) && FallsBack(tree, disk.past)
  }

  function TreeOf(s: Store.State): Tree { Tree(s.names, s.directories) }

  function Written(s: Store.State, a: Store.Action): set<(Text, Bytes)>
    requires Store.Enabled(s, a)
  {
    match a
    case Rename(c, Renamed) => {(s.clients[c].key, s.clients[c].hashed)}
    case _ => {}
  }

  ghost function Next(disk: Disk, e: Event): Disk
    requires Enabled(disk, e)
  {
    match e
    case Call(a) =>
      var machine := PowerLoss.Next(disk.machine, PowerLoss.Call(a));
      Disk(machine, disk.past + {TreeOf(machine.store)}, disk.written + Written(disk.machine.store, a))
    case Outage(after, tree) =>
      var s := PowerLoss.Next(disk.machine, PowerLoss.Outage(after)).store;
      var t := s.(names := tree.names, directories := tree.directories);
      Disk(PowerLoss.Machine(t.(abandoned := PowerLoss.Temps(t)), after), {tree}, disk.written)
  }

  const EMPTY := Disk(PowerLoss.EMPTY, {NOTHING}, {})

  // ---------- what was ever named ----------

  /** A tree of the past: every file a key could have named is whole, synced, and left alone. */
  ghost predicate TreeOk(disk: Disk, t: Tree) {
    var s := disk.machine.store;
    && (forall l <- t.names :: t.names[l] in s.data && t.names[l] < s.next)
    && (forall l, k | l in t.names && k in t.names && t.names[l] == t.names[k] :: l == k)
    && t.directories !! t.names.Keys && [] !in t.names
    && (forall l <- t.names | !Store.IsTemp(l) :: IsWhole(disk, t.names[l]))
    && (forall key | IsKey(key) && Store.Target(key) in t.names ::
          t.names[Store.Target(key)] in s.data && (key, s.data[t.names[Store.Target(key)]]) in disk.written)
  }

  ghost predicate IsOwned(s: Store.State, i: Store.Inode) {
    exists c <- s.clients :: Store.IsOwner(s.clients[c]) && s.clients[c].inode == i
  }

  ghost predicate IsWhole(disk: Disk, i: Store.Inode) {
    PowerLoss.IsSynced(disk.machine, i) && !IsOwned(disk.machine.store, i)
  }

  /** An inode is named in one directory only, whenever. */
  ghost predicate SameDirectory(past: set<Tree>) {
    forall t, u, l, k | t in past && u in past && l in t.names && k in u.names && t.names[l] == u.names[k] ::
      DirectoryOf(l) == DirectoryOf(k)
  }

  ghost predicate TempsBeside(s: Store.State) {
    forall c <- s.clients | s.clients[c].Put? ::
      DirectoryOf(s.clients[c].temp) == DirectoryOf(Store.Target(s.clients[c].key))
  }

  ghost predicate PastOk(disk: Disk) {
    && TreeOf(disk.machine.store) in disk.past
    && (forall t <- disk.past :: TreeOk(disk, t))
    && SameDirectory(disk.past)
    && TempsBeside(disk.machine.store)
  }

  ghost predicate Inv(disk: Disk) { PowerLoss.Inv(disk.machine) && PastOk(disk) }

  // ---------- calls ----------

  /** A call leaves alone what is whole. */
  lemma WholeStays(disk: Disk, a: Store.Action, i: Store.Inode)
    requires Inv(disk) && Store.Enabled(disk.machine.store, a) && IsWhole(disk, i)
    ensures IsWhole(Next(disk, Call(a)), i)
    ensures i in Store.Next(disk.machine.store, a).data
      && Store.Next(disk.machine.store, a).data[i] == disk.machine.store.data[i]
  {
    var s := disk.machine.store;
    hide IsKey, Split, PastOk, TreeOk, Store.ClientsOk, Store.TempsOk, Store.Exclusive;
    assert Store.FilesOk(s);
    assert !PowerLoss.Writes(s, a, i);
    PowerLoss.SyncedStays(disk.machine, a, i);
    PowerLoss.DataAfter(s, a, i);
    hide PowerLoss.IsSynced;
    forall c | c in Store.Next(s, a).clients && Store.IsOwner(Store.Next(s, a).clients[c])
      ensures Store.Next(s, a).clients[c].inode != i
    {
      Store.OwnerComesFrom(s, a, c);
    }
  }

  lemma NextIs(disk: Disk, a: Store.Action)
    requires Store.Enabled(disk.machine.store, a)
    ensures var disk' := Next(disk, Call(a));
      && disk'.machine.store == Store.Next(disk.machine.store, a)
      && disk'.past == disk.past + {TreeOf(Store.Next(disk.machine.store, a))}
      && disk'.written == disk.written + Written(disk.machine.store, a)
  {
    hide Store.Next, Store.Enabled, Written;
  }

  lemma TreeStays(disk: Disk, a: Store.Action, t: Tree)
    requires Inv(disk) && Store.Enabled(disk.machine.store, a) && t in disk.past
    ensures TreeOk(Next(disk, Call(a)), t)
  {
    hide Next, Store.Next, Store.Enabled, IsWhole, IsKey, Split, PowerLoss.DurableOk, Store.FilesOk, Store.Inv;
    hide SameDirectory, TempsBeside, Store.IsTemp, Written;
    NextIs(disk, a);
    FilesAreOk(disk.machine.store);
    NextGrows(disk.machine.store, a);
    var s, disk' := disk.machine.store, Next(disk, Call(a));
    assert TreeOk(disk, t);
    forall l | l in t.names
      ensures t.names[l] in disk'.machine.store.data && t.names[l] < disk'.machine.store.next
      ensures !Store.IsTemp(l) ==> IsWhole(disk', t.names[l])
    {
      PowerLoss.DataAfter(s, a, t.names[l]);
      if !Store.IsTemp(l) { WholeStays(disk, a, t.names[l]); }
    }
    forall key | IsKey(key) && Store.Target(key) in t.names
      ensures var i := t.names[Store.Target(key)];
        i in disk'.machine.store.data && (key, disk'.machine.store.data[i]) in disk'.written
    {
      Store.TargetIsNotTemp(key);
      WholeStays(disk, a, t.names[Store.Target(key)]);
    }
  }

  lemma NextGrows(s: Store.State, a: Store.Action)
    requires Store.Enabled(s, a)
    ensures s.next <= Store.Next(s, a).next
  {}

  /** A name after a call stood before for the same inode in the same directory, or the inode is new. */
  lemma NameFrom(s: Store.State, a: Store.Action, k: Store.Location) returns (k0: Store.Location)
    requires Store.Inv(s) && TempsBeside(s) && Store.Enabled(s, a) && k in Store.Next(s, a).names
    ensures
      || Store.Next(s, a).names[k] == s.next
      || (k0 in s.names && s.names[k0] == Store.Next(s, a).names[k] && DirectoryOf(k0) == DirectoryOf(k))
    ensures a.Rename? && a.outcome.Renamed? && k == Store.Target(s.clients[a.c].key) ==>
      k0 == s.clients[a.c].temp && Store.Next(s, a).names[k] == s.clients[a.c].inode
    ensures !(a.Rename? && a.outcome.Renamed? && k == Store.Target(s.clients[a.c].key)) ==>
      k0 == k && (k in s.names || (a.OpenTemp? && k == s.clients[a.c].temp))
  {
    hide IsKey, Split, Store.TempsOk, Store.Exclusive, Store.GetOk, Store.ContentOk, Store.FilesOk;
    hide Store.TempLocation, Store.Ancestors, Store.IsBelowFile;
    k0 := k;
    if a.Rename? && a.outcome.Renamed? {
      assert Store.ClientOk(s, s.clients[a.c]);
      if k == Store.Target(s.clients[a.c].key) { k0 := s.clients[a.c].temp; }
    }
  }

  /** What a put has just renamed is whole, and is what it was given. */
  lemma RenamedIsWhole(disk: Disk, c: nat)
    requires Inv(disk) && Store.Enabled(disk.machine.store, Store.Rename(c, Store.Renamed))
    ensures var s, disk' := disk.machine.store, Next(disk, Call(Store.Rename(c, Store.Renamed)));
      var i := s.clients[c].inode;
      && i in disk'.machine.store.data && disk'.machine.store.data[i] == s.clients[c].hashed
      && !IsOwned(disk'.machine.store, i)
  {
    var s := disk.machine.store;
    var a := Store.Rename(c, Store.Renamed);
    hide IsKey, Split, PastOk, Store.TempsOk, PowerLoss.DurableOk;
    assert Store.ClientOk(s, s.clients[c]);
    forall d | d in Store.Next(s, a).clients && Store.IsOwner(Store.Next(s, a).clients[d])
      ensures Store.Next(s, a).clients[d].inode != s.clients[c].inode
    {
      Store.OwnerComesFrom(s, a, d);
    }
  }

  lemma NewTreeOk(disk: Disk, a: Store.Action)
    requires Inv(disk) && Store.Enabled(disk.machine.store, a)
    ensures TreeOk(Next(disk, Call(a)), TreeOf(Next(disk, Call(a)).machine.store))
  {
    hide Next, Store.Next, Store.Enabled, IsKey, Split, Store.Inv, Written, PastOk, IsWhole, PowerLoss.DurableOk;
    NextIs(disk, a);
    Store.StepKeepsInv(disk.machine.store, a);
    FilesAreOk(Store.Next(disk.machine.store, a));
    var disk' := Next(disk, Call(a));
    var s' := disk'.machine.store;
    forall l | l in s'.names && !Store.IsTemp(l) ensures IsWhole(disk', s'.names[l]) {
      NamedIsWhole(disk, a, l);
    }
    forall key | IsKey(key) && Store.Target(key) in s'.names
      ensures (key, s'.data[s'.names[Store.Target(key)]]) in disk'.written
    {
      KeyIsWritten(disk, a, key);
    }
  }

  lemma FilesAreOk(s: Store.State)
    requires Store.Inv(s)
    ensures Store.FilesOk(s)
  {
    hide Store.FilesOk;
  }

  lemma NamedIsWhole(disk: Disk, a: Store.Action, l: Store.Location)
    requires Inv(disk) && Store.Enabled(disk.machine.store, a)
    requires l in Store.Next(disk.machine.store, a).names && !Store.IsTemp(l)
    ensures IsWhole(Next(disk, Call(a)), Store.Next(disk.machine.store, a).names[l])
  {
    var s := disk.machine.store;
    PowerLoss.StepKeepsInv(disk.machine, PowerLoss.Call(a));
    assert TreeOk(disk, TreeOf(s));
    var l0 := NameFrom(s, a, l);
    if a.Rename? && a.outcome.Renamed? && l == Store.Target(s.clients[a.c].key) {
      RenamedIsWhole(disk, a.c);
      hide Store.Next, Store.Enabled, IsKey, Split, Store.Inv;
    } else {
      TempIsTemp(s, a);
      WholeStays(disk, a, s.names[l]);
      hide Store.Next, Store.Enabled, IsKey, Split, Store.Inv;
    }
  }

  lemma TempIsTemp(s: Store.State, a: Store.Action)
    requires Store.Inv(s) && Store.Enabled(s, a)
    ensures a.OpenTemp? ==> Store.IsTemp(s.clients[a.c].temp)
  {
    hide IsKey, Split;
    if a.OpenTemp? { assert Store.ClientOk(s, s.clients[a.c]); }
  }

  lemma RenamedKeyIsWritten(disk: Disk, c: nat)
    requires Inv(disk) && Store.Enabled(disk.machine.store, Store.Rename(c, Store.Renamed))
    ensures var s, s' := disk.machine.store, Store.Next(disk.machine.store, Store.Rename(c, Store.Renamed));
      var l := Store.Target(s.clients[c].key);
      && l in s'.names && s'.names[l] in s'.data
      && (s.clients[c].key, s'.data[s'.names[l]]) in Next(disk, Call(Store.Rename(c, Store.Renamed))).written
  {
    hide IsKey, Split, PastOk, Store.TempsOk, Store.Exclusive, PowerLoss.DurableOk;
    assert Store.ClientOk(disk.machine.store, disk.machine.store.clients[c]);
  }

  lemma OldKeyIsWritten(disk: Disk, a: Store.Action, key: Text)
    requires Inv(disk) && Store.Enabled(disk.machine.store, a) && IsKey(key)
    requires Store.Target(key) in disk.machine.store.names
    ensures var i := disk.machine.store.names[Store.Target(key)];
      && i in Store.Next(disk.machine.store, a).data
      && (key, Store.Next(disk.machine.store, a).data[i]) in Next(disk, Call(a)).written
  {
    hide Store.Next, Store.Enabled, IsKey, Split, PowerLoss.Inv, Written;
    Store.TargetIsNotTemp(key);
    assert TreeOk(disk, TreeOf(disk.machine.store));
    WholeStays(disk, a, disk.machine.store.names[Store.Target(key)]);
  }

  lemma KeyIsWritten(disk: Disk, a: Store.Action, key: Text)
    requires Inv(disk) && Store.Enabled(disk.machine.store, a) && IsKey(key)
    requires Store.Target(key) in Store.Next(disk.machine.store, a).names
    ensures var s', l := Store.Next(disk.machine.store, a), Store.Target(key);
      s'.names[l] in s'.data && (key, s'.data[s'.names[l]]) in Next(disk, Call(a)).written
  {
    hide Store.Next, Next, IsKey, Split, Store.Inv, PowerLoss.DurableOk, TreeOk, SameDirectory;
    var s, l := disk.machine.store, Store.Target(key);
    Store.TargetIsNotTemp(key);
    var l0 := NameFrom(s, a, l);
    if a.Rename? && a.outcome.Renamed? && l == Store.Target(s.clients[a.c].key) {
      Store.TargetInjective(key, s.clients[a.c].key);
      RenamedKeyIsWritten(disk, a.c);
    } else {
      TempIsTemp(s, a);
      OldKeyIsWritten(disk, a, key);
      SameName(s, a, l);
    }
  }

  lemma SameName(s: Store.State, a: Store.Action, k: Store.Location)
    requires Store.Inv(s) && TempsBeside(s) && Store.Enabled(s, a)
    requires k in Store.Next(s, a).names && k in s.names
    requires !(a.Rename? && a.outcome.Renamed? && k == Store.Target(s.clients[a.c].key))
    ensures Store.Next(s, a).names[k] == s.names[k]
  {
    hide IsKey, Split, Store.Inv, Store.TempLocation, Store.Ancestors, Store.IsBelowFile;
  }

  lemma NewNameSameDirectory(disk: Disk, a: Store.Action, t: Tree, l: Store.Location, k: Store.Location)
    requires Inv(disk) && Store.Enabled(disk.machine.store, a) && t in disk.past && l in t.names
    requires k in Store.Next(disk.machine.store, a).names
    requires t.names[l] == Store.Next(disk.machine.store, a).names[k]
    ensures DirectoryOf(l) == DirectoryOf(k)
  {
    hide Store.Next, Store.Enabled, Store.Inv, PowerLoss.DurableOk, IsKey, Split, IsWhole;
    var s := disk.machine.store;
    assert TreeOk(disk, t);
    var k0 := NameFrom(s, a, k);
    assert k0 in TreeOf(s).names && TreeOf(s).names[k0] == t.names[l];
  }

  lemma PairSameDirectory(
    disk: Disk, a: Store.Action, t: Tree, u: Tree, l: Store.Location, k: Store.Location)
    requires Inv(disk) && Store.Enabled(disk.machine.store, a)
    requires var now := TreeOf(Store.Next(disk.machine.store, a));
      (t in disk.past || t == now) && (u in disk.past || u == now)
    requires l in t.names && k in u.names && t.names[l] == u.names[k]
    ensures DirectoryOf(l) == DirectoryOf(k)
  {
    Store.StepKeepsInv(disk.machine.store, a);
    NamesInjective(Store.Next(disk.machine.store, a));
    hide Store.Next, Store.Enabled, Store.Inv, TreeOk, PowerLoss.Inv, TempsBeside;
    if t in disk.past && u !in disk.past {
      NewNameSameDirectory(disk, a, t, l, k);
    } else if t !in disk.past && u in disk.past {
      NewNameSameDirectory(disk, a, u, k, l);
    }
  }

  lemma CallKeepsDirectories(disk: Disk, a: Store.Action)
    requires Inv(disk) && Store.Enabled(disk.machine.store, a)
    ensures SameDirectory(Next(disk, Call(a)).past)
  {
    hide Next, Store.Next, Store.Enabled, Inv, TreeOf, DirectoryOf;
    NextIs(disk, a);
    var past' := Next(disk, Call(a)).past;
    forall t, u, l, k | t in past' && u in past' && l in t.names && k in u.names && t.names[l] == u.names[k]
      ensures DirectoryOf(l) == DirectoryOf(k)
    {
      PairSameDirectory(disk, a, t, u, l, k);
    }
  }

  lemma NamesInjective(s: Store.State)
    requires Store.Inv(s)
    ensures forall l, k | l in s.names && k in s.names && s.names[l] == s.names[k] :: l == k
  {
    assert Store.FilesOk(s);
    hide Store.Inv;
  }

  lemma CallKeepsTemps(s: Store.State, a: Store.Action)
    requires TempsBeside(s) && Store.Enabled(s, a)
    ensures TempsBeside(Store.Next(s, a))
  {
    hide Split, Store.Ancestors, Store.IsBelowFile, IsKey;
  }

  lemma CallKeepsInv(disk: Disk, a: Store.Action)
    requires Inv(disk) && Store.Enabled(disk.machine.store, a)
    ensures Inv(Next(disk, Call(a)))
  {
    PowerLoss.StepKeepsInv(disk.machine, PowerLoss.Call(a));
    NewTreeOk(disk, a);
    forall t | t in disk.past ensures TreeOk(Next(disk, Call(a)), t) { TreeStays(disk, a, t); }
    CallKeepsDirectories(disk, a);
    CallKeepsTemps(disk.machine.store, a);
    hide Store.Next, Store.Enabled, TreeOk, SameDirectory, TempsBeside, PowerLoss.Inv;
  }

  // ---------- outages ----------

  /** An outage may also leave every directory as it is. */
  lemma OutageMayKeepNames(disk: Disk, after: map<Store.Inode, Bytes>)
    requires Inv(disk) && PowerLoss.Enabled(disk.machine, PowerLoss.Outage(after))
    ensures Enabled(disk, Outage(after, TreeOf(disk.machine.store)))
  {
    hide PowerLoss.Inv, TreeOk, SameDirectory, TempsBeside, Within;
  }

  /** A name after an outage stood in a tree of the past, with everything else in its directory. */
  lemma FallenName(tree: Tree, past: set<Tree>, l: Store.Location) returns (t: Tree)
    requires FallsBack(tree, past) && (l in tree.names || l in tree.directories)
    ensures t in past && Within(tree, DirectoryOf(l)) == Within(t, DirectoryOf(l))
    ensures l in tree.names <==> l in t.names
    ensures l in tree.names ==> tree.names[l] == t.names[l]
    ensures l in tree.directories <==> l in t.directories
  {
    var d := DirectoryOf(l);
    var mine := Within(tree, d);
    assert l in mine.names || l in mine.directories;
    t :| t in past && mine == Within(t, d);
    var its := Within(t, d);
    assert l in mine.names <==> l in tree.names;
    assert l in its.names <==> l in t.names;
    assert l in mine.directories <==> l in tree.directories;
    assert l in its.directories <==> l in t.directories;
  }

  lemma FallenInjective(disk: Disk, tree: Tree, l: Store.Location, k: Store.Location)
    requires PastOk(disk) && FallsBack(tree, disk.past)
    requires l in tree.names && k in tree.names && tree.names[l] == tree.names[k]
    ensures l == k
  {
    hide FallsBack, IsWhole, IsKey, Split;
    var t := FallenName(tree, disk.past, l);
    var u := FallenName(tree, disk.past, k);
    assert DirectoryOf(l) == DirectoryOf(k);
    assert k in Within(t, DirectoryOf(l)).names;
    assert TreeOk(disk, t);
  }

  lemma FallenIsOld(disk: Disk, tree: Tree, l: Store.Location)
    requires Inv(disk) && FallsBack(tree, disk.past) && l in tree.names
    ensures var s := disk.machine.store;
      tree.names[l] in s.data && tree.names[l] < s.next && l != [] && l !in tree.directories
  {
    hide FallsBack, IsKey, Split, Store.Inv, Within, IsWhole;
    var t := FallenName(tree, disk.past, l);
    assert TreeOk(disk, t);
  }

  lemma FallenKeyIsWritten(disk: Disk, after: map<Store.Inode, Bytes>, tree: Tree, key: Text)
    requires Inv(disk) && Enabled(disk, Outage(after, tree)) && IsKey(key) && Store.Target(key) in tree.names
    ensures tree.names[Store.Target(key)] in after
    ensures (key, after[tree.names[Store.Target(key)]]) in disk.written
  {
    hide FallsBack, IsKey, Split, Store.Inv, Within, Store.IsTemp;
    var t := FallenName(tree, disk.past, Store.Target(key));
    assert TreeOk(disk, t);
    Store.TargetIsNotTemp(key);
    assert IsWhole(disk, t.names[Store.Target(key)]);
    SyncedIsNotCut(disk.machine, after, t.names[Store.Target(key)]);
  }

  lemma SyncedIsNotCut(m: PowerLoss.Machine, after: map<Store.Inode, Bytes>, i: Store.Inode)
    requires PowerLoss.Enabled(m, PowerLoss.Outage(after)) && PowerLoss.IsSynced(m, i)
    ensures i in after && after[i] == m.store.data[i]
  {}

  lemma OutageIs(disk: Disk, after: map<Store.Inode, Bytes>, tree: Tree)
    requires Enabled(disk, Outage(after, tree))
    ensures after.Keys == disk.machine.store.data.Keys
    ensures var disk', s := Next(disk, Outage(after, tree)), disk.machine.store;
      && disk'.past == {tree} && disk'.written == disk.written
      && disk'.machine.durable == disk'.machine.store.data == after
      && TreeOf(disk'.machine.store) == tree
      && disk'.machine.store.next == s.next && disk'.machine.store.clients == map[]
      && disk'.machine.store.abandoned == PowerLoss.Temps(disk'.machine.store)
  {
    hide FallsBack;
  }

  lemma OutageTreeOk(disk: Disk, after: map<Store.Inode, Bytes>, tree: Tree)
    requires Inv(disk) && Enabled(disk, Outage(after, tree))
    ensures TreeOk(Next(disk, Outage(after, tree)), tree)
  {
    hide Next, PowerLoss.Enabled, FallsBack, IsKey, Split, Inv, Within, Store.IsTemp;
    OutageIs(disk, after, tree);
    forall l | l in tree.names
      ensures tree.names[l] in after && tree.names[l] < disk.machine.store.next && l != [] && l !in tree.directories
    {
      FallenIsOld(disk, tree, l);
    }
    forall l, k | l in tree.names && k in tree.names && tree.names[l] == tree.names[k] ensures l == k {
      assert PastOk(disk) by { PastIsOk(disk); }
      FallenInjective(disk, tree, l, k);
    }
    forall key | IsKey(key) && Store.Target(key) in tree.names
      ensures (key, after[tree.names[Store.Target(key)]]) in disk.written
    {
      FallenKeyIsWritten(disk, after, tree, key);
    }
  }

  lemma PastIsOk(disk: Disk)
    requires Inv(disk)
    ensures PastOk(disk)
  {}

  lemma OneTreeSameDirectory(t: Tree)
    requires forall l, k | l in t.names && k in t.names && t.names[l] == t.names[k] :: l == k
    ensures SameDirectory({t})
  {}

  /** A store without clients and with all its temp files counted as abandoned. */
  lemma RestingInv(s: Store.State)
    requires Store.FilesOk(s) && s.clients == map[] && s.abandoned == PowerLoss.Temps(s)
    ensures Store.Inv(s)
  {
    hide Store.FilesOk, Store.ClientOk, Store.IsTemp, Store.IsOwner;
  }

  lemma OutageStoreInv(disk: Disk, after: map<Store.Inode, Bytes>, tree: Tree)
    requires Inv(disk) && Enabled(disk, Outage(after, tree))
    ensures PowerLoss.Inv(Next(disk, Outage(after, tree)).machine)
  {
    hide Next, PowerLoss.Enabled, FallsBack, IsKey, Split, Inv, IsWhole, Store.Inv, PowerLoss.Temps;
    OutageIs(disk, after, tree);
    OutageTreeOk(disk, after, tree);
    OldInodes(disk);
    var m := Next(disk, Outage(after, tree)).machine;
    assert Store.FilesOk(m.store);
    RestingInv(m.store);
    forall i | i in m.durable ensures m.durable[i] <= m.store.data[i] {}
  }

  lemma OldInodes(disk: Disk)
    requires Inv(disk)
    ensures forall i <- disk.machine.store.data :: i < disk.machine.store.next
  {
    assert Store.FilesOk(disk.machine.store);
    hide PastOk;
  }

  lemma OutageKeepsInv(disk: Disk, after: map<Store.Inode, Bytes>, tree: Tree)
    requires Inv(disk) && Enabled(disk, Outage(after, tree))
    ensures Inv(Next(disk, Outage(after, tree)))
  {
    hide Next, Enabled, FallsBack, PowerLoss.Inv, IsWhole, IsKey, Split, SameDirectory;
    OutageIs(disk, after, tree);
    OutageTreeOk(disk, after, tree);
    OutageStoreInv(disk, after, tree);
    OneTreeSameDirectory(tree);
  }

  lemma StepKeepsInv(disk: Disk, e: Event)
    requires Inv(disk) && Enabled(disk, e)
    ensures Inv(Next(disk, e))
  {
    hide Next, Enabled, Inv;
    match e
    case Call(a) =>
      assert Store.Enabled(disk.machine.store, a) by { CallEnabled(disk, a); }
      CallKeepsInv(disk, a);
    case Outage(after, tree) => OutageKeepsInv(disk, after, tree);
  }

  lemma CallEnabled(disk: Disk, a: Store.Action)
    ensures Enabled(disk, Call(a)) <==> Store.Enabled(disk.machine.store, a)
  {}

  // ---------- whole runs ----------

  ghost predicate IsRun(disk: Disk, events: seq<Event>)
    decreases events
  {
    events != [] ==> Enabled(disk, events[0]) && IsRun(Next(disk, events[0]), events[1..])
  }

  ghost function Run(disk: Disk, events: seq<Event>): Disk
    requires IsRun(disk, events)
    decreases events
  {
    if events == [] then disk else Run(Next(disk, events[0]), events[1..])
  }

  /** Every content that a put of the run has renamed to its key. */
  ghost function RenamedBy(disk: Disk, events: seq<Event>): set<(Text, Bytes)>
    requires IsRun(disk, events)
    decreases events
  {
    if events == [] then {}
    else
      (match events[0] case Call(a) => Written(disk.machine.store, a) case Outage(_, _) => {})
      + RenamedBy(Next(disk, events[0]), events[1..])
  }

  lemma {:induction false} RunKeepsInv(disk: Disk, events: seq<Event>)
    requires Inv(disk) && IsRun(disk, events)
    ensures Inv(Run(disk, events))
    decreases events
  {
    if events != [] {
      hide Next, Enabled, Inv;
      StepKeepsInv(disk, events[0]);
      RunKeepsInv(Next(disk, events[0]), events[1..]);
    }
  }

  lemma {:induction false} RunWritten(disk: Disk, events: seq<Event>)
    requires IsRun(disk, events)
    ensures Run(disk, events).written == disk.written + RenamedBy(disk, events)
    decreases events
  {
    if events != [] { RunWritten(Next(disk, events[0]), events[1..]); }
  }

  lemma EmptyOk()
    ensures Inv(EMPTY)
  {
    Store.EmptyOk();
  }

  /**
   * Directories are never synced, so an outage may undo renames, removals and new directories, each
   * directory by itself: a key then holds the whole content of some put on it, or nothing, but never a
   * part of one and never a mixture.
   */
  lemma KeyHoldsSomePut(events: seq<Event>, key: Text)
    requires IsRun(EMPTY, events) && IsKey(key)
    ensures var s := Run(EMPTY, events).machine.store;
      Store.Target(key) in s.names ==>
        && s.names[Store.Target(key)] in s.data
        && (key, s.data[s.names[Store.Target(key)]]) in RenamedBy(EMPTY, events)
  {
    EmptyOk();
    RunKeepsInv(EMPTY, events);
    RunWritten(EMPTY, events);
    var disk := Run(EMPTY, events);
    hide IsKey, Split, Run, IsRun, RenamedBy, PowerLoss.Inv, IsWhole;
    assert TreeOk(disk, TreeOf(disk.machine.store));
  }
}
