/** Startup: recovering the published generation, or bootstrapping the first one under the guard of
    the bootstrap marker. */
module Recover {
  import opened Text
  import opened Stock
  import opened Records
  import opened Names
  import opened Disk
  import opened Store
  import opened Loader
  import opened Generations
  import opened Publish

  ghost predicate NoArtifacts(fs: Fs)
    requires fs.Wf()
  {
    forall n :: n in fs.Now() ==> !IsArtifact(n)
  }

  /** What the marker and cleanup steps of a startup keep. */
  ghost predicate Prepared(fs: Fs, fs': Fs) {
    && fs.Wf() && fs'.Wf()
    && Gens(fs') <= Gens(fs) && GenNow(fs') == GenNow(fs)
    && (Manifest in fs'.Now() <==> Manifest in fs.Now())
    && (NoArtifacts(fs) ==> NoArtifacts(fs'))
    && (AlwaysManifest(fs) ==> AlwaysManifest(fs')) && (HadArtifact(fs') ==> HadArtifact(fs))
    && InitText(fs') == InitText(fs)
    && (forall text :: Holds(fs, InitFile, text) ==> Holds(fs', InitFile, text))
    && (Short(fs) ==> Short(fs'))
    && (Boot(fs) ==> Boot(fs'))
  }

  lemma PreparedTrans(a: Fs, b: Fs, c: Fs)
    requires Prepared(a, b) && Prepared(b, c)
    ensures Prepared(a, c)
  {
    hide Gens, GenNow, NoArtifacts, Holds, Short, Boot, Anchored, HadArtifact;
  }

  lemma PreparedRefl(fs: Fs)
    requires fs.Wf()
    ensures Prepared(fs, fs)
  {
  }

  lemma MarkerStepNames(fs: Fs, fs': Fs)
    requires Quiet(fs, fs', Marker)
    ensures forall n :: n in fs'.Now() && n != Marker ==> n in fs.Now()
    ensures NoArtifacts(fs) ==> NoArtifacts(fs')
    ensures Manifest in fs'.Now() <==> Manifest in fs.Now()
  {
    var last := |fs'.trail| - 1;
    forall n | n in fs'.Now() && n != Marker ensures n in fs.Now() { QuietTrail(fs, fs', Marker, last, n); }
    QuietTrail(fs, fs', Marker, last, Manifest);
    assert !IsArtifact(Marker);
  }

  lemma MarkerStepTrail(fs: Fs, fs': Fs)
    requires Quiet(fs, fs', Marker)
    ensures AlwaysManifest(fs) ==> AlwaysManifest(fs')
    ensures HadArtifact(fs') ==> HadArtifact(fs)
  {
    forall k | 0 <= k < |fs'.trail| ensures AlwaysManifest(fs) ==> Manifest in fs'.trail[k] {
      QuietTrail(fs, fs', Marker, k, Manifest);
    }
    if HadArtifact(fs') {
      var k, n :| 0 <= k < |fs'.trail| && n in fs'.trail[k] && IsArtifact(n);
      assert n != Marker;
      QuietTrail(fs, fs', Marker, k, n);
      var j := if k < |fs.trail| then k else |fs.trail| - 1;
      assert n in fs.trail[j];
    }
  }

  /** A step on the marker alone, when the directory it leaves is a legal bootstrap state. */
  lemma MarkerStep(fs: Fs, fs': Fs, book: Book)
    requires Inv(fs, book) && Quiet(fs, fs', Marker) && Bootable(fs'.Now())
    ensures Inv(fs', book) && Prepared(fs, fs')
  {
    hide GenAt, GenNow, IsArtifact, PathFits, Holds, Sound, Short, Anchored, AlwaysManifest, HadArtifact;
    assert Unnamed(fs, Marker);
    QuietKeeps(fs, fs', Marker, book);
    ManifestFits();
    MarkerStepNames(fs, fs');
    MarkerStepTrail(fs, fs');
    if Boot(fs) {
      forall k | 0 <= k < |fs'.trail| ensures Bootable(fs'.trail[k]) {
        if k < |fs.trail| { assert fs'.trail[k] == fs.trail[k] && Bootable(fs.trail[k]); }
      }
    }
  }

  lemma SyncPrepares(fs: Fs, fs': Fs)
    requires Calm(fs, fs', {}) && (fs' == fs || fs' == DirSynced(fs))
    ensures Prepared(fs, fs')
    ensures fs' == DirSynced(fs) && Marker in fs.Now() ==> Anchored(fs')
  {
    hide GenAt, GenNow, IsArtifact, PathFits, Holds;
    assert fs'.Now() == fs.Now() && fs.Now() == fs.trail[|fs.trail| - 1];
    if Boot(fs) { assert Bootable(fs.trail[|fs.trail| - 1]); }
  }

  /** create_bootstrap_marker. */
  method CreateBootstrapMarker(disk: Disk, ghost book: Book) returns (s: Status)
    requires Inv(disk.fs, book) && NoArtifacts(disk.fs)
    modifies disk`fs
    ensures Inv(disk.fs, book) && Prepared(old(disk.fs), disk.fs)
    ensures s == Ok ==> Marker in disk.fs.Now() && Anchored(disk.fs)
    ensures s == Ok || s == Io || s == Halted
    ensures disk.reliable ==> s == Ok
  {
    hide Prepared, Calm, Apart, Sound, Gens, Anchored;
    ghost var fs0 := disk.fs;
    PreparedRefl(fs0);
    ghost var junk: string;
    var ino: nat;
    s, ino, junk := disk.OpenForWrite(Marker);
    if s != Ok {
      return;
    }
    ghost var fs1 := disk.fs;
    OpenedQuiet(fs0, Marker, junk);
    MarkerStep(fs0, fs1, book);
    MarkerStepNames(fs0, fs1);
    s := disk.Close();
    if s == Halted {
      return;
    }
    if s != Ok {
      var gone := disk.Unlink(Marker);
      if gone == Ok {
        UnlinkedQuiet(fs1, Marker);
        MarkerStepNames(fs1, disk.fs);
        MarkerStep(fs1, disk.fs, book);
        PreparedTrans(fs0, fs1, disk.fs);
      }
      s := if gone == Halted then Halted else Io;
      return;
    }
    s := SyncDirectory(disk, book);
    SyncPrepares(fs1, disk.fs);
    PreparedTrans(fs0, fs1, disk.fs);
  }

  /** Nothing happened but the marker's unlink, and perhaps the directory fsync after it. */
  ghost predicate Unmarked(fs: Fs, fs': Fs)
    requires fs.Wf()
  {
    fs' == fs || fs' == Unlinked(fs, Marker) || fs' == DirSynced(Unlinked(fs, Marker))
  }

  lemma NothingUnmarked(fs: Fs)
    requires fs.Wf()
    ensures Unmarked(fs, fs)
  {
  }

  /** remove_bootstrap_marker. */
  method RemoveBootstrapMarker(disk: Disk, ghost book: Book) returns (s: Status)
    requires Inv(disk.fs, book) && (Manifest in disk.fs.Now() || NoArtifacts(disk.fs))
    modifies disk`fs
    ensures Inv(disk.fs, book) && Prepared(old(disk.fs), disk.fs)
    ensures s == Ok ==> Marker !in disk.fs.Now()
    ensures Unmarked(old(disk.fs), disk.fs)
    ensures s == Ok || s == Io || s == Halted
    ensures disk.reliable ==> s == Ok
  {
    hide Prepared, Calm, Apart, Sound, Gens;
    ghost var fs0 := disk.fs;
    PreparedRefl(fs0);
    s := disk.Unlink(Marker);
    if s == NotFound {
      return Ok;
    }
    if s != Ok {
      return;
    }
    ghost var fs1 := disk.fs;
    UnlinkedQuiet(fs0, Marker);
    MarkerStepNames(fs0, fs1);
    MarkerStep(fs0, fs1, book);
    s := SyncDirectory(disk, book);
    SyncPrepares(fs1, disk.fs);
    PreparedTrans(fs0, fs1, disk.fs);
  }

  /** ensure_bootstrap_recovery_state. */
  method EnsureBootstrapRecoveryState(disk: Disk) returns (s: Status)
    requires disk.fs.Wf()
    ensures s == Ok || s == Io || s == Invalid || s == Halted
    ensures s == Ok ==> NoArtifacts(disk.fs)
    ensures s == Invalid ==> !NoArtifacts(disk.fs)
    ensures s == Ok ==> ManifestTmp !in disk.fs.Now() && forall n :: n in disk.fs.Now() ==> GenOf(n) == None
    ensures s == Invalid ==> ManifestTmp in disk.fs.Now() || exists n :: n in disk.fs.Now() && GenOf(n).Some?
    ensures disk.reliable ==> s == Ok || s == Invalid
  {
    hide GenOf;
    var names: seq<Name>;
    s, names := disk.OpenDir();
    if s != Ok {
      return;
    }
    var i := 0;
    while i < |names|
      invariant 0 <= i <= |names|
      invariant forall j :: 0 <= j < i ==> !IsArtifact(names[j])
    {
      var n := names[i];
      if n == ManifestTmp || GenOf(n).Some? {
        assert n in disk.fs.Now() && IsArtifact(n);
        return Invalid;
      }
      i := i + 1;
    }
    forall n | n in disk.fs.Now() ensures !IsArtifact(n) {
      assert n in names;
      var j :| 0 <= j < |names| && names[j] == n;
    }
  }

  /** A start unlinks the marker, or artifacts and then the marker, before it syncs the directory. It
      must not lose power there: when it finds a manifest that was not there at some point since the
      last directory fsync; or when it finds none and an artifact was there since then. */
  ghost predicate Risky(fs: Fs)
    requires fs.Wf()
  {
    Marker in fs.Now() && if Manifest in fs.Now() then !AlwaysManifest(fs) else HadArtifact(fs)
  }

  /** A startup, wherever it stops. */
  ghost predicate Started(fs: Fs, fs': Fs) {
    && fs.Wf() && fs'.Wf()
    && Gens(fs') <= Gens(fs) + (if Manifest in fs.Now() then {} else {1})
    && (Manifest in fs.Now() ==> Manifest in fs'.Now() && GenNow(fs') == GenNow(fs))
    && InitText(fs') == InitText(fs)
    && (forall text :: Holds(fs, InitFile, text) ==> Holds(fs', InitFile, text))
    && (Short(fs) ==> Short(fs'))
    && (Boot(fs) ==> Boot(fs'))
    && (!Exposed(fs) && !Risky(fs) ==> !Exposed(fs'))
  }

  /** What rules the risk out. */
  lemma SafeBefore(fs: Fs)
    requires fs.Wf() && !Exposed(fs) && !Risky(fs)
    ensures AlwaysManifest(fs) || !HadArtifact(fs)
    ensures Manifest !in fs.Now() ==> !HadArtifact(fs)
  {
    hide HadArtifact;
    assert fs.Now() == fs.trail[|fs.trail| - 1];
  }

  lemma PreparedStarts(a: Fs, b: Fs)
    requires Prepared(a, b)
    ensures Started(a, b)
  {
    hide Gens, GenNow, Holds, Short, Boot, HadArtifact, AlwaysManifest, Risky;
    if !Exposed(a) && !Risky(a) { SafeBefore(a); }
  }

  lemma StartedAdvance(a: Fs, b: Fs, c: Fs)
    requires Prepared(a, b) && Advanced(b, c, 1) && Manifest !in a.Now() && Marker in b.Now() && Anchored(b)
    ensures Started(a, c)
  {
    hide Gens, GenNow, Holds, Short, Boot, Anchored, HadArtifact, AlwaysManifest, Risky;
  }

  lemma StartedPrepare(a: Fs, b: Fs, c: Fs)
    requires Started(a, b) && Prepared(b, c) && AlwaysManifest(b)
    ensures Started(a, c)
  {
    hide Gens, GenNow, Holds, Short, Boot, HadArtifact, AlwaysManifest, Risky;
  }

  lemma NoManifestNoGens(fs: Fs, book: Book)
    requires Inv(fs, book) && Manifest !in fs.Now()
    ensures Gens(fs) == {0} && GenNow(fs) == 0
  {
    hide GenOfText;
    var last := |fs.trail| - 1;
    assert GenAt(fs, last) == 0;
    forall g | g in Gens(fs) ensures g == 0 {
      var k :| 0 <= k < |fs.trail| && g == GenAt(fs, k);
      assert GenAt(fs, k) <= GenAt(fs, last);
    }
    assert GenAt(fs, last) in Gens(fs);
  }

  lemma DoomedAtZero(n: Name)
    ensures Doomed(n, 0) <==> IsArtifact(n)
  {
  }

  lemma CleanupPrepares(fs: Fs, fs': Fs)
    requires Cleaned(fs, fs', 0) && Gens(fs) == {0} && Marker in fs.Now() && Manifest !in fs.Now()
    ensures Prepared(fs, fs')
    ensures (forall n :: n in fs'.Now() ==> !Doomed(n, 0)) ==> NoArtifacts(fs')
  {
    hide Gens, GenNow, Holds, Boot, Anchored, HadArtifact, PathFits, IsArtifact;
    NotDoomed(0);
    forall n ensures Doomed(n, 0) <==> IsArtifact(n) { DoomedAtZero(n); }
  }

  ghost predicate AllArtifacts(names: seq<Name>) { forall n :: n in names ==> IsArtifact(n) }

  ghost predicate ClearedBy(fs: Fs, fs1: Fs, names: seq<Name>)
    requires fs.Wf()
  {
    fs1 == Gone(fs, names) || (NoArtifacts(Gone(fs, names)) && fs1 == Unlinked(Gone(fs, names), Marker))
  }

  /** A stage of clearing an interrupted bootstrap: some artifacts are unlinked, or all of them and
      then the marker; nothing is synced yet. */
  ghost predicate Clearing(fs: Fs, fs1: Fs)
    requires fs.Wf()
  {
    exists names :: AllArtifacts(names) && ClearedBy(fs, fs1, names)
  }

  ghost predicate ClearedTo(fs: Fs, fs': Fs)
    requires fs.Wf()
  {
    Clearing(fs, fs') || exists mid: Fs :: mid.Wf() && Clearing(fs, mid) && fs' == DirSynced(mid)
  }

  lemma ClearedSoFar(fs: Fs, names: seq<Name>)
    requires fs.Wf() && forall n :: n in names ==> Doomed(n, 0)
    ensures ClearedTo(fs, Gone(fs, names))
    ensures NoArtifacts(Gone(fs, names)) ==> ClearedTo(fs, Unlinked(Gone(fs, names), Marker))
    ensures NoArtifacts(Gone(fs, names)) ==> ClearedTo(fs, DirSynced(Unlinked(Gone(fs, names), Marker)))
  {
    hide IsArtifact, Gone, NoArtifacts;
    assert AllArtifacts(names) by {
      forall n | n in names ensures IsArtifact(n) { DoomedAtZero(n); }
    }
    var end := Unlinked(Gone(fs, names), Marker);
    assert ClearedBy(fs, Gone(fs, names), names);
    if NoArtifacts(Gone(fs, names)) {
      assert ClearedBy(fs, end, names) && Clearing(fs, end);
    }
  }

  lemma NothingCleared(fs: Fs)
    requires fs.Wf()
    ensures ClearedTo(fs, fs)
  {
    assert Gone(fs, []) == fs;
    ClearedSoFar(fs, []);
  }

  lemma PreparedArtifacts(a: Fs, b: Fs)
    requires Prepared(a, b)
    ensures a.Wf() && b.Wf() && (NoArtifacts(a) ==> NoArtifacts(b))
    ensures Manifest in a.Now() <==> Manifest in b.Now()
    ensures Gens(b) <= Gens(a) && GenNow(b) == GenNow(a) && InitText(b) == InitText(a)
  {
  }

  /** The part of recover_stock_store that makes the directory ready for a first generation: it
      clears an interrupted bootstrap, or refuses artifacts nobody marked. */
  method PrepareBootstrap(disk: Disk, ghost book: Book) returns (s: Status)
    requires Inv(disk.fs, book) && Manifest !in disk.fs.Now()
    modifies disk`fs
    ensures Inv(disk.fs, book) && Prepared(old(disk.fs), disk.fs)
    ensures s == Ok ==> NoArtifacts(disk.fs)
    ensures !Bootable(old(disk.fs).Now()) ==> s != Ok && disk.fs == old(disk.fs)
    ensures ClearedTo(old(disk.fs), disk.fs)
    ensures disk.reliable && Short(old(disk.fs)) ==> (s == Ok <==> Bootable(old(disk.fs).Now()))
  {
    hide Prepared, Inv, Gens, Boot, Anchored, HadArtifact, Short, IsArtifact, Cleaned, ClearedTo, Gone;
    ghost var fs0 := disk.fs;
    InvWf(fs0, book);
    NothingCleared(fs0);
    NoManifestNoGens(fs0, book);
    PreparedRefl(fs0);
    var marked := disk.Exists(Marker);
    if marked {
      ghost var gone: seq<Name>;
      s, gone := CleanupOldGenerationFiles(disk, 0, book);
      ghost var fs1 := disk.fs;
      ClearedSoFar(fs0, gone);
      CleanupPrepares(fs0, fs1);
      if s != Ok {
        return;
      }
      s := RemoveBootstrapMarker(disk, book);
      PreparedTrans(fs0, fs1, disk.fs);
      PreparedArtifacts(fs1, disk.fs);
    } else {
      s := EnsureBootstrapRecoveryState(disk);
    }
  }

  /** What a bootstrap starts from: the store of the init file; an error when there is none. */
  ghost function InitLoad(fs: Fs): (Holdings, Status)
    requires fs.Wf()
  {
    match InitText(fs)
    case None => (map[], Io)
    case Some(text) => LoadText(text, map[])
  }

  lemma SameInitLoad(a: Fs, b: Fs)
    requires a.Wf() && b.Wf() && InitText(b) == InitText(a)
    ensures InitLoad(b) == InitLoad(a)
  {
  }

  /** What recovery of an existing manifest ends with: the store of the book. */
  lemma RecoveredStore(fs: Fs, book: Book, g: nat)
    requires Inv(fs, book) && Manifest in fs.Now() && g == GenNow(fs)
    ensures g in book && g <= LLONG_MAX && GoodStore(MapOf(book[g]))
    ensures GenName(Snapshot, g) in fs.Now() && GenName(Aof, g) in fs.Now()
    ensures LoadText(FileText(fs, GenName(Snapshot, g)), map[]) == (MapOf(book[g]), Ok)
    ensures FileText(fs, GenName(Aof, g)) == ""
  {
    hide ManifestGeneration, LoadText, RowsText;
    var last := |fs.trail| - 1;
    assert Sound(fs, book, last) && fs.trail[last] == fs.Now();
    LoadInvertsPrint(book[g]);
    GoodBothWays(book[g]);
  }

  /** Loading the snapshot and replaying the log of the published generation. */
  method LoadGeneration(disk: Disk, store: StockStore, g: nat, ghost book: Book) returns (s: Status)
    requires Inv(disk.fs, book) && Manifest in disk.fs.Now() && g == GenNow(disk.fs)
    requires store.Valid() && store.Contents() == map[]
    modifies store.Repr()
    ensures store.Valid() && fresh(store.Repr() - old(store.Repr()))
    ensures g in book && (s == Ok ==> store.Contents() == MapOf(book[g]))
    ensures disk.reliable ==> s == Ok
  {
    hide Inv, GenNow, MapOf, Ascending, LoadText, ReplayText, Pieces, ReplayFits;
    InvWf(disk.fs, book);
    RecoveredStore(disk.fs, book, g);
    s := LoadStockFile(disk, GenName(Snapshot, g), store);
    if s != Ok {
      return;
    }
    ReplayNothing(store.Contents());
    ReplayedAll(store.Contents());
    s := ReplayAof(disk, GenName(Aof, g), store);
  }

  lemma RecoverableBook(fs: Fs, book: Book)
    requires Inv(fs, book)
    ensures Manifest in fs.Now() ==> GenNow(fs) in book
  {
    hide GenOfText, Complete;
    assert Sound(fs, book, |fs.trail| - 1);
  }

  /** recover_stock_store when a manifest exists. */
  method RecoverPublished(disk: Disk, store: StockStore, g: nat, ghost book: Book) returns (s: Status)
    requires Inv(disk.fs, book) && Manifest in disk.fs.Now() && g == GenNow(disk.fs)
    requires store.Valid() && store.Contents() == map[]
    modifies disk`fs, store.Repr()
    ensures Inv(disk.fs, book) && Started(old(disk.fs), disk.fs)
    ensures store.Valid() && fresh(store.Repr() - old(store.Repr()))
    ensures g in book && (s == Ok ==> store.Contents() == MapOf(book[g]))
    ensures Unmarked(old(disk.fs), disk.fs)
    ensures disk.reliable ==> s == Ok && Marker !in disk.fs.Now()
  {
    hide Prepared, Started, Inv, GenNow, MapOf, Ascending, Unmarked;
    ghost var fs0 := disk.fs;
    InvWf(fs0, book);
    PreparedRefl(fs0);
    NothingUnmarked(fs0);
    RecoverableBook(fs0, book);
    var marked := disk.Exists(Marker);
    if marked {
      var removed := RemoveBootstrapMarker(disk, book);
      PreparedStarts(fs0, disk.fs);
      if removed == Halted {
        return Halted;
      }
    }
    PreparedStarts(fs0, disk.fs);
    PreparedArtifacts(fs0, disk.fs);
    s := LoadGeneration(disk, store, g, book);
  }

  lemma InitLoadMeans(fs: Fs)
    requires fs.Wf()
    ensures InitFile !in fs.Now() ==> InitLoad(fs).1 != Ok
    ensures InitFile in fs.Now() ==> InitLoad(fs) == LoadText(fs.inodes[fs.Now()[InitFile]].data, map[])
  {
  }

  /** The bootstrap up to its publication: mark, and load the init file. */
  method LoadInit(disk: Disk, store: StockStore, ghost book: Book) returns (s: Status)
    requires Inv(disk.fs, book) && NoArtifacts(disk.fs)
    requires store.Valid() && store.Contents() == map[]
    modifies disk`fs, store.Repr()
    ensures Inv(disk.fs, book) && Prepared(old(disk.fs), disk.fs)
    ensures store.Valid() && fresh(store.Repr() - old(store.Repr()))
    ensures s == Ok ==> InitLoad(old(disk.fs)) == (store.Contents(), Ok)
    ensures s == Ok ==> Marker in disk.fs.Now() && Anchored(disk.fs)
    ensures disk.reliable ==> (s == Ok <==> InitLoad(old(disk.fs)).1 == Ok)
  {
    hide Prepared, Inv, Holds, MapOf, Ascending, LoadText, NoArtifacts, Anchored;
    ghost var fs0 := disk.fs;
    InvWf(fs0, book);
    PreparedRefl(fs0);
    var found := disk.Exists(InitFile);
    if !found {
      return Io;
    }
    s := CreateBootstrapMarker(disk, book);
    InvWf(disk.fs, book);
    PreparedArtifacts(fs0, disk.fs);
    if s != Ok {
      return;
    }
    s := LoadStockFile(disk, InitFile, store);
  }

  lemma GenHeld(fs: Fs, g: nat)
    requires fs.Wf() && Gens(fs) == {g} && g > 0
    ensures AlwaysManifest(fs)
  {
    hide GenOfText;
    forall k | 0 <= k < |fs.trail| ensures Manifest in fs.trail[k] { assert GenAt(fs, k) in Gens(fs); }
  }

  lemma InitIsGood(fs: Fs)
    requires fs.Wf()
    ensures GoodStore(InitLoad(fs).0)
  {
    match InitText(fs)
    case None =>
    case Some(text) => LoadTextKeepsGood(text);
  }

  /** A bootstrap: mark, load the init file, publish generation 1, unmark. */
  method Bootstrap(disk: Disk, store: StockStore, ghost book: Book)
      returns (s: Status, ghost book': Book)
    requires Inv(disk.fs, book) && Manifest !in disk.fs.Now() && NoArtifacts(disk.fs)
    requires store.Valid() && store.Contents() == map[]
    modifies disk`fs, store.Repr()
    ensures Inv(disk.fs, book') && Started(old(disk.fs), disk.fs)
    ensures store.Valid() && fresh(store.Repr() - old(store.Repr()))
    ensures (book' == book && Gens(disk.fs) <= Gens(old(disk.fs)))
      || (book' == book[1 := store.Listed()] && InitLoad(old(disk.fs)) == (store.Contents(), Ok))
    ensures s == Ok ==> InitLoad(old(disk.fs)) == (store.Contents(), Ok) && Gens(disk.fs) == {1}
    ensures s == Ok ==> book' == book[1 := store.Listed()] && Marker !in disk.fs.Now()
    ensures disk.reliable ==> (s == Ok <==> InitLoad(old(disk.fs)).1 == Ok)
  {
    hide Prepared, Started, Inv, Gens, GenNow, Holds, MapOf, Ascending, LoadText, Advanced, NoArtifacts;
    hide Anchored, AlwaysManifest;
    book' := book;
    ghost var fs0 := disk.fs;
    InvWf(fs0, book);
    NoManifestNoGens(fs0, book);
    s := LoadInit(disk, store, book);
    ghost var fs1 := disk.fs;
    PreparedStarts(fs0, fs1);
    PreparedArtifacts(fs0, fs1);
    if s != Ok {
      return;
    }
    InitIsGood(fs0);
    s, book' := MaterializeStoreGeneration(disk, store, book);
    ghost var fs2 := disk.fs;
    StartedAdvance(fs0, fs1, fs2);
    if s != Ok {
      return;
    }
    InvWf(fs2, book');
    GenHeld(fs2, 1);
    s := RemoveBootstrapMarker(disk, book');
    StartedPrepare(fs0, fs2, disk.fs);
    PreparedArtifacts(fs2, disk.fs);
    SingleGen(disk.fs, 1);
  }

  lemma HeldIsThere(fs: Fs, n: Name, text: string)
    requires fs.Wf() && Holds(fs, n, text)
    ensures n in fs.Now() && FileText(fs, n) == text
    ensures n == InitFile ==> InitLoad(fs) == LoadText(text, map[])
  {
    assert n in fs.trail[|fs.trail| - 1];
  }

  lemma PreparedThenStarted(a: Fs, b: Fs, c: Fs)
    requires Prepared(a, b) && Started(b, c) && Manifest !in a.Now()
    ensures Started(a, c)
  {
    hide Gens, GenNow, Holds, Short, Boot, Anchored, HadArtifact, AlwaysManifest;
    if !Exposed(a) && !Risky(a) { SafeBefore(a); }
  }

  /** recover_stock_store when no manifest exists. */
  method FirstStart(disk: Disk, store: StockStore, ghost book: Book) returns (s: Status, ghost book': Book)
    requires Inv(disk.fs, book) && Manifest !in disk.fs.Now()
    requires store.Valid() && store.Contents() == map[]
    modifies disk`fs, store.Repr()
    ensures Inv(disk.fs, book') && Started(old(disk.fs), disk.fs)
    ensures store.Valid() && fresh(store.Repr() - old(store.Repr()))
    ensures (book' == book && Gens(disk.fs) <= Gens(old(disk.fs)))
      || (book' == book[1 := store.Listed()] && InitLoad(old(disk.fs)) == (store.Contents(), Ok))
    ensures s == Ok ==> InitLoad(old(disk.fs)) == (store.Contents(), Ok) && Gens(disk.fs) == {1}
    ensures s == Ok ==> book' == book[1 := store.Listed()] && Marker !in disk.fs.Now()
    ensures disk.reliable && Short(old(disk.fs)) ==>
      (s == Ok <==> Bootable(old(disk.fs).Now()) && InitLoad(old(disk.fs)).1 == Ok)
    ensures !Bootable(old(disk.fs).Now()) ==> s != Ok && disk.fs == old(disk.fs) && book' == book
  {
    hide Prepared, Started, Inv, Gens, Boot, Anchored, HadArtifact, MapOf, Ascending, Short, Bootable, GenAt, InitLoad;
    book' := book;
    ghost var fs0 := disk.fs;
    InvWf(fs0, book);
    s := PrepareBootstrap(disk, book);
    ghost var fs1 := disk.fs;
    PreparedStarts(fs0, fs1);
    PreparedArtifacts(fs0, fs1);
    if s != Ok {
      return;
    }
    SameInitLoad(fs0, fs1);
    s, book' := Bootstrap(disk, store, book);
    PreparedThenStarted(fs0, fs1, disk.fs);
  }

  lemma NothingStarted(fs: Fs)
    requires fs.Wf()
    ensures Started(fs, fs)
  {
    PreparedRefl(fs);
    PreparedStarts(fs, fs);
  }

  /** The first step: the generation that an existing manifest names. */
  method FindManifest(disk: Disk, ghost book: Book) returns (s: Status, gen: nat)
    requires Inv(disk.fs, book)
    ensures disk.fs.Wf()
    ensures s == Ok ==> Manifest in disk.fs.Now() && gen == GenNow(disk.fs)
    ensures s == NotFound ==> Manifest !in disk.fs.Now()
    ensures disk.reliable ==> s == if Manifest in disk.fs.Now() then Ok else NotFound
  {
    hide Inv, GenNow, ManifestGeneration;
    InvWf(disk.fs, book);
    SoundGeneration(disk.fs, book);
    var g;
    s, g := ReadManifestGeneration(disk);
    gen := if s == Ok then g else 0;
  }

  lemma StartedUnexposed(a: Fs, b: Fs)
    requires Started(a, b)
    ensures a.Wf() && (!Exposed(a) && !Risky(a) ==> !Exposed(b))
  {
  }

  lemma StartedGens(a: Fs, b: Fs)
    requires Started(a, b) && Manifest in a.Now()
    ensures Gens(b) <= Gens(a)
  {
  }

  /** recover_stock_store. If a manifest is visible, recovery ends with the store its generation
      was made from; if none is, with the store of the init file, published as generation 1. On a
      disk without faults the first always succeeds, and the second succeeds exactly when there is
      a valid init file and the directory is a legal bootstrap state. Any other directory is
      refused whatever happens, and left as it is. */
  method RecoverStockStore(disk: Disk, store: StockStore, ghost book: Book)
      returns (s: Status, ghost book': Book)
    requires Inv(disk.fs, book)
    requires store.Valid() && store.Contents() == map[]
    modifies disk`fs, store.Repr()
    ensures Inv(disk.fs, book') && Started(old(disk.fs), disk.fs)
    ensures store.Valid() && fresh(store.Repr() - old(store.Repr()))
    ensures (book' == book && Gens(disk.fs) <= Gens(old(disk.fs)))
      || (book' == book[1 := store.Listed()] && InitLoad(old(disk.fs)) == (store.Contents(), Ok)
          && Manifest !in old(disk.fs).Now())
    ensures Manifest in old(disk.fs).Now() ==>
      var g := GenNow(old(disk.fs));
      g in book && book' == book && (s == Ok ==> store.Contents() == MapOf(book[g]))
    ensures Manifest !in old(disk.fs).Now() && s == Ok ==>
      && InitLoad(old(disk.fs)) == (store.Contents(), Ok)
      && Gens(disk.fs) == {1} && book' == book[1 := store.Listed()]
    ensures disk.reliable && Manifest in old(disk.fs).Now() ==> s == Ok
    ensures disk.reliable && Manifest !in old(disk.fs).Now() && Short(old(disk.fs)) ==>
      (s == Ok <==> Bootable(old(disk.fs).Now()) && InitLoad(old(disk.fs)).1 == Ok)
    ensures !Bootable(old(disk.fs).Now()) ==> s != Ok && disk.fs == old(disk.fs) && book' == book
    ensures !Exposed(old(disk.fs)) && !Risky(old(disk.fs)) ==> !Exposed(disk.fs)
    ensures s == Ok && (disk.reliable || Manifest !in old(disk.fs).Now()) ==> Marker !in disk.fs.Now()
  {
    assert Manifest in disk.fs.Now() ==> Bootable(disk.fs.Now());
    hide Prepared, Started, Inv, Gens, GenNow, GenAt, Boot, Anchored, HadArtifact, Short, Bootable, Holds, InitLoad;
    hide MapOf, Ascending, LoadText, ValidTree, Exposed, Risky, Unmarked;
    book' := book;
    ghost var fs0 := disk.fs;
    var gen;
    s, gen := FindManifest(disk, book);
    NothingStarted(fs0);
    RecoverableBook(fs0, book);
    if s == NotFound {
      s, book' := FirstStart(disk, store, book);
      StartedUnexposed(fs0, disk.fs);
      return;
    }
    if s != Ok {
      return;
    }
    s := RecoverPublished(disk, store, gen, book);
    StartedGens(fs0, disk.fs);
    StartedUnexposed(fs0, disk.fs);
  }
}
