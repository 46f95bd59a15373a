/** Publishing a generation and recovering the published one (stock_persistence.c), call by call on
    a disk where any call can fail and the process can end inside any call. */
module Publish {
  import opened Text
  import opened Stock
  import opened Records
  import opened Names
  import opened Disk
  import opened Visitors
  import opened Store
  import opened Loader
  import opened Generations

  // ---------- composing quiet steps ----------

  lemma CalmAgain(a: Fs, b: Fs, c: Fs, t: set<Name>)
    requires Calm(a, b, t) && Calm(b, c, t)
    ensures Calm(a, c, t)
  {
    hide Gens, GenNow, Short, Boot, Anchored, HadArtifact, PathFits;
  }

  lemma CalmWiden(a: Fs, b: Fs, t: set<Name>, u: set<Name>)
    requires Calm(a, b, t) && t <= u
    ensures Calm(a, b, u)
  {
    hide Gens, GenNow, Short, Boot, Anchored, HadArtifact, PathFits;
  }

  lemma UnnamedStays(a: Fs, b: Fs, n: Name, t: set<Name>)
    requires Calm(a, b, t) && Unnamed(a, n)
    ensures Unnamed(b, n)
  {
    hide Gens, GenNow, Short, Boot, Anchored, HadArtifact, PathFits;
  }

  // ---------- the calls, with what they keep ----------

  /** fopen(path, "w") on a file that no manifest names. */
  method Create(disk: Disk, n: Name, ghost book: Book) returns (s: Status, ino: nat)
    requires Inv(disk.fs, book) && Unnamed(disk.fs, n)
    modifies disk`fs
    ensures Inv(disk.fs, book) && Calm(old(disk.fs), disk.fs, {n}) && Unnamed(disk.fs, n)
    ensures s == Ok || s == Io || s == Halted
    ensures s == Ok ==> n in disk.fs.Now() && ino == disk.fs.Now()[n]
    ensures disk.reliable ==> s == Ok
  {
    hide Unnamed, Calm, Apart, Sound;
    ghost var fs0 := disk.fs;
    ghost var junk: string;
    s, ino, junk := disk.OpenForWrite(n);
    if s == Ok {
      OpenedQuiet(fs0, n, junk);
      QuietKeeps(fs0, disk.fs, n, book);
    } else {
      CalmRefl(fs0, {n});
    }
    UnnamedStays(fs0, disk.fs, n, {n});
  }

  /** The failure path of every writer: fclose, unlink, and the status that led here. The file is gone
      unless the unlink itself failed. */
  method Discard(disk: Disk, n: Name, failure: Status, ghost book: Book) returns (s: Status)
    requires Inv(disk.fs, book) && Unnamed(disk.fs, n) && failure != Ok
    modifies disk`fs
    ensures Inv(disk.fs, book) && Calm(old(disk.fs), disk.fs, {n})
    ensures s == failure || s == Halted
    ensures disk.unlinks && s != Halted ==> n !in disk.fs.Now()
  {
    hide Unnamed, Calm, Apart, Sound;
    CalmRefl(disk.fs, {n});
    if failure == Halted {
      return Halted;
    }
    var closed := disk.Close();
    if closed == Halted {
      return Halted;
    }
    ghost var fs0 := disk.fs;
    var gone := disk.Unlink(n);
    if gone == Ok {
      UnlinkedQuiet(fs0, n);
      QuietKeeps(fs0, disk.fs, n, book);
      assert disk.fs.Now() == fs0.Now() - {n};
    }
    s := if gone == Halted then Halted else failure;
  }

  /** Flush, fsync and close the file n. */
  method WriteOut(disk: Disk, n: Name, ino: nat, text: string, ghost book: Book) returns (s: Status)
    requires Inv(disk.fs, book) && Unnamed(disk.fs, n)
    requires n in disk.fs.Now() && ino == disk.fs.Now()[n]
    modifies disk`fs
    ensures Inv(disk.fs, book) && Calm(old(disk.fs), disk.fs, {n}) && Unnamed(disk.fs, n)
    ensures s == Ok || s == Io || s == Halted
    ensures s == Ok ==> n in disk.fs.Now() && disk.fs.inodes[disk.fs.Now()[n]] == Inode(text, true)
    ensures disk.reliable ==> s == Ok
  {
    hide Unnamed, Calm, Apart, Sound;
    ghost var fs0 := disk.fs;
    CalmRefl(fs0, {n});
    s := disk.Flush(ino, text);
    if s != Ok {
      return;
    }
    WrittenQuiet(fs0, n, text);
    QuietKeeps(fs0, disk.fs, n, book);
    ghost var fs1 := disk.fs;
    UnnamedStays(fs0, fs1, n, {n});
    s := disk.Fsync(ino);
    if s != Ok {
      return;
    }
    WrittenQuiet(fs1, n, text);
    QuietKeeps(fs1, disk.fs, n, book);
    CalmAgain(fs0, fs1, disk.fs, {n});
    UnnamedStays(fs1, disk.fs, n, {n});
    s := disk.Close();
  }

  /** From the last print to fclose: flush, fsync and close the file n, or discard it. */
  method FinishFile(disk: Disk, n: Name, ino: nat, text: string, printed: Status, ghost book: Book)
      returns (s: Status)
    requires Inv(disk.fs, book) && Unnamed(disk.fs, n)
    requires n in disk.fs.Now() && ino == disk.fs.Now()[n]
    modifies disk`fs
    ensures Inv(disk.fs, book) && Calm(old(disk.fs), disk.fs, {n})
    ensures s == Ok || s == Io || s == Halted || s == printed
    ensures s == Ok ==> printed == Ok
    ensures s == Ok ==> n in disk.fs.Now() && disk.fs.inodes[disk.fs.Now()[n]] == Inode(text, true)
    ensures disk.unlinks && s != Ok && s != Halted ==> n !in disk.fs.Now()
    ensures disk.reliable && printed == Ok ==> s == Ok
  {
    hide Unnamed, Calm, Apart, Sound;
    ghost var fs0 := disk.fs;
    CalmRefl(fs0, {n});
    s := printed;
    if s == Ok {
      s := WriteOut(disk, n, ino, text, book);
    }
    if s != Ok {
      ghost var fs1 := disk.fs;
      s := Discard(disk, n, s, book);
      CalmAgain(fs0, fs1, disk.fs, {n});
    }
  }

  /** fsync_parent_dir. */
  method SyncDirectory(disk: Disk, ghost book: Book) returns (s: Status)
    requires Inv(disk.fs, book)
    modifies disk`fs
    ensures Inv(disk.fs, book) && Calm(old(disk.fs), disk.fs, {})
    ensures s == Ok || s == Io || s == Halted
    ensures s == Ok ==> disk.fs == DirSynced(old(disk.fs)) && Gens(disk.fs) == {GenNow(old(disk.fs))}
    ensures s != Ok ==> disk.fs == old(disk.fs)
    ensures disk.reliable ==> s == Ok
  {
    hide Calm, Apart, Sound;
    ghost var fs0 := disk.fs;
    s := disk.FsyncDir();
    if s == Ok {
      SyncKeeps(fs0, book);
    } else {
      CalmRefl(fs0, {});
    }
  }

  lemma SyncedHolds(fs: Fs, n: Name, text: string)
    requires fs.Wf() && n in fs.Now() && fs.inodes[fs.Now()[n]] == Inode(text, true)
    ensures DirSynced(fs).Wf() && Holds(DirSynced(fs), n, text)
  {
  }

  lemma InvWf(fs: Fs, book: Book)
    requires Inv(fs, book)
    ensures fs.Wf()
  {
  }

  lemma CalmGen(a: Fs, b: Fs, t: set<Name>)
    requires Calm(a, b, t)
    ensures a.Wf() && b.Wf() && Gens(b) <= Gens(a) && GenNow(b) == GenNow(a)
  {
  }

  /** FinishFile and then the fsync of the directory: on success the file is durable. */
  method FinishAndSync(disk: Disk, n: Name, ino: nat, text: string, printed: Status, ghost book: Book)
      returns (s: Status)
    requires Inv(disk.fs, book) && Unnamed(disk.fs, n)
    requires n in disk.fs.Now() && ino == disk.fs.Now()[n]
    modifies disk`fs
    ensures Inv(disk.fs, book) && Calm(old(disk.fs), disk.fs, {n})
    ensures s == Ok || s == Io || s == Halted || s == printed
    ensures s == Ok ==> printed == Ok
    ensures s == Ok ==> Holds(disk.fs, n, text) && Gens(disk.fs) == {GenNow(old(disk.fs))}
    ensures disk.reliable && printed == Ok ==> s == Ok
  {
    hide Unnamed, Calm, Inv;
    ghost var fs0 := disk.fs;
    InvWf(fs0, book);
    s := FinishFile(disk, n, ino, text, printed, book);
    ghost var fs1 := disk.fs;
    InvWf(fs1, book);
    CalmGen(fs0, fs1, {n});
    if s != Ok {
      return;
    }
    s := SyncDirectory(disk, book);
    InvWf(disk.fs, book);
    CalmWiden(fs1, disk.fs, {}, {n});
    CalmAgain(fs0, fs1, disk.fs, {n});
    if s == Ok {
      SyncedHolds(fs1, n, text);
    }
  }

  // ---------- the three files of a generation ----------

  /** The inorder walk of save_snapshot_file with write_snapshot_node. */
  method PrintSnapshot(store: StockStore, reliable: bool) returns (s: Status, text: string)
    requires store.Valid() && GoodStore(store.Contents())
    ensures s == Ok ==> text == RowsText(store.Listed())
    ensures s == Ok || s == Io || s == Internal
    ensures reliable ==> s == Ok
  {
    hide MapOf, Ascending, GoodRows;
    var fp := new Stream(reliable);
    GoodBothWays(store.Listed());
    ghost var seen: seq<Row>;
    s, seen := Walk(store.root, Visitor.Print(fp));
    text := fp.text;
    assert "" + RowsText(seen) == RowsText(seen);
  }

  /** save_snapshot_file. */
  method SaveSnapshotFile(disk: Disk, store: StockStore, g: nat, ghost book: Book) returns (s: Status)
    requires Inv(disk.fs, book) && Unnamed(disk.fs, GenName(Snapshot, g))
    requires store.Valid() && GoodStore(store.Contents())
    modifies disk`fs
    ensures Inv(disk.fs, book) && Calm(old(disk.fs), disk.fs, {GenName(Snapshot, g)})
    ensures s == Ok ==> Holds(disk.fs, GenName(Snapshot, g), RowsText(store.Listed()))
    ensures s == Ok || s == Io || s == Internal || s == Halted
    ensures disk.reliable ==> s == Ok
  {
    hide Unnamed, Calm, Inv, MapOf, Ascending;
    ghost var fs0 := disk.fs;
    var n := GenName(Snapshot, g);
    var ino: nat;
    s, ino := Create(disk, n, book);
    if s != Ok {
      return;
    }
    ghost var fs1 := disk.fs;
    var printed, text := PrintSnapshot(store, disk.reliable);
    s := FinishAndSync(disk, n, ino, text, printed, book);
    CalmAgain(fs0, fs1, disk.fs, {n});
  }

  /** create_empty_aof_file. */
  method CreateEmptyAofFile(disk: Disk, g: nat, ghost book: Book) returns (s: Status)
    requires Inv(disk.fs, book) && Unnamed(disk.fs, GenName(Aof, g))
    modifies disk`fs
    ensures Inv(disk.fs, book) && Calm(old(disk.fs), disk.fs, {GenName(Aof, g)})
    ensures s == Ok ==> Holds(disk.fs, GenName(Aof, g), "") && Gens(disk.fs) == {GenNow(old(disk.fs))}
    ensures s == Ok || s == Io || s == Halted
    ensures disk.reliable ==> s == Ok
  {
    hide Unnamed, Calm, Inv;
    ghost var fs0 := disk.fs;
    InvWf(fs0, book);
    var n := GenName(Aof, g);
    var ino: nat;
    s, ino := Create(disk, n, book);
    if s != Ok {
      return;
    }
    ghost var fs1 := disk.fs;
    CalmGen(fs0, fs1, {n});
    s := FinishAndSync(disk, n, ino, "", Ok, book);
    CalmAgain(fs0, fs1, disk.fs, {n});
  }

  /** What write_manifest_file keeps, whether or not it got as far as the rename. */
  ghost predicate Moved(fs: Fs, fs': Fs, g: nat) {
    && fs.Wf() && fs'.Wf()
    && Gens(fs') <= Gens(fs) + {g}
    && (GenNow(fs') == GenNow(fs) || GenNow(fs') == g)
    && (Manifest in fs.Now() ==> Manifest in fs'.Now())
    && (Marker in fs'.Now() <==> Marker in fs.Now())
    && InitText(fs') == InitText(fs)
    && (Anchored(fs) ==> Anchored(fs'))
    && (forall m, text :: m != Manifest && m != ManifestTmp && Holds(fs, m, text) ==> Holds(fs', m, text))
    && (Short(fs) ==> Short(fs'))
    && (Boot(fs) && Guarded(fs) ==> Boot(fs'))
  }

  lemma CalmMoves(a: Fs, b: Fs, g: nat)
    requires Calm(a, b, {ManifestTmp})
    ensures Moved(a, b, g)
  {
    hide Gens, GenNow, Short, Boot, Anchored, HadArtifact, PathFits, Holds;
    ManifestFits();
  }

  lemma MovedThenCalm(a: Fs, b: Fs, c: Fs, g: nat)
    requires Moved(a, b, g) && Calm(b, c, {})
    ensures Moved(a, c, g)
  {
    hide Gens, GenNow, Short, Boot, Anchored, HadArtifact, PathFits, Holds;
  }

  lemma CalmThenRename(a: Fs, b: Fs, book: Book, g: nat)
    requires Calm(a, b, {ManifestTmp}) && Inv(b, book) && ManifestTmp in b.Now()
    requires b.inodes[b.Now()[ManifestTmp]] == Inode(ManifestText(g), true)
    requires 1 <= g <= LLONG_MAX && GenNow(a) <= g && g in book && Complete(a, g, book[g])
    ensures var c := Renamed(b, ManifestTmp, Manifest);
      Inv(c, book) && Moved(a, c, g) && GenNow(c) == g && Manifest in c.Now() && GenNow(a) in Gens(c)
  {
    hide Gens, GenNow, GenAt, Short, Boot, Anchored, HadArtifact, PathFits, ManifestText, RowsText, Holds, Inv;
    InvWf(b, book);
    CurrentNamed(b);
    RenameKeeps(b, book, g);
    InvWf(Renamed(b, ManifestTmp, Manifest), book);
    ManifestFits();
  }

  lemma StillNamed(a: Fs, b: Fs, t: set<Name>)
    requires Calm(a, b, t)
    ensures a.Wf() && b.Wf() && GenNow(a) in Gens(b)
  {
    hide Gens, GenNow;
    CurrentNamed(b);
  }

  /** write_manifest_file. It reports a failure only if a crash may still bring the old generation back. */
  method WriteManifestFile(disk: Disk, g: nat, ghost book: Book) returns (s: Status)
    requires Inv(disk.fs, book) && 1 <= g <= LLONG_MAX && GenNow(disk.fs) <= g
    requires g in book && Complete(disk.fs, g, book[g])
    modifies disk`fs
    ensures Inv(disk.fs, book) && Moved(old(disk.fs), disk.fs, g)
    ensures s == Ok ==> Gens(disk.fs) == {g} && Manifest in disk.fs.Now()
    ensures s == Io ==> GenNow(old(disk.fs)) in Gens(disk.fs)
    ensures s == Ok || s == Io || s == Halted
    ensures disk.reliable ==> s == Ok
  {
    hide Calm, Moved, Inv, Complete, ManifestText, Gens, GenNow;
    ghost var fs0 := disk.fs;
    InvWf(fs0, book);
    var ino: nat;
    s, ino := Create(disk, ManifestTmp, book);
    ghost var fs1 := disk.fs;
    CalmMoves(fs0, fs1, g);
    StillNamed(fs0, fs1, {ManifestTmp});
    if s != Ok {
      return;
    }
    s := FinishFile(disk, ManifestTmp, ino, ManifestText(g), Ok, book);
    ghost var fs2 := disk.fs;
    CalmAgain(fs0, fs1, fs2, {ManifestTmp});
    CalmMoves(fs0, fs2, g);
    StillNamed(fs0, fs2, {ManifestTmp});
    if s != Ok {
      return;
    }
    InvWf(fs2, book);
    s := disk.Rename(ManifestTmp, Manifest);
    if s != Ok {
      s := Discard(disk, ManifestTmp, s, book);
      CalmAgain(fs0, fs2, disk.fs, {ManifestTmp});
      CalmMoves(fs0, disk.fs, g);
      StillNamed(fs0, disk.fs, {ManifestTmp});
      return;
    }
    CalmThenRename(fs0, fs2, book, g);
    ghost var fs3 := disk.fs;
    s := SyncDirectory(disk, book);
    MovedThenCalm(fs0, fs3, disk.fs, g);
    InvWf(disk.fs, book);
  }

  // ---------- cleanup ----------

  /** What cleanup_old_generation_files(g) unlinks. */
  predicate Doomed(n: Name, g: nat) { IsArtifact(n) && GenOf(n) != Some(g) }

  /** What a cleanup keeps: it only removes names, and only doomed ones. */
  ghost predicate Cleaned(fs: Fs, fs': Fs, g: nat) {
    && fs.Wf() && fs'.Wf()
    && Gens(fs') <= Gens(fs) && GenNow(fs') == GenNow(fs)
    && (forall n :: n in fs'.Now() ==> n in fs.Now())
    && (forall n :: n in fs.Now() && !Doomed(n, g) ==> n in fs'.Now())
    && (Anchored(fs) ==> Anchored(fs'))
    && (HadArtifact(fs') ==> HadArtifact(fs))
    && InitText(fs') == InitText(fs)
    && (forall n, text :: !Doomed(n, g) && Holds(fs, n, text) ==> Holds(fs', n, text))
    && (Short(fs) ==> Short(fs'))
    && (Boot(fs) && Guarded(fs) ==> Boot(fs'))
  }

  lemma NotDoomed(g: nat)
    ensures !Doomed(Manifest, g) && !Doomed(Marker, g) && !Doomed(InitFile, g)
    ensures 1 <= g <= LLONG_MAX ==> forall kind :: !Doomed(GenName(kind, g), g)
  {
    if 1 <= g <= LLONG_MAX {
      forall kind ensures !Doomed(GenName(kind, g), g) { SuffixInvertsRender(kind, g); }
    }
  }

  /** cleanup(g) never touches the canonical files of g, nor the manifest. */
  lemma DoomedUnnamed(fs: Fs, book: Book, n: Name, g: nat)
    requires Inv(fs, book) && Gens(fs) == {g} && Doomed(n, g)
    ensures Unnamed(fs, n)
  {
    hide IsArtifact;
    NotDoomed(g);
    if g > 0 {
      var k := |fs.trail| - 1;
      assert GenAt(fs, k) in Gens(fs) && Sound(fs, book, k);
    }
  }

  lemma UnlinkCleans(fs: Fs, n: Name, g: nat)
    requires fs.Wf() && Calm(fs, Unlinked(fs, n), {n}) && Doomed(n, g)
    ensures Cleaned(fs, Unlinked(fs, n), g)
  {
    hide IsArtifact, PathFits, Gens, Boot, Anchored;
    NotDoomed(g);
    var fs' := Unlinked(fs, n);
    assert fs'.Now() == fs.Now() - {n};
    if HadArtifact(fs') {
      var k, m :| 0 <= k < |fs'.trail| && m in fs'.trail[k] && IsArtifact(m);
      if k == |fs.trail| { assert m in fs.trail[k - 1]; } else { assert m in fs.trail[k]; }
    }
    if Short(fs) {
      forall k, m | 0 <= k < |fs'.trail| && m in fs'.trail[k] ensures PathFits(m) {
        if k == |fs.trail| { assert m in fs.trail[k - 1]; } else { assert m in fs.trail[k]; }
      }
    }
  }

  lemma CleanedTrans(a: Fs, b: Fs, c: Fs, g: nat)
    requires Cleaned(a, b, g) && Cleaned(b, c, g)
    ensures Cleaned(a, c, g)
  {
    hide IsArtifact, Gens, GenNow, Boot, Anchored, HadArtifact, Doomed;
    NotDoomed(g);
  }

  lemma CleanedRefl(fs: Fs, g: nat)
    requires fs.Wf()
    ensures Cleaned(fs, fs, g)
  {
  }

  lemma CleanedSubset(a: Fs, b: Fs, g: nat)
    requires Cleaned(a, b, g)
    ensures a.Wf() && b.Wf() && Gens(b) <= Gens(a) && forall n :: n in b.Now() ==> n in a.Now()
  {
  }

  lemma SingleGen(fs: Fs, g: nat)
    requires fs.Wf() && Gens(fs) <= {g}
    ensures Gens(fs) == {g}
  {
    assert GenAt(fs, 0) in Gens(fs);
  }

  /** The directory after unlinking the names in this order. */
  function Gone(fs: Fs, names: seq<Name>): (fs': Fs)
    requires fs.Wf()
    ensures fs'.Wf()
  {
    if names == [] then fs else Unlinked(Gone(fs, names[..|names| - 1]), names[|names| - 1])
  }

  lemma GoneOneMore(fs: Fs, names: seq<Name>, n: Name)
    requires fs.Wf()
    ensures Gone(fs, names + [n]) == Unlinked(Gone(fs, names), n)
  {
    assert (names + [n])[..|names|] == names;
  }

  method UnlinkDoomed(disk: Disk, n: Name, g: nat, ghost book: Book) returns (s: Status)
    requires Inv(disk.fs, book) && Gens(disk.fs) == {g} && Doomed(n, g)
    modifies disk`fs
    ensures Inv(disk.fs, book) && Cleaned(old(disk.fs), disk.fs, g) && Gens(disk.fs) == {g}
    ensures s == Ok || s == Io || s == Halted
    ensures s == Ok ==> n !in disk.fs.Now()
    ensures disk.fs == old(disk.fs) || disk.fs == Unlinked(old(disk.fs), n)
    ensures disk.reliable ==> s == Ok
  {
    hide Cleaned, Calm, Gens, Doomed, Unnamed, Apart, Sound;
    ghost var fs0 := disk.fs;
    DoomedUnnamed(fs0, book, n, g);
    s := disk.Unlink(n);
    if s == Ok {
      UnlinkedQuiet(fs0, n);
      QuietKeeps(fs0, disk.fs, n, book);
      UnlinkCleans(fs0, n, g);
      CleanedSubset(fs0, disk.fs, g);
      SingleGen(disk.fs, g);
      assert disk.fs.Now() == fs0.Now() - {n};
    } else {
      CleanedRefl(fs0, g);
      if s == NotFound {
        s := Ok;
      }
    }
  }

  lemma TmpIsDoomed(g: nat)
    ensures Doomed(ManifestTmp, g)
  {
  }

  /** No temporary manifest, and no generation but g. */
  ghost predicate OnlyGeneration(fs: Fs, g: nat)
    requires fs.Wf()
  {
    ManifestTmp !in fs.Now() && forall n :: n in fs.Now() && GenOf(n).Some? ==> GenOf(n) == Some(g)
  }

  lemma IsOnly(fs: Fs, g: nat)
    requires fs.Wf() && ManifestTmp !in fs.Now()
    requires forall n :: n in fs.Now() && GenOf(n).Some? ==> GenOf(n) == Some(g)
    ensures OnlyGeneration(fs, g)
  {
  }

  lemma OnlyMeans(fs: Fs, g: nat)
    requires fs.Wf() && OnlyGeneration(fs, g)
    ensures ManifestTmp !in fs.Now()
    ensures forall n :: n in fs.Now() && GenOf(n).Some? ==> GenOf(n) == Some(g)
  {
  }

  /** The source's own words for what is unlinked and what is not. */
  lemma DoomedMeans(n: Name, g: nat)
    ensures Doomed(n, g) <==> n == ManifestTmp || (GenOf(n).Some? && GenOf(n) != Some(g))
  {
  }

  lemma CleanedMeans(fs: Fs, fs': Fs, g: nat)
    requires Cleaned(fs, fs', g)
    ensures fs.Wf() && fs'.Wf()
    ensures forall n :: n in fs.Now() && n != ManifestTmp && (GenOf(n) == None || GenOf(n) == Some(g)) ==>
      n in fs'.Now()
    ensures forall n :: n in fs'.Now() ==> n in fs.Now()
    ensures (forall n :: n in fs'.Now() ==> !Doomed(n, g)) ==> OnlyGeneration(fs', g)
  {
    hide GenOf, IsArtifact, Doomed;
    forall n ensures Doomed(n, g) <==> n == ManifestTmp || (GenOf(n).Some? && GenOf(n) != Some(g)) {
      DoomedMeans(n, g);
    }
  }

  /** cleanup_old_generation_files. */
  method CleanupOldGenerationFiles(disk: Disk, g: nat, ghost book: Book)
      returns (s: Status, ghost gone: seq<Name>)
    requires Inv(disk.fs, book) && Gens(disk.fs) == {g}
    modifies disk`fs
    ensures Inv(disk.fs, book) && Cleaned(old(disk.fs), disk.fs, g) && Gens(disk.fs) == {g}
    ensures disk.fs == Gone(old(disk.fs), gone) && forall n :: n in gone ==> Doomed(n, g)
    ensures s == Ok ==> forall n :: n in disk.fs.Now() ==> !Doomed(n, g)
    ensures s == Ok ==> ManifestTmp !in disk.fs.Now()
    ensures s == Ok ==> forall n :: n in disk.fs.Now() && GenOf(n).Some? ==> GenOf(n) == Some(g)
    ensures forall n :: n in old(disk.fs).Now() && n != ManifestTmp && (GenOf(n) == None || GenOf(n) == Some(g)) ==>
      n in disk.fs.Now()
    ensures forall n :: n in disk.fs.Now() ==> n in old(disk.fs).Now()
    ensures disk.reliable ==> s == Ok || s == Internal
    ensures disk.reliable && Short(old(disk.fs)) ==> s == Ok
    ensures s == Ok || s == Io || s == Internal || s == Halted
  {
    hide Cleaned, Inv, PathFits, Gens, GenOf, OnlyGeneration;
    ghost var fs0 := disk.fs;
    gone := [];
    InvWf(fs0, book);
    assert Short(fs0) ==> forall n :: n in fs0.trail[|fs0.trail| - 1] ==> PathFits(n);
    CleanedRefl(fs0, g);
    CleanedMeans(fs0, fs0, g);
    var names: seq<Name>;
    s, names := disk.OpenDir();
    if s != Ok {
      return;
    }
    var i := 0;
    while i < |names|
      invariant 0 <= i <= |names|
      invariant disk.fs.Wf() && Inv(disk.fs, book) && Cleaned(fs0, disk.fs, g) && Gens(disk.fs) == {g}
      invariant forall j :: 0 <= j < i && Doomed(names[j], g) ==> names[j] !in disk.fs.Now()
      invariant disk.fs == Gone(fs0, gone) && forall n :: n in gone ==> Doomed(n, g)
    {
      var n := names[i];
      if !PathFits(n) {
        assert n in names;
        CleanedMeans(fs0, disk.fs, g);
        s := Internal;
        return;
      }
      ghost var fs1 := disk.fs;
      if n == ManifestTmp {
        TmpIsDoomed(g);
        s := UnlinkDoomed(disk, n, g, book);
      } else if GenOf(n).Some? && GenOf(n) != Some(g) {
        s := UnlinkDoomed(disk, n, g, book);
      } else {
        CleanedRefl(fs1, g);
        s := Ok;
      }
      CleanedTrans(fs0, fs1, disk.fs, g);
      CleanedSubset(fs1, disk.fs, g);
      if disk.fs != fs1 {
        GoneOneMore(fs0, gone, n);
        gone := gone + [n];
      }
      if s != Ok {
        CleanedMeans(fs0, disk.fs, g);
        return;
      }
      i := i + 1;
    }
    CleanedSubset(fs0, disk.fs, g);
    forall n | n in disk.fs.Now() ensures !Doomed(n, g) {
      assert n in names;
      var j :| 0 <= j < |names| && names[j] == n;
    }
    CleanedMeans(fs0, disk.fs, g);
    OnlyMeans(disk.fs, g);
    s := Ok;
  }

  // ---------- materialize ----------

  /** What a materialization of generation g does to the directory, wherever it stopped: the
      manifest names what it named before, or g. */
  ghost predicate Advanced(fs: Fs, fs': Fs, g: nat) {
    && fs.Wf() && fs'.Wf()
    && Gens(fs') <= Gens(fs) + {g}
    && (GenNow(fs') == GenNow(fs) || GenNow(fs') == g)
    && (Manifest in fs.Now() ==> Manifest in fs'.Now())
    && (Marker in fs'.Now() <==> Marker in fs.Now())
    && InitText(fs') == InitText(fs)
    && (Anchored(fs) ==> Anchored(fs'))
    && (forall text :: Holds(fs, InitFile, text) ==> Holds(fs', InitFile, text))
    && (Short(fs) ==> Short(fs'))
    && (Boot(fs) && Guarded(fs) ==> Boot(fs'))
  }

  lemma GenNameFits(kind: Kind, g: nat)
    requires g <= LLONG_MAX
    ensures PathFits(GenName(kind, g))
  {
    GenerationPathFits(kind, g);
  }

  lemma CalmAdvances(a: Fs, b: Fs, kind: Kind, g: nat)
    requires Calm(a, b, {GenName(kind, g)}) && g <= LLONG_MAX
    ensures Advanced(a, b, g)
  {
    hide Gens, GenNow, Short, Boot, Anchored, HadArtifact, PathFits, Holds;
    GenNameFits(kind, g);
  }

  lemma MoveAdvances(a: Fs, b: Fs, g: nat)
    requires Moved(a, b, g)
    ensures Advanced(a, b, g)
  {
    hide Gens, GenNow, Short, Boot, Anchored, HadArtifact, Holds;
  }

  lemma CleanAdvances(a: Fs, b: Fs, g: nat)
    requires Cleaned(a, b, g)
    ensures Advanced(a, b, g)
  {
    hide Gens, GenNow, Boot, Anchored, HadArtifact, Holds, Doomed, PathFits;
    NotDoomed(g);
  }

  lemma AdvancedTrans(a: Fs, b: Fs, c: Fs, g: nat)
    requires Advanced(a, b, g) && Advanced(b, c, g)
    ensures Advanced(a, c, g)
  {
    hide Gens, GenNow, Short, Boot, Anchored, HadArtifact, Holds;
  }

  lemma AdvancedRefl(fs: Fs, g: nat)
    requires fs.Wf()
    ensures Advanced(fs, fs, g)
  {
  }

  lemma GenZero(fs: Fs, k: nat)
    requires fs.Wf() && k < |fs.trail|
    ensures Manifest !in fs.trail[k] ==> GenAt(fs, k) == 0
  {
  }

  /** The files of the next generation belong to nobody yet, so its book entry is free. */
  lemma NextIsFree(fs: Fs, book: Book, rows: seq<Row>)
    requires Inv(fs, book)
    ensures var g := GenNow(fs) + 1;
      && Inv(fs, book[g := rows]) && g !in Gens(fs)
      && (g <= LLONG_MAX ==>
           Unnamed(fs, GenName(Snapshot, g)) && Unnamed(fs, GenName(Aof, g)))
  {
    hide GenAt, Complete, Apart;
    var g, last := GenNow(fs) + 1, |fs.trail| - 1;
    forall h | h in Gens(fs) ensures h < g && (0 < h <= LLONG_MAX && g <= LLONG_MAX ==>
      GenName(Snapshot, g) != GenName(Snapshot, h) && GenName(Aof, g) != GenName(Aof, h))
    {
      var k :| 0 <= k < |fs.trail| && h == GenAt(fs, k);
      assert GenAt(fs, k) <= GenAt(fs, last);
      if 0 < h <= LLONG_MAX && g <= LLONG_MAX {
        SuffixInvertsRender(Snapshot, g);
        SuffixInvertsRender(Snapshot, h);
        SuffixInvertsRender(Aof, g);
        SuffixInvertsRender(Aof, h);
      }
    }
    var book' := book[g := rows];
    forall k | 0 <= k < |fs.trail| ensures Sound(fs, book', k) {
      assert Sound(fs, book, k) && GenAt(fs, k) in Gens(fs);
    }
    forall h | h in Gens(fs) ensures h <= LLONG_MAX {
      var k :| 0 <= k < |fs.trail| && h == GenAt(fs, k);
      assert Sound(fs, book, k);
      GenZero(fs, k);
    }
  }

  /** In a sound directory the manifest, when there is one, is readable and positive. */
  lemma SoundGeneration(fs: Fs, book: Book)
    requires Inv(fs, book)
    ensures Manifest in fs.Now() ==>
      ManifestGeneration(FileText(fs, Manifest)) == (Ok, GenNow(fs) as int) && GenNow(fs) >= 1
    ensures Manifest !in fs.Now() ==> GenNow(fs) == 0
  {
    hide ManifestGeneration, Complete;
    assert Sound(fs, book, |fs.trail| - 1);
  }

  lemma CompleteFrom(fs: Fs, fs': Fs, g: nat, rows: seq<Row>)
    requires Calm(fs, fs', {GenName(Aof, g)})
    requires Ascending(rows) && GoodRows(rows)
    requires Holds(fs, GenName(Snapshot, g), RowsText(rows)) && Holds(fs', GenName(Aof, g), "")
    ensures Complete(fs', g, rows)
  {
  }

  /** The first half of materialize: the snapshot and the empty log of the next generation. */
  method WriteGenerationFiles(disk: Disk, store: StockStore, g: nat, ghost book: Book) returns (s: Status)
    requires Inv(disk.fs, book) && 1 <= g <= LLONG_MAX
    requires Unnamed(disk.fs, GenName(Snapshot, g)) && Unnamed(disk.fs, GenName(Aof, g))
    requires store.Valid() && GoodStore(store.Contents())
    modifies disk`fs
    ensures Inv(disk.fs, book) && Advanced(old(disk.fs), disk.fs, g) && GenNow(disk.fs) == GenNow(old(disk.fs))
    ensures Manifest in disk.fs.Now() <==> Manifest in old(disk.fs).Now()
    ensures s == Ok ==> Complete(disk.fs, g, store.Listed())
    ensures disk.reliable ==> s == Ok
  {
    hide Inv, Gens, Unnamed, Advanced, MapOf, Ascending, Boot, Anchored, HadArtifact, Short, GenAt;
    ghost var fs0, rows := disk.fs, store.Listed();
    s := SaveSnapshotFile(disk, store, g, book);
    ghost var fs1 := disk.fs;
    CalmAdvances(fs0, fs1, Snapshot, g);
    CalmGen(fs0, fs1, {GenName(Snapshot, g)});
    if s != Ok {
      return;
    }
    UnnamedStays(fs0, fs1, GenName(Aof, g), {GenName(Snapshot, g)});
    s := CreateEmptyAofFile(disk, g, book);
    CalmAdvances(fs1, disk.fs, Aof, g);
    AdvancedTrans(fs0, fs1, disk.fs, g);
    CalmGen(fs1, disk.fs, {GenName(Aof, g)});
    if s == Ok {
      GoodBothWays(rows);
      CompleteFrom(fs1, disk.fs, g, rows);
    }
  }

  lemma AdvancedManifest(a: Fs, b: Fs, g: nat)
    requires Advanced(a, b, g) && Manifest in a.Now()
    ensures Manifest in b.Now()
  {
  }

  lemma AdvancedShort(a: Fs, b: Fs, g: nat)
    requires Advanced(a, b, g)
    ensures Short(a) ==> Short(b)
  {
  }

  /** The second half: the manifest switch, and the cleanup whose failure is only a warning. */
  method SwitchGeneration(disk: Disk, g: nat, ghost book: Book) returns (s: Status)
    requires Inv(disk.fs, book) && 1 <= g <= LLONG_MAX && GenNow(disk.fs) <= g
    requires g in book && Complete(disk.fs, g, book[g])
    modifies disk`fs
    ensures Inv(disk.fs, book) && Advanced(old(disk.fs), disk.fs, g)
    ensures s == Ok ==> Gens(disk.fs) == {g} && Manifest in disk.fs.Now()
    ensures s == Ok || s == Halted || GenNow(old(disk.fs)) in Gens(disk.fs)
    ensures disk.reliable ==> s == Ok
    ensures disk.reliable && Short(old(disk.fs)) ==> OnlyGeneration(disk.fs, g)
  {
    hide Inv, Gens, Moved, Cleaned, Advanced, Doomed, OnlyGeneration, GenOf;
    hide Boot, Anchored, HadArtifact, Short, GenAt, Complete;
    ghost var fs0 := disk.fs;
    s := WriteManifestFile(disk, g, book);
    ghost var fs1 := disk.fs;
    MoveAdvances(fs0, fs1, g);
    AdvancedShort(fs0, fs1, g);
    if s != Ok {
      return;
    }
    ghost var gone: seq<Name>;
    s, gone := CleanupOldGenerationFiles(disk, g, book);
    CleanAdvances(fs1, disk.fs, g);
    AdvancedTrans(fs0, fs1, disk.fs, g);
    AdvancedManifest(fs1, disk.fs, g);
    if s == Ok { IsOnly(disk.fs, g); }
    if s != Halted {
      s := Ok;
    }
  }

  /** materialize_store_generation. Wherever it stops, the directory is sound for the book with the
      new store added, and its manifest names at every point of the trail what it named before or
      the next generation; after success, the next generation and nothing else. */
  method MaterializeStoreGeneration(disk: Disk, store: StockStore, ghost book: Book)
      returns (s: Status, ghost book': Book)
    requires Inv(disk.fs, book) && GenNow(disk.fs) < LLONG_MAX
    requires store.Valid() && GoodStore(store.Contents())
    modifies disk`fs
    ensures book' == book[GenNow(old(disk.fs)) + 1 := store.Listed()]
    ensures Inv(disk.fs, book') && Advanced(old(disk.fs), disk.fs, GenNow(old(disk.fs)) + 1)
    ensures s == Ok ==> Gens(disk.fs) == {GenNow(old(disk.fs)) + 1} && Manifest in disk.fs.Now()
    ensures s == Ok || s == Halted || GenNow(old(disk.fs)) in Gens(disk.fs)
    ensures disk.reliable ==> s == Ok
    ensures disk.reliable && Short(old(disk.fs)) ==> ManifestTmp !in disk.fs.Now()
    ensures disk.reliable && Short(old(disk.fs)) ==>
      forall n :: n in disk.fs.Now() && GenOf(n).Some? ==> GenOf(n) == Some(GenNow(old(disk.fs)) + 1)
  {
    hide Inv, Gens, Unnamed, Advanced, MapOf, Ascending, OnlyGeneration, GenOf;
    hide Boot, Anchored, HadArtifact, Short, GenAt, Complete;
    ghost var fs0 := disk.fs;
    InvWf(fs0, book);
    ghost var g, rows := GenNow(fs0) + 1, store.Listed();
    book' := book[g := rows];
    AdvancedRefl(fs0, g);
    CurrentNamed(fs0);
    NextIsFree(fs0, book, rows);
    SoundGeneration(fs0, book);
    var current: int;
    s, current := ReadManifestGeneration(disk);
    if s == NotFound {
      current := 0;
    } else if s != Ok {
      return;
    }
    var next: nat := current + 1;
    s := WriteGenerationFiles(disk, store, next, book');
    InvWf(disk.fs, book');
    CurrentNamed(disk.fs);
    if s != Ok {
      return;
    }
    ghost var fs1 := disk.fs;
    AdvancedShort(fs0, fs1, g);
    s := SwitchGeneration(disk, next, book');
    AdvancedTrans(fs0, fs1, disk.fs, g);
    InvWf(disk.fs, book');
    if disk.reliable && Short(fs0) { OnlyMeans(disk.fs, g); }
  }
}
