/** Why the bootstrap needs ordered directory updates. A start unlinks the marker before it syncs the
    directory, and without order that unlink can survive a crash alone: after the unlinks of an
    interrupted bootstrap's artifacts, which are then back, or under a manifest whose rename is not
    yet durable, which is then gone. Here is where it fails, and exactly when. */
module Unordered {
  import opened Stock
  import opened Records
  import opened Names
  import opened Disk
  import opened Store
  import opened Generations
  import opened Publish
  import opened Recover

  /** A first start was interrupted after its snapshot file `snap`; the next one cleans up and
      unlinks the marker, and power fails before the directory is synced. */
  function InterruptedFirstStart(init: string, snap: Name): Fs {
    Fs([Inode(init, true), Inode("", true), Inode("", true)],
       [map[InitFile := 0, Marker := 1, snap := 2]])
  }

  function CleanedFirstStart(init: string, snap: Name): Fs {
    Fs(InterruptedFirstStart(init, snap).inodes,
       [map[InitFile := 0, Marker := 1, snap := 2], map[InitFile := 0, Marker := 1], map[InitFile := 0]])
  }

  function RefusedStart(init: string, snap: Name): Fs {
    Fs(InterruptedFirstStart(init, snap).inodes, [map[InitFile := 0, snap := 2]])
  }

  lemma CleanedIsReached(init: string, snap: Name)
    requires snap.GenFile?
    ensures InterruptedFirstStart(init, snap).Wf()
    ensures CleanedFirstStart(init, snap)
      == Unlinked(Unlinked(InterruptedFirstStart(init, snap), snap), Marker)
  {
    var d0: Dir := map[InitFile := 0, Marker := 1, snap := 2];
    var d1: Dir := map[InitFile := 0, Marker := 1];
    var d2: Dir := map[InitFile := 0];
    assert d0 - {snap} == d1;
    assert d1 - {Marker} == d2;
    var fs0 := InterruptedFirstStart(init, snap);
    assert Unlinked(fs0, snap) == Fs(fs0.inodes, [d0, d1]);
    assert Unlinked(Fs(fs0.inodes, [d0, d1]), Marker) == Fs(fs0.inodes, [d0, d1, d2]);
  }

  lemma InterruptedIsSound(init: string, snap: Name)
    requires snap.GenFile?
    ensures var fs := InterruptedFirstStart(init, snap); Inv(fs, map[]) && Holds(fs, InitFile, init)
  {
    hide GenOfText;
    var fs := InterruptedFirstStart(init, snap);
    assert |fs.trail| == 1 && fs.trail[0] == fs.Now();
  }

  lemma CleanedIsSound(init: string, snap: Name)
    requires snap.GenFile?
    ensures var fs := CleanedFirstStart(init, snap); Inv(fs, map[]) && Holds(fs, InitFile, init)
  {
    hide GenOfText, Sound, Apart;
    InterruptedIsSound(init, snap);
    CleanedIsReached(init, snap);
    var fs0 := InterruptedFirstStart(init, snap);
    var fs1 := Unlinked(fs0, snap);
    NoManifestNoGens(fs0, map[]);
    UnlinkedQuiet(fs0, snap);
    QuietKeeps(fs0, fs1, snap, map[]);
    NoManifestNoGens(fs1, map[]);
    UnlinkedQuiet(fs1, Marker);
    QuietKeeps(fs1, Unlinked(fs1, Marker), Marker, map[]);
  }

  lemma NotArtifact()
    ensures !IsArtifact(InitFile)
  {
  }

  lemma CleanedIsBootable(init: string, snap: Name)
    requires snap.GenFile?
    ensures Boot(CleanedFirstStart(init, snap))
  {
    hide IsArtifact;
    NotArtifact();
    var fs := CleanedFirstStart(init, snap);
    assert |fs.trail| == 3;
    assert Marker in fs.trail[0] && Marker in fs.trail[1];
    assert Bootable(fs.trail[2]);
  }

  lemma RefusedRemains(init: string, snap: Name)
    requires snap.GenFile?
    ensures CrashImage(Unordered, CleanedFirstStart(init, snap), RefusedStart(init, snap))
  {
    var fs, d := CleanedFirstStart(init, snap), RefusedStart(init, snap).trail[0];
    forall n ensures FromTrail(fs.trail, d, n) {
      if n == Marker { assert Lookup(d, n) == Lookup(fs.trail[2], n); }
      else { assert Lookup(d, n) == Lookup(fs.trail[0], n); }
    }
  }

  /** The directory of a first start that has set its marker and opened its first snapshot. */
  function MarkedDirectory(init: string): Fs { DirSynced(Opened(FirstDirectory(init), Marker, "")) }

  function SnapshotBegun(init: string, snap: Name): Fs { Opened(MarkedDirectory(init), snap, "") }

  /** A power loss there leaves the interrupted first start, whatever the order of the updates. */
  lemma InterruptedIsReached(order: Order, init: string, snap: Name)
    requires snap.GenFile?
    ensures CrashImage(order, SnapshotBegun(init, snap), InterruptedFirstStart(init, snap))
  {
    var d0: Dir := map[InitFile := 0];
    var d1: Dir := map[InitFile := 0, Marker := 1];
    var d2: Dir := map[InitFile := 0, Marker := 1, snap := 2];
    assert d0[Marker := 1] == d1 && d1[snap := 2] == d2;
    var fs := SnapshotBegun(init, snap);
    assert fs == Fs([Inode(init, true), Inode("", false), Inode("", false)], [d1, d2]);
    forall n ensures FromTrail(fs.trail, d2, n) { assert Lookup(d2, n) == Lookup(fs.trail[1], n); }
    assert fs.trail[1] == d2;
  }

  lemma SnapIsArtifact()
    ensures IsArtifact(GenName(Snapshot, 1))
  {
    SuffixInvertsRender(Snapshot, 1);
  }

  /** With unordered updates the bootstrap invariant is false. A first start is interrupted while it
      writes its snapshot; the next one cleans up and loses power before it syncs the directory. The
      unlink of the marker can become durable without the unlink of the snapshot that it guarded;
      what is left is refused by every later start (NeverStarts). */
  lemma BreaksBootstrap(order: Order, init: string)
    ensures var snap := GenName(Snapshot, 1);
      var interrupted, cleaned, refused :=
        InterruptedFirstStart(init, snap), CleanedFirstStart(init, snap), RefusedStart(init, snap);
      && CrashImage(order, SnapshotBegun(init, snap), interrupted)
      && interrupted.Wf() && cleaned == Unlinked(Unlinked(interrupted, snap), Marker)
      && Inv(cleaned, map[]) && Boot(cleaned) && Holds(cleaned, InitFile, init)
      && CrashImage(Unordered, cleaned, refused)
      && Inv(refused, map[]) && refused.Wf() && !Bootable(refused.Now())
  {
    hide IsArtifact, Inv, CrashImage, SnapshotBegun, Boot, Holds, GenAt, GenNow, Gens;
    var snap := GenName(Snapshot, 1);
    InterruptedIsReached(order, init, snap);
    CleanedIsReached(init, snap);
    CleanedIsSound(init, snap);
    CleanedIsBootable(init, snap);
    RefusedRemains(init, snap);
    CrashKeeps(Unordered, CleanedFirstStart(init, snap), RefusedStart(init, snap), map[]);
    SnapIsArtifact();
    assert snap in RefusedStart(init, snap).Now();
  }

  lemma SameDirectory(order: Order, fs: Fs, fs': Fs)
    requires fs.Wf() && |fs.trail| == 1 && CrashImage(order, fs, fs')
    ensures fs'.trail == fs.trail
  {
    var d, d' := fs.trail[0], fs'.trail[0];
    forall n ensures Lookup(d', n) == Lookup(d, n) {
      if order == Unordered {
        assert FromTrail(fs.trail, d', n);
        var k :| 0 <= k < |fs.trail| && Lookup(d', n) == Lookup(fs.trail[k], n);
      }
    }
    forall n ensures n in d' <==> n in d { assert Lookup(d', n) == Lookup(d, n); }
    forall n | n in d ensures d'[n] == d[n] { assert Lookup(d', n) == Lookup(d, n); }
    assert d' == d;
  }

  method RefusedOnce(disk: Disk, ghost book: Book) returns (s: Status)
    requires Inv(disk.fs, book) && !Bootable(disk.fs.Now())
    modifies disk`fs
    ensures s != Ok && disk.fs == old(disk.fs)
  {
    hide Inv, Bootable, Started, InitLoad, Gens, Short, GenNow, MapOf;
    var store := new StockStore();
    ghost var book': Book;
    s, book' := RecoverStockStore(disk, store, book);
  }

  lemma InjectiveTrail(fs: Fs, book: Book)
    requires Inv(fs, book)
    ensures fs.Wf() && forall k :: 0 <= k < |fs.trail| ==> Injective(fs.trail[k])
  {
  }

  /** No start ever succeeds on a directory that is no legal bootstrap state, whatever faults and
      power losses come with it or do not. */
  method NeverStarts(disk: Disk, order: Order, rounds: nat, ghost book: Book)
      returns (statuses: seq<Status>)
    requires Inv(disk.fs, book) && |disk.fs.trail| == 1 && !Bootable(disk.fs.Now())
    modifies disk
    ensures |statuses| == rounds && forall i :: 0 <= i < rounds ==> statuses[i] != Ok
  {
    hide Inv, CrashImage, Bootable, Started, InitLoad, Gens;
    statuses := [];
    ghost var d := disk.fs.trail;
    var round := 0;
    while round < rounds
      invariant 0 <= round <= rounds && Inv(disk.fs, book) && disk.fs.trail == d
      invariant |statuses| == round && forall i :: 0 <= i < round ==> statuses[i] != Ok
    {
      var faultFree: bool, powerLoss: bool := *, *;
      disk.reliable := faultFree;
      var s := RefusedOnce(disk, book);
      statuses := statuses + [s];
      if powerLoss {
        ghost var fs0 := disk.fs;
        InjectiveTrail(fs0, book);
        disk.PowerLoss(order);
        CrashKeeps(order, fs0, disk.fs, book);
        SameDirectory(order, fs0, disk.fs);
      }
      round := round + 1;
    }
  }

  lemma UnexposedImage(fs: Fs, fs': Fs)
    requires fs.Wf() && !Exposed(fs) && CrashImage(Unordered, fs, fs')
    ensures Bootable(fs'.trail[0])
  {
    hide IsArtifact;
    var d := fs'.trail[0];
    if Manifest !in d && Marker !in d {
      assert FromTrail(fs.trail, d, Manifest) && FromTrail(fs.trail, d, Marker);
      var i :| 0 <= i < |fs.trail| && Lookup(d, Manifest) == Lookup(fs.trail[i], Manifest);
      var j :| 0 <= j < |fs.trail| && Lookup(d, Marker) == Lookup(fs.trail[j], Marker);
      forall n | n in d ensures !IsArtifact(n) {
        assert FromTrail(fs.trail, d, n);
        var k :| 0 <= k < |fs.trail| && Lookup(d, n) == Lookup(fs.trail[k], n);
        assert n in fs.trail[k];
      }
    }
  }

  /** Today's directory without manifest and marker, but with the entry n of an earlier one. */
  ghost function Mixed(trail: seq<Dir>, k: nat, n: Name): Dir
    requires k < |trail| && n in trail[k]
  {
    (trail[|trail| - 1] - {Manifest, Marker})[n := trail[k][n]]
  }

  lemma MixedFromTrail(trail: seq<Dir>, i: nat, j: nat, k: nat, n: Name)
    requires i < |trail| && Manifest !in trail[i] && j < |trail| && Marker !in trail[j]
    requires k < |trail| && n in trail[k] && n != Manifest && n != Marker
    ensures forall m :: FromTrail(trail, Mixed(trail, k, n), m)
  {
    var d := Mixed(trail, k, n);
    forall m ensures FromTrail(trail, d, m) {
      if m == Manifest { assert Lookup(d, m) == Lookup(trail[i], m); }
      else if m == Marker { assert Lookup(d, m) == Lookup(trail[j], m); }
      else if m == n { assert Lookup(d, m) == Lookup(trail[k], m); }
      else { assert Lookup(d, m) == Lookup(trail[|trail| - 1], m); }
    }
  }

  lemma MixedInjective(fs: Fs, k: nat, n: Name)
    requires fs.Wf() && Apart(fs) && k < |fs.trail| && n in fs.trail[k] && n != Manifest
    ensures Injective(Mixed(fs.trail, k, n))
  {
    ApartInjective(fs);
    var d := Mixed(fs.trail, k, n);
    forall m | m in d && m != n ensures d[m] != d[n] {
      assert m in fs.Now() && d[m] == fs.Now()[m];
    }
  }

  lemma AnyContents(fs: Fs, d: Dir) returns (fs': Fs)
    requires MayRemain(Unordered, fs.trail, d)
    ensures CrashImage(Unordered, fs, fs') && fs'.trail == [d]
  {
    hide MayRemain;
    fs' := Fs(seq(|fs.inodes|, x requires 0 <= x < |fs.inodes| => Inode(fs.inodes[x].data, true)), [d]);
  }

  lemma SpecialNames(n: Name)
    ensures IsArtifact(n) ==> n != Manifest && n != Marker
  {
  }

  lemma RefusedImage(fs: Fs) returns (fs': Fs)
    requires fs.Wf() && Apart(fs) && Exposed(fs)
    ensures CrashImage(Unordered, fs, fs') && !Bootable(fs'.trail[0])
  {
    hide IsArtifact, FromTrail, Injective, Apart, CrashImage;
    var i :| 0 <= i < |fs.trail| && Manifest !in fs.trail[i];
    var j :| 0 <= j < |fs.trail| && Marker !in fs.trail[j];
    var k, n :| 0 <= k < |fs.trail| && n in fs.trail[k] && IsArtifact(n);
    SpecialNames(n);
    MixedFromTrail(fs.trail, i, j, k, n);
    MixedInjective(fs, k, n);
    fs' := AnyContents(fs, Mixed(fs.trail, k, n));
    assert n in fs'.trail[0];
  }

  /** Exactly when unordered crashes are harmless to the bootstrap. */
  lemma BootstrapExactly(fs: Fs)
    requires fs.Wf() && Apart(fs)
    ensures (forall fs' :: CrashImage(Unordered, fs, fs') ==> Bootable(fs'.trail[0])) <==> !Exposed(fs)
  {
    hide IsArtifact;
    if Exposed(fs) {
      var fs' := RefusedImage(fs);
      assert CrashImage(Unordered, fs, fs') && !Bootable(fs'.trail[0]);
    } else {
      forall fs' | CrashImage(Unordered, fs, fs') ensures Bootable(fs'.trail[0]) {
        UnexposedImage(fs, fs');
      }
    }
  }

  // ---------- the condition before the start ----------

  /** What a start has unlinked, with nothing synced yet, when it is cut short: of an interrupted
      bootstrap, some artifacts, or all of them and then the marker; with a manifest, the marker. */
  ghost predicate CutShort(fs: Fs, fs1: Fs)
    requires fs.Wf()
  {
    || fs1 == fs
    || (Marker in fs.Now() && Manifest !in fs.Now() && Clearing(fs, fs1))
    || (Marker in fs.Now() && Manifest in fs.Now() && fs1 == Unlinked(fs, Marker))
  }

  ghost predicate RefusedAfter(fs: Fs, fs': Fs) {
    CrashImage(Unordered, fs, fs') && !Bootable(fs'.trail[0])
  }

  /** A start can be cut short by a power loss after which every start is refused. */
  ghost predicate StartAtRisk(fs: Fs)
    requires fs.Wf()
  {
    exists fs1, fs' :: CutShort(fs, fs1) && RefusedAfter(fs1, fs')
  }

  /** Unlinking only takes names away. */
  lemma {:induction false} GoneTrail(fs: Fs, names: seq<Name>)
    requires fs.Wf() && Apart(fs) && AllArtifacts(names)
    requires forall k :: 0 <= k < |fs.trail| ==> Injective(fs.trail[k])
    ensures var fs' := Gone(fs, names);
      && Apart(fs') && fs.trail <= fs'.trail
      && (forall k :: 0 <= k < |fs'.trail| ==> Injective(fs'.trail[k]))
      && (forall k, n :: |fs.trail| <= k < |fs'.trail| && n in fs'.trail[k] ==> n in fs.Now())
      && (forall n :: n in fs'.Now() <==> n in fs.Now() && n !in names)
  {
    hide Apart, Injective;
    if names != [] {
      var front, n := names[..|names| - 1], names[|names| - 1];
      assert forall m :: m in front ==> m in names;
      GoneTrail(fs, front);
      var mid := Gone(fs, front);
      UnlinkedQuiet(mid, n);
      assert n in names && n != Manifest by { SpecialNames(n); }
      QuietApart(mid, Unlinked(mid, n), n);
      assert names == front + [n];
    }
  }

  lemma {:induction false} ListNames(d: set<Name>) returns (names: seq<Name>)
    ensures forall n :: n in names <==> n in d
  {
    names := [];
    if d != {} {
      var n :| n in d;
      var rest := ListNames(d - {n});
      names := [n] + rest;
    }
  }

  lemma ClearedCompletely(fs: Fs) returns (names: seq<Name>)
    requires fs.Wf() && Apart(fs) && forall k :: 0 <= k < |fs.trail| ==> Injective(fs.trail[k])
    ensures AllArtifacts(names) && NoArtifacts(Gone(fs, names))
  {
    hide IsArtifact;
    names := ListNames(set n | n in fs.Now() && IsArtifact(n));
    GoneTrail(fs, names);
  }

  lemma ArtifactIsRisk(fs: Fs, names: seq<Name>)
    requires fs.Wf() && Apart(fs) && forall k :: 0 <= k < |fs.trail| ==> Injective(fs.trail[k])
    requires HadArtifact(fs) && AllArtifacts(names) && NoArtifacts(Gone(fs, names))
    requires Manifest !in fs.Now() && Marker in fs.Now()
    ensures StartAtRisk(fs)
  {
    hide IsArtifact, Gone, CrashImage, Apart, Injective;
    GoneTrail(fs, names);
    var mid := Gone(fs, names);
    UnlinkedQuiet(mid, Marker);
    QuietApart(mid, Unlinked(mid, Marker), Marker);
    var end := Unlinked(mid, Marker);
    assert ClearedBy(fs, end, names) && Clearing(fs, end);
    var k, n :| 0 <= k < |fs.trail| && n in fs.trail[k] && IsArtifact(n);
    assert end.trail[k] == fs.trail[k];
    assert Manifest !in end.trail[|fs.trail| - 1] && Marker !in end.trail[|end.trail| - 1];
    var fs' := RefusedImage(end);
    assert CutShort(fs, end) && RefusedAfter(end, fs');
  }

  lemma RiskNeedsArtifact(fs: Fs, fs1: Fs, fs': Fs)
    requires fs.Wf() && Apart(fs) && forall k :: 0 <= k < |fs.trail| ==> Injective(fs.trail[k])
    requires Clearing(fs, fs1) && RefusedAfter(fs1, fs')
    ensures HadArtifact(fs)
  {
    hide IsArtifact, Gone, CrashImage, Apart, Injective, Bootable;
    var names :| AllArtifacts(names) && ClearedBy(fs, fs1, names);
    GoneTrail(fs, names);
    if !Exposed(fs1) { UnexposedImage(fs1, fs'); }
    var k, n :| 0 <= k < |fs1.trail| && n in fs1.trail[k] && IsArtifact(n);
    if k < |fs.trail| {
      assert fs.trail[k] == fs1.trail[k];
    } else {
      assert n in fs.trail[|fs.trail| - 1];
    }
  }

  /** A visible manifest names a complete generation, so artifacts have been there all the time. */
  lemma ManifestHasArtifacts(fs: Fs, book: Book)
    requires Inv(fs, book) && Manifest in fs.Now()
    ensures GenNow(fs) > 0 && IsArtifact(GenName(Snapshot, GenNow(fs)))
    ensures forall k :: 0 <= k < |fs.trail| ==> GenName(Snapshot, GenNow(fs)) in fs.trail[k]
  {
    hide GenOfText, MapOf, Apart;
    assert Sound(fs, book, |fs.trail| - 1);
    SuffixInvertsRender(Snapshot, GenNow(fs));
  }

  lemma OneDirectory(fs: Fs, fs': Fs)
    requires CrashImage(Unordered, fs, fs')
    ensures |fs'.trail| == 1
  {
  }

  /** The other cause: the marker is unlinked under a manifest whose rename is not yet durable. */
  lemma UnsyncedManifestIsRisk(fs: Fs, book: Book) returns (fs': Fs)
    requires Inv(fs, book) && Marker in fs.Now() && Manifest in fs.Now() && !AlwaysManifest(fs)
    ensures StartAtRisk(fs)
    ensures RefusedAfter(Unlinked(fs, Marker), fs') && |fs'.trail| == 1
  {
    hide IsArtifact, CrashImage, Apart, Injective, Sound, GenAt, Bootable;
    ManifestHasArtifacts(fs, book);
    UnlinkedQuiet(fs, Marker);
    QuietApart(fs, Unlinked(fs, Marker), Marker);
    var end := Unlinked(fs, Marker);
    var k :| 0 <= k < |fs.trail| && Manifest !in fs.trail[k];
    assert end.trail[k] == fs.trail[k] && Marker !in end.trail[|fs.trail|];
    assert GenName(Snapshot, GenNow(fs)) in end.trail[k];
    fs' := RefusedImage(end);
    OneDirectory(end, fs');
    assert CutShort(fs, end) && RefusedAfter(end, fs');
  }

  lemma AlwaysManifestIsGens(fs: Fs, book: Book)
    requires Inv(fs, book)
    ensures AlwaysManifest(fs) <==> 0 !in Gens(fs)
  {
    hide GenOfText, Complete, Apart;
    if 0 in Gens(fs) {
      var k :| 0 <= k < |fs.trail| && GenAt(fs, k) == 0;
      assert Sound(fs, book, k);
    }
    forall k | 0 <= k < |fs.trail| && Manifest !in fs.trail[k] ensures 0 in Gens(fs) { assert GenAt(fs, k) == 0; }
  }

  lemma SafeManifest(fs: Fs, fs': Fs)
    requires fs.Wf() && AlwaysManifest(fs) && CrashImage(Unordered, Unlinked(fs, Marker), fs')
    ensures Bootable(fs'.trail[0])
  {
    hide CrashImage;
    var end := Unlinked(fs, Marker);
    assert end.Now() == fs.Now() - {Marker} && fs.Now() == fs.trail[|fs.trail| - 1];
    assert AlwaysManifest(end) && !Exposed(end);
    UnexposedImage(end, fs');
  }

  /** Exactly when a start is at risk, said of the directory that it finds, which no crash before the
      start could have spoilt: when it finds the marker, and either a manifest that was not always
      there since the last directory fsync, or no manifest and an artifact since then. Right after a
      power loss only the second can be, and it says that an artifact is there. That a start without
      the risk leaves no exposed directory wherever it stops is what RecoverStockStore ensures. */
  lemma StartAtRiskExactly(fs: Fs, book: Book)
    requires Inv(fs, book) && !Exposed(fs)
    ensures StartAtRisk(fs) <==> Risky(fs)
    ensures AlwaysManifest(fs) <==> 0 !in Gens(fs)
    ensures |fs.trail| == 1 ==> (Risky(fs) <==> Marker in fs.Now() && Manifest !in fs.Now() && !NoArtifacts(fs))
  {
    hide IsArtifact, Sound, Gone, CrashImage, Apart, Injective, Bootable, GenAt;
    AlwaysManifestIsGens(fs, book);
    if fs1, fs' :| CutShort(fs, fs1) && RefusedAfter(fs1, fs') {
      if fs1 == fs {
        UnexposedImage(fs, fs');
      } else if Manifest !in fs.Now() {
        RiskNeedsArtifact(fs, fs1, fs');
      } else if AlwaysManifest(fs) {
        SafeManifest(fs, fs');
      }
    }
    if Risky(fs) {
      if Manifest in fs.Now() {
        var fs' := UnsyncedManifestIsRisk(fs, book);
      } else {
        var names := ClearedCompletely(fs);
        ArtifactIsRisk(fs, names);
      }
    }
  }

  // ---------- an input for the other cause ----------

  /** A first start that has made marker, snapshot and log durable. */
  function FirstFiles(init: string, rows: seq<Row>): Fs {
    Fs([Inode(init, true), Inode("", false), Inode(RowsText(rows), true), Inode("", true)],
       [map[InitFile := 0, Marker := 1, GenName(Snapshot, 1) := 2, GenName(Aof, 1) := 3]])
  }

  lemma FourEntries(a: Name, b: Name, c: Name, d: Name)
    requires a != b && a != c && a != d && b != c && b != d && c != d
    ensures Injective(map[a := 0, b := 1, c := 2, d := 3])
  {
  }

  lemma OneEntryApart(fs: Fs)
    requires fs.Wf() && |fs.trail| == 1 && Injective(fs.trail[0])
    ensures Apart(fs)
  {
  }

  lemma FirstFilesAreSound(init: string, rows: seq<Row>)
    requires Ascending(rows) && GoodRows(rows)
    ensures var fs := FirstFiles(init, rows);
      && fs.Wf() && Inv(fs, map[1 := rows]) && Complete(fs, 1, rows) && GenNow(fs) == 0
      && Marker in fs.Now() && Manifest !in fs.Now() && ManifestTmp !in fs.Now() && |fs.trail| == 1
  {
    hide GenOfText, RowsText, Ascending, GoodRows, Apart, Injective;
    var fs, snap, aof := FirstFiles(init, rows), GenName(Snapshot, 1), GenName(Aof, 1);
    assert snap.GenFile? && aof.GenFile? && snap != aof;
    hide GenName;
    FourEntries(InitFile, Marker, snap, aof);
    OneEntryApart(fs);
  }

  /** The temporary manifest of generation g, opened, written and synced. */
  function TmpWritten(fs: Fs, g: nat): Fs
    requires fs.Wf()
  {
    var begun := Opened(fs, ManifestTmp, "");
    var ino := begun.Now()[ManifestTmp];
    FileSynced(Written(begun, ino, ManifestText(g)), ino)
  }

  lemma TmpWrittenKeeps(fs: Fs, book: Book, g: nat)
    requires Inv(fs, book) && |fs.trail| == 1 && ManifestTmp !in fs.Now()
    ensures var fs' := TmpWritten(fs, g);
      && Inv(fs', book) && Calm(fs, fs', {ManifestTmp}) && ManifestTmp in fs'.Now()
      && fs'.inodes[fs'.Now()[ManifestTmp]] == Inode(ManifestText(g), true)
      && |fs'.trail| == 2 && fs'.trail[0] == fs.trail[0] && fs'.trail[1] == fs.trail[0][ManifestTmp := |fs.inodes|]
  {
    hide Calm, Apart, Sound, ManifestText;
    var fs1 := Opened(fs, ManifestTmp, "");
    assert Unnamed(fs, ManifestTmp);
    OpenedQuiet(fs, ManifestTmp, "");
    QuietKeeps(fs, fs1, ManifestTmp, book);
    var ino := fs1.Now()[ManifestTmp];
    WrittenQuiet(fs1, ManifestTmp, ManifestText(g));
    var fs2 := Written(fs1, ino, ManifestText(g));
    assert Unnamed(fs1, ManifestTmp);
    QuietKeeps(fs1, fs2, ManifestTmp, book);
    CalmAgain(fs, fs1, fs2, {ManifestTmp});
    WrittenQuiet(fs2, ManifestTmp, "");
    var fs3 := FileSynced(fs2, ino);
    assert Unnamed(fs2, ManifestTmp);
    QuietKeeps(fs2, fs3, ManifestTmp, book);
    CalmAgain(fs, fs2, fs3, {ManifestTmp});
  }

  lemma CompleteStays(fs: Fs, fs': Fs, g: nat, rows: seq<Row>)
    requires Calm(fs, fs', {ManifestTmp}) && Complete(fs, g, rows)
    ensures Complete(fs', g, rows)
  {
  }

  lemma MarkedDirectoryBoots(fs: Fs)
    requires |fs.trail| == 2 && Marker in fs.trail[0] && Marker in fs.trail[1]
    ensures Boot(fs)
  {
  }

  lemma NoGenerationHere(fs: Fs)
    requires fs.Wf()
    ensures Unnamed(fs, Marker)
  {
  }

  /** Its manifest is renamed and the directory fsync after that fails or is not reached. The next
      start, without a power loss before it, finds the manifest and unlinks the marker, and power
      fails before its own fsync: what is left is refused by every later start (NeverStarts). */
  lemma RenamedBootstrapIsRisk(init: string, rows: seq<Row>) returns (fs': Fs)
    requires Ascending(rows) && GoodRows(rows)
    ensures FirstFiles(init, rows).Wf()
    ensures var fs, book := Renamed(TmpWritten(FirstFiles(init, rows), 1), ManifestTmp, Manifest), map[1 := rows];
      && Inv(fs, book) && Boot(fs) && !Exposed(fs) && Risky(fs)
      && (forall k :: 0 <= k < |fs.trail| ==> Marker in fs.trail[k])
      && CrashImage(Unordered, Unlinked(fs, Marker), fs')
      && Inv(fs', book) && |fs'.trail| == 1 && fs'.Wf() && !Bootable(fs'.Now())
  {
    hide CrashImage, Bootable, Boot, Sound, Apart, Injective, HadArtifact, Complete, ManifestText, GenAt;
    hide FirstFiles, TmpWritten, Calm;
    FirstFilesAreSound(init, rows);
    var files, book := FirstFiles(init, rows), map[1 := rows];
    TmpWrittenKeeps(files, book, 1);
    var fs0 := TmpWritten(files, 1);
    CompleteStays(files, fs0, 1, rows);
    CalmGen(files, fs0, {ManifestTmp});
    MarkedDirectoryBoots(fs0);
    RenameKeeps(fs0, book, 1);
    var fs := Renamed(fs0, ManifestTmp, Manifest);
    RenameTrail(fs0, 0);
    RenameTrail(fs0, 1);
    assert Marker in fs.trail[2];
    assert Manifest !in fs.trail[0];
    fs' := UnsyncedManifestIsRisk(fs, book);
    NoGenerationHere(fs);
    UnlinkedQuiet(fs, Marker);
    QuietKeeps(fs, Unlinked(fs, Marker), Marker, book);
    CrashKeeps(Unordered, Unlinked(fs, Marker), fs', book);
  }
}
