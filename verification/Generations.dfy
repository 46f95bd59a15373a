/** What the data directory holds between and during the calls of the store: published
    generations, and the invariants that no call and no crash breaks. */
module Generations {
  import opened Text
  import opened Stock
  import opened Records
  import opened Names
  import opened Disk

  /** The store that was last handed to materialize for each generation. */
  type Book = map<nat, seq<Row>>

  /** The file n is durable, whatever un-synced entry changes a crash may lose, and holds `text`. */
  ghost predicate Holds(fs: Fs, n: Name, text: string)
    requires fs.Wf()
  {
    forall k :: 0 <= k < |fs.trail| ==>
      n in fs.trail[k] && fs.inodes[fs.trail[k][n]] == Inode(text, true)
  }

  /** Generation g is durable and complete: its snapshot lists `rows`, and its log is empty. */
  ghost predicate Complete(fs: Fs, g: nat, rows: seq<Row>)
    requires fs.Wf()
  {
    && Ascending(rows) && GoodRows(rows)
    && Holds(fs, GenName(Snapshot, g), RowsText(rows))
    && Holds(fs, GenName(Aof, g), "")
  }

  /** The generation that a manifest text names; 0 when it names none. */
  function GenOfText(text: string): nat {
    var (s, g) := ManifestGeneration(text);
    if s == Ok && g > 0 then g else 0
  }

  /** The generation named by the manifest at one point of the trail; 0 when there is none. */
  function GenAt(fs: Fs, k: nat): nat
    requires fs.Wf() && k < |fs.trail|
  {
    if Manifest in fs.trail[k] then GenOfText(fs.inodes[fs.trail[k][Manifest]].data) else 0
  }

  function GenNow(fs: Fs): nat
    requires fs.Wf()
  {
    GenAt(fs, |fs.trail| - 1)
  }

  ghost function Gens(fs: Fs): set<nat>
    requires fs.Wf()
  {
    set k | 0 <= k < |fs.trail| :: GenAt(fs, k)
  }

  /** The manifest at point k, if there is one, is durable, readable, and names a complete
      generation of the book. */
  ghost predicate Sound(fs: Fs, book: Book, k: nat)
    requires fs.Wf() && k < |fs.trail|
  {
    Manifest in fs.trail[k] ==>
      && fs.inodes[fs.trail[k][Manifest]].synced
      && 1 <= GenAt(fs, k) <= LLONG_MAX
      && GenAt(fs, k) in book
      && Complete(fs, GenAt(fs, k), book[GenAt(fs, k)])
  }

  ghost predicate Inv(fs: Fs, book: Book) {
    && fs.Wf() && Apart(fs)
    && (forall k :: 0 <= k < |fs.trail| ==> Injective(fs.trail[k]))
    && (forall k :: 0 <= k < |fs.trail| ==> Sound(fs, book, k))
    && (forall j, k :: 0 <= j <= k < |fs.trail| ==> GenAt(fs, j) <= GenAt(fs, k))
  }

  // ---------- bootstrap ----------

  /** A directory without a manifest holds no artifact, or is marked as an unfinished bootstrap. */
  ghost predicate Bootable(d: Dir) {
    Manifest in d || Marker in d || forall n :: n in d ==> !IsArtifact(n)
  }

  /** The legal bootstrap states, in the source's own words. */
  lemma BootableMeans(d: Dir)
    ensures Bootable(d) <==>
      Manifest in d || Marker in d || (ManifestTmp !in d && forall n :: n in d ==> GenOf(n) == None)
  {
    hide GenOf;
  }

  ghost predicate Boot(fs: Fs) { forall k :: 0 <= k < |fs.trail| ==> Bootable(fs.trail[k]) }

  ghost predicate Guarded(fs: Fs)
    requires fs.Wf()
  {
    Manifest in fs.Now() || Marker in fs.Now()
  }

  ghost predicate AlwaysManifest(fs: Fs) { forall k :: 0 <= k < |fs.trail| ==> Manifest in fs.trail[k] }

  /** Since the last directory fsync the manifest was always there, or the marker was. */
  ghost predicate Anchored(fs: Fs) {
    AlwaysManifest(fs) || forall k :: 0 <= k < |fs.trail| ==> Marker in fs.trail[k]
  }

  /** Since then there was an artifact in the directory. */
  ghost predicate HadArtifact(fs: Fs) {
    exists k, n :: 0 <= k < |fs.trail| && n in fs.trail[k] && IsArtifact(n)
  }

  /** Since then there was a moment without a manifest, one without the marker, and one with an
      artifact. */
  ghost predicate Exposed(fs: Fs) { !Anchored(fs) && HadArtifact(fs) }

  /** Every name in the directory, on whichever side of a crash, leaves room for "./data/". */
  ghost predicate Short(fs: Fs) {
    forall k, n :: 0 <= k < |fs.trail| && n in fs.trail[k] ==> PathFits(n)
  }

  /** A data directory as it is first set up: the init file and nothing else. */
  function FirstDirectory(init: string): Fs { Fs([Inode(init, true)], [map[InitFile := 0]]) }

  /** The init file as a reader sees it, durable or not. */
  function InitText(fs: Fs): Option<string>
    requires fs.Wf()
  {
    if InitFile in fs.Now() then Some(fs.inodes[fs.Now()[InitFile]].data) else None
  }

  // ---------- one quiet step ----------

  ghost predicate Beside(fs: Fs, d: Dir, n: Name)
    requires fs.Wf()
  {
    && (forall m :: m != n ==> Lookup(d, m) == Lookup(fs.Now(), m))
    && (n in d ==> d[n] >= |fs.inodes|)
  }

  /** Only the file n changed, or only its entry; a new file of that name is a fresh one. */
  ghost predicate Quiet(fs: Fs, fs': Fs, n: Name) {
    && fs.Wf() && fs'.Wf() && |fs.inodes| <= |fs'.inodes|
    && (forall i :: 0 <= i < |fs.inodes| ==>
      fs'.inodes[i] == fs.inodes[i] || (n in fs.Now() && i == fs.Now()[n]))
    && (fs'.trail == fs.trail
      || (fs'.trail == fs.trail + [fs'.Now()] && Beside(fs, fs'.Now(), n)))
  }

  lemma OpenedQuiet(fs: Fs, n: Name, junk: string)
    requires fs.Wf()
    ensures Quiet(fs, Opened(fs, n, junk), n)
  {
  }

  lemma WrittenQuiet(fs: Fs, n: Name, text: string)
    requires fs.Wf() && n in fs.Now()
    ensures Quiet(fs, Written(fs, fs.Now()[n], text), n)
    ensures Quiet(fs, FileSynced(fs, fs.Now()[n]), n)
  {
  }

  lemma UnlinkedQuiet(fs: Fs, n: Name)
    requires fs.Wf()
    ensures Quiet(fs, Unlinked(fs, n), n)
  {
    assert Unlinked(fs, n).Now() == fs.Now() - {n};
  }

  /** The file n is neither the manifest nor part of a generation that a manifest names. */
  ghost predicate Unnamed(fs: Fs, n: Name)
    requires fs.Wf()
  {
    && n != Manifest
    && forall g :: g in Gens(fs) && g > 0 ==> n != GenName(Snapshot, g) && n != GenName(Aof, g)
  }

  lemma QuietTrail(fs: Fs, fs': Fs, n: Name, k: nat, m: Name)
    requires Quiet(fs, fs', n) && k < |fs'.trail| && m != n
    ensures var j := if k < |fs.trail| then k else |fs.trail| - 1;
      Lookup(fs'.trail[k], m) == Lookup(fs.trail[j], m)
  {
  }

  lemma QuietApart(fs: Fs, fs': Fs, n: Name)
    requires Quiet(fs, fs', n) && Apart(fs) && n != Manifest
    requires forall k :: 0 <= k < |fs.trail| ==> Injective(fs.trail[k])
    ensures Apart(fs')
    ensures forall k :: 0 <= k < |fs'.trail| ==> Injective(fs'.trail[k])
  {
    ApartInjective(fs);
    if fs'.trail != fs.trail {
      var d := fs'.Now();
      forall a, b | a in d && b in d && d[a] == d[b] ensures a == b {
        if a != n { assert Lookup(d, a) == Lookup(fs.Now(), a); }
        if b != n { assert Lookup(d, b) == Lookup(fs.Now(), b); }
      }
      forall a, k, m | a in d && 0 <= k < |fs'.trail| && m in fs'.trail[k] && fs'.trail[k][m] == d[a]
        ensures m == a || (m == ManifestTmp && a == Manifest && k < |fs'.trail| - 1)
      {
        if k < |fs.trail| {
          assert fs'.trail[k] == fs.trail[k];
          if a != n { assert Lookup(d, a) == Lookup(fs.Now(), a); }
        }
      }
    }
  }

  /** A file other than n stays durable. */
  lemma QuietHolds(fs: Fs, fs': Fs, n: Name, m: Name, text: string)
    requires Quiet(fs, fs', n) && Apart(fs) && n != Manifest && m != n && Holds(fs, m, text)
    ensures Holds(fs', m, text)
  {
    forall k | 0 <= k < |fs'.trail|
      ensures m in fs'.trail[k] && fs'.inodes[fs'.trail[k][m]] == Inode(text, true)
    {
      QuietTrail(fs, fs', n, k, m);
      var j := if k < |fs.trail| then k else |fs.trail| - 1;
      assert fs.trail[j][m] == fs'.trail[k][m];
    }
  }

  lemma QuietGen(fs: Fs, fs': Fs, n: Name, k: nat)
    requires Quiet(fs, fs', n) && Apart(fs) && n != Manifest && k < |fs'.trail|
    ensures var j := if k < |fs.trail| then k else |fs.trail| - 1;
      && GenAt(fs', k) == GenAt(fs, j)
      && (Manifest in fs'.trail[k] <==> Manifest in fs.trail[j])
      && (Manifest in fs'.trail[k] ==>
           fs'.inodes[fs'.trail[k][Manifest]] == fs.inodes[fs.trail[j][Manifest]])
  {
    hide ManifestGeneration;
    QuietTrail(fs, fs', n, k, Manifest);
    var j := if k < |fs.trail| then k else |fs.trail| - 1;
    if Manifest in fs.trail[j] {
      assert n in fs.Now() ==> fs.trail[j][Manifest] != fs.Now()[n];
    }
  }

  /** What a run of steps that publish nothing keeps. `touched` are the files it wrote. */
  ghost predicate Calm(fs: Fs, fs': Fs, touched: set<Name>) {
    && fs.Wf() && fs'.Wf()
    && Gens(fs') <= Gens(fs) && GenNow(fs') == GenNow(fs)
    && (Manifest in fs'.Now() <==> Manifest in fs.Now())
    && (Marker in touched || (Marker in fs'.Now() <==> Marker in fs.Now()))
    && (InitFile in touched || InitText(fs') == InitText(fs))
    && (Marker in touched || (Anchored(fs) ==> Anchored(fs')))
    && (forall m, text :: m !in touched && Holds(fs, m, text) ==> Holds(fs', m, text))
    && (Short(fs) && (forall n :: n in touched ==> PathFits(n)) ==> Short(fs'))
    && (Boot(fs) && Guarded(fs) && Marker !in touched ==> Boot(fs'))
  }

  lemma CalmRefl(fs: Fs, t: set<Name>)
    requires fs.Wf()
    ensures Calm(fs, fs, t)
  {
  }

  lemma QuietGens(fs: Fs, fs': Fs, n: Name)
    requires Quiet(fs, fs', n) && Apart(fs) && n != Manifest
    ensures Gens(fs') <= Gens(fs) && GenNow(fs') == GenNow(fs)
  {
    hide ManifestGeneration, GenAt;
    forall g | g in Gens(fs') ensures g in Gens(fs) {
      var k :| 0 <= k < |fs'.trail| && g == GenAt(fs', k);
      QuietGen(fs, fs', n, k);
    }
    QuietGen(fs, fs', n, |fs'.trail| - 1);
  }

  lemma QuietShort(fs: Fs, fs': Fs, n: Name)
    requires Quiet(fs, fs', n) && Short(fs) && PathFits(n)
    ensures Short(fs')
  {
    hide PathFits;
    forall k, m | 0 <= k < |fs'.trail| && m in fs'.trail[k] ensures PathFits(m) {
      if m != n { QuietTrail(fs, fs', n, k, m); }
    }
  }

  lemma QuietBoot(fs: Fs, fs': Fs, n: Name)
    requires Quiet(fs, fs', n) && n != Manifest && n != Marker && Boot(fs) && Guarded(fs)
    ensures Boot(fs')
  {
    hide IsArtifact;
    var last := |fs'.trail| - 1;
    QuietTrail(fs, fs', n, last, Manifest);
    QuietTrail(fs, fs', n, last, Marker);
    forall k | 0 <= k < |fs'.trail| ensures Bootable(fs'.trail[k]) {
      if k < |fs.trail| { assert fs'.trail[k] == fs.trail[k]; }
    }
  }

  lemma QuietAnchored(fs: Fs, fs': Fs, n: Name)
    requires Quiet(fs, fs', n) && n != Manifest && n != Marker
    ensures Anchored(fs) ==> Anchored(fs')
  {
    forall k | 0 <= k < |fs'.trail|
      ensures AlwaysManifest(fs) ==> Manifest in fs'.trail[k]
      ensures (forall k :: 0 <= k < |fs.trail| ==> Marker in fs.trail[k]) ==> Marker in fs'.trail[k]
    {
      QuietTrail(fs, fs', n, k, Manifest);
      QuietTrail(fs, fs', n, k, Marker);
    }
  }

  lemma QuietInit(fs: Fs, fs': Fs, n: Name)
    requires Quiet(fs, fs', n) && Apart(fs) && n != InitFile
    ensures InitText(fs') == InitText(fs)
  {
    QuietTrail(fs, fs', n, |fs'.trail| - 1, InitFile);
    ApartInjective(fs);
  }

  lemma QuietCalm(fs: Fs, fs': Fs, n: Name)
    requires Quiet(fs, fs', n) && Apart(fs) && n != Manifest
    ensures Calm(fs, fs', {n})
  {
    hide Gens, GenNow, Short, Boot, Holds, InitText, Anchored;
    QuietGens(fs, fs', n);
    if n != Marker { QuietAnchored(fs, fs', n); }
    if n != InitFile { QuietInit(fs, fs', n); }
    QuietTrail(fs, fs', n, |fs'.trail| - 1, Manifest);
    if n != Marker { QuietTrail(fs, fs', n, |fs'.trail| - 1, Marker); }
    forall m, text | m != n && Holds(fs, m, text) ensures Holds(fs', m, text) {
      QuietHolds(fs, fs', n, m, text);
    }
    if Short(fs) && PathFits(n) { QuietShort(fs, fs', n); }
    if n != Marker && Boot(fs) && Guarded(fs) { QuietBoot(fs, fs', n); }
  }

  /** The step lemma: writing, creating or unlinking any file that no manifest names. */
  lemma QuietKeeps(fs: Fs, fs': Fs, n: Name, book: Book)
    requires Inv(fs, book) && Quiet(fs, fs', n) && Unnamed(fs, n)
    ensures Inv(fs', book) && Calm(fs, fs', {n})
  {
    hide ManifestGeneration, GenOfText, RowsText, IsArtifact, PathFits;
    hide InitText, Anchored, AlwaysManifest, Boot, Short;
    QuietApart(fs, fs', n);
    forall k | 0 <= k < |fs'.trail|
      ensures Sound(fs', book, k) && GenAt(fs', k) in Gens(fs)
    {
      QuietGen(fs, fs', n, k);
      var j := if k < |fs.trail| then k else |fs.trail| - 1;
      assert Sound(fs, book, j);
      var g := GenAt(fs, j);
      assert g in Gens(fs);
      if Manifest in fs.trail[j] {
        QuietHolds(fs, fs', n, GenName(Snapshot, g), RowsText(book[g]));
        QuietHolds(fs, fs', n, GenName(Aof, g), "");
      }
    }
    forall j, k | 0 <= j <= k < |fs'.trail| ensures GenAt(fs', j) <= GenAt(fs', k) {
      QuietGen(fs, fs', n, j);
      QuietGen(fs, fs', n, k);
    }
    QuietCalm(fs, fs', n);
  }

  /** A successful directory fsync. */
  lemma SyncKeeps(fs: Fs, book: Book)
    requires Inv(fs, book)
    ensures Inv(DirSynced(fs), book) && Calm(fs, DirSynced(fs), {})
    ensures Gens(DirSynced(fs)) == {GenNow(fs)}
  {
    hide ManifestGeneration, GenOfText, RowsText, IsArtifact, PathFits;
    var fs', last := DirSynced(fs), |fs.trail| - 1;
    ApartInjective(fs);
    assert fs'.Wf() && fs'.Now() == fs.Now() && fs'.trail[0] == fs.trail[last] && |fs'.trail| == 1;
    assert GenAt(fs', 0) == GenAt(fs, last);
    assert Sound(fs, book, last);
    forall m, text | Holds(fs, m, text) ensures Holds(fs', m, text) { }
    assert Sound(fs', book, 0);
  }

  lemma CurrentNamed(fs: Fs)
    requires fs.Wf()
    ensures GenNow(fs) in Gens(fs)
  {
    hide GenOfText;
  }

  lemma RenameTrail(fs: Fs, k: nat)
    requires fs.Wf() && ManifestTmp in fs.Now() && k <= |fs.trail|
    ensures var fs' := Renamed(fs, ManifestTmp, Manifest);
      && |fs'.trail| == |fs.trail| + 1 && fs'.Wf()
      && (k < |fs.trail| ==> fs'.trail[k] == fs.trail[k] && GenAt(fs', k) == GenAt(fs, k))
  {
    hide GenOfText;
  }

  lemma RenameGens(fs: Fs, g: nat)
    requires fs.Wf() && ManifestTmp in fs.Now()
    requires fs.inodes[fs.Now()[ManifestTmp]] == Inode(ManifestText(g), true)
    requires 1 <= g <= LLONG_MAX
    requires Renamed(fs, ManifestTmp, Manifest).Wf()
    ensures var fs' := Renamed(fs, ManifestTmp, Manifest);
      GenNow(fs') == g && Gens(fs) <= Gens(fs') <= Gens(fs) + {g}
  {
    hide ManifestGeneration, ManifestText;
    var fs' := Renamed(fs, ManifestTmp, Manifest);
    ManifestRoundTrip(g);
    forall h | h in Gens(fs') ensures h in Gens(fs) + {g} {
      var k :| 0 <= k < |fs'.trail| && h == GenAt(fs', k);
      RenameTrail(fs, k);
      if k < |fs.trail| { assert GenAt(fs, k) in Gens(fs); }
    }
    forall h | h in Gens(fs) ensures h in Gens(fs') {
      var k :| 0 <= k < |fs.trail| && h == GenAt(fs, k);
      RenameTrail(fs, k);
      assert GenAt(fs', k) in Gens(fs');
    }
  }

  lemma RenameHolds(fs: Fs, m: Name, text: string)
    requires fs.Wf() && ManifestTmp in fs.Now() && m != Manifest && m != ManifestTmp && Holds(fs, m, text)
    requires Renamed(fs, ManifestTmp, Manifest).Wf()
    ensures Holds(Renamed(fs, ManifestTmp, Manifest), m, text)
  {
    var fs' := Renamed(fs, ManifestTmp, Manifest);
    var last := |fs.trail|;
    assert fs'.trail[last] == (fs.Now() - {ManifestTmp})[Manifest := fs.Now()[ManifestTmp]];
    assert fs.trail[last - 1] == fs.Now();
    forall k | 0 <= k < |fs'.trail|
      ensures m in fs'.trail[k] && fs'.inodes[fs'.trail[k][m]] == Inode(text, true)
    {
      if k < last { assert fs'.trail[k] == fs.trail[k]; }
    }
  }

  lemma RenameSound(fs: Fs, book: Book, g: nat)
    requires Inv(fs, book) && ManifestTmp in fs.Now()
    requires fs.inodes[fs.Now()[ManifestTmp]].synced
    requires 1 <= g <= LLONG_MAX && g in book && Complete(fs, g, book[g])
    requires Renamed(fs, ManifestTmp, Manifest).Wf() && GenNow(Renamed(fs, ManifestTmp, Manifest)) == g
    ensures forall k :: 0 <= k < |fs.trail| + 1 ==> Sound(Renamed(fs, ManifestTmp, Manifest), book, k)
  {
    hide GenOfText, RowsText;
    var fs' := Renamed(fs, ManifestTmp, Manifest);
    forall k | 0 <= k < |fs'.trail| ensures Sound(fs', book, k) {
      RenameTrail(fs, k);
      var h := GenAt(fs', k);
      if k < |fs.trail| { assert Sound(fs, book, k); }
      if h in book && Complete(fs, h, book[h]) {
        RenameHolds(fs, GenName(Snapshot, h), RowsText(book[h]));
        RenameHolds(fs, GenName(Aof, h), "");
      }
    }
  }

  lemma ManifestFits()
    ensures PathFits(Manifest) && PathFits(ManifestTmp) && PathFits(Marker)
  {
  }

  lemma RenameBoot(fs: Fs)
    requires fs.Wf() && ManifestTmp in fs.Now()
    ensures Short(fs) ==> Short(Renamed(fs, ManifestTmp, Manifest))
    ensures Boot(fs) ==> Boot(Renamed(fs, ManifestTmp, Manifest))
  {
    hide IsArtifact;
    var fs' := Renamed(fs, ManifestTmp, Manifest);
    ManifestFits();
    assert fs'.Now() == (fs.Now() - {ManifestTmp})[Manifest := fs.Now()[ManifestTmp]];
    if Short(fs) {
      forall k, n | 0 <= k < |fs'.trail| && n in fs'.trail[k] ensures PathFits(n) {
        RenameTrail(fs, k);
        if k < |fs.trail| { assert n in fs.trail[k]; }
        else if n != Manifest { assert n in fs.trail[|fs.trail| - 1]; }
      }
    }
    if Boot(fs) {
      forall k | 0 <= k < |fs'.trail| ensures Bootable(fs'.trail[k]) {
        RenameTrail(fs, k);
        if k < |fs.trail| { assert Bootable(fs.trail[k]); }
      }
    }
  }

  lemma RenameApart(fs: Fs)
    requires fs.Wf() && ManifestTmp in fs.Now() && Apart(fs)
    requires forall k :: 0 <= k < |fs.trail| ==> Injective(fs.trail[k])
    ensures var fs' := Renamed(fs, ManifestTmp, Manifest);
      fs'.Wf() && Apart(fs') && forall k :: 0 <= k < |fs'.trail| ==> Injective(fs'.trail[k])
  {
    var fs' := Renamed(fs, ManifestTmp, Manifest);
    var d, i, last := (fs.Now() - {ManifestTmp})[Manifest := fs.Now()[ManifestTmp]], fs.Now()[ManifestTmp], |fs.trail|;
    assert fs'.Now() == d && fs'.trail[last] == d;
    ApartInjective(fs);
    forall k | 0 <= k < |fs'.trail| ensures Injective(fs'.trail[k]) {
      if k < last { assert fs'.trail[k] == fs.trail[k]; }
    }
    forall n, k, m | n in d && 0 <= k < |fs'.trail| && m in fs'.trail[k] && fs'.trail[k][m] == d[n]
      ensures m == n || (m == ManifestTmp && n == Manifest && k < |fs'.trail| - 1)
    {
      if k < last {
        assert fs'.trail[k] == fs.trail[k];
        if n == Manifest {
          assert fs.trail[k][m] == fs.Now()[ManifestTmp];
        } else {
          assert n in fs.Now() && d[n] == fs.Now()[n];
        }
      }
    }
  }

  /** The publishing step: the temporary manifest, durable and naming the complete generation g,
      is renamed over the manifest. */
  lemma RenameKeeps(fs: Fs, book: Book, g: nat)
    requires Inv(fs, book) && ManifestTmp in fs.Now()
    requires fs.inodes[fs.Now()[ManifestTmp]] == Inode(ManifestText(g), true)
    requires 1 <= g <= LLONG_MAX && GenNow(fs) <= g
    requires g in book && Complete(fs, g, book[g])
    ensures var fs' := Renamed(fs, ManifestTmp, Manifest);
      && Inv(fs', book)
      && Gens(fs) <= Gens(fs') <= Gens(fs) + {g} && GenNow(fs') == g && Manifest in fs'.Now()
      && (Marker in fs'.Now() <==> Marker in fs.Now())
      && InitText(fs') == InitText(fs)
      && (forall m, text :: m != Manifest && m != ManifestTmp && Holds(fs, m, text) ==> Holds(fs', m, text))
      && (Short(fs) ==> Short(fs'))
      && (Boot(fs) ==> Boot(fs'))
      && (Anchored(fs) ==> Anchored(fs'))
  {
    hide GenOfText, ManifestText, Holds, Boot, Short, Sound;
    var fs' := Renamed(fs, ManifestTmp, Manifest);
    RenameApart(fs);
    RenameGens(fs, g);
    RenameSound(fs, book, g);
    RenameBoot(fs);
    forall m, text | m != Manifest && m != ManifestTmp && Holds(fs, m, text) ensures Holds(fs', m, text) {
      RenameHolds(fs, m, text);
    }
    forall j, k | 0 <= j <= k < |fs'.trail| ensures GenAt(fs', j) <= GenAt(fs', k) {
      RenameTrail(fs, j);
      RenameTrail(fs, k);
      if j < |fs.trail| { assert GenAt(fs, j) <= GenAt(fs, |fs.trail| - 1); }
    }
    assert fs'.Now() == (fs.Now() - {ManifestTmp})[Manifest := fs.Now()[ManifestTmp]];
  }

  // ---------- crashes ----------

  lemma ImageEntry(order: Order, fs: Fs, fs': Fs, n: Name) returns (k: nat)
    requires fs.Wf() && fs'.Wf() && CrashImage(order, fs, fs')
    requires forall n :: FromTrail(fs.trail, fs'.Now(), n)
    ensures k < |fs.trail| && Lookup(fs'.trail[0], n) == Lookup(fs.trail[k], n)
  {
    assert FromTrail(fs.trail, fs'.Now(), n);
    k :| 0 <= k < |fs.trail| && Lookup(fs'.Now(), n) == Lookup(fs.trail[k], n);
  }

  /** Crash safety of the invariant: whatever a power loss leaves, with arbitrary loss of un-synced
      entry changes, satisfies the invariant again, its manifest names a generation that the
      manifest named at some point since the last directory fsync, and everything that was
      durable is still there. */
  lemma CrashKeeps(order: Order, fs: Fs, fs': Fs, book: Book)
    requires Inv(fs, book) && CrashImage(order, fs, fs')
    ensures Inv(fs', book)
    ensures GenNow(fs') in Gens(fs) && GenAt(fs, 0) <= GenNow(fs')
    ensures forall n, text :: Holds(fs, n, text) ==> Holds(fs', n, text)
    ensures order == Ordered && Boot(fs) ==> Boot(fs')
    ensures Short(fs) ==> Short(fs')
  {
    hide ManifestGeneration, GenOfText, RowsText, IsArtifact, PathFits;
    ImageWf(order, fs, fs');
    forall n, text | Holds(fs, n, text) ensures Holds(fs', n, text) {
      var k := ImageEntry(order, fs, fs', n);
    }
    if Short(fs) {
      forall k, n | 0 <= k < |fs'.trail| && n in fs'.trail[k] ensures PathFits(n) {
        var j := ImageEntry(order, fs, fs', n);
      }
    }
    var k := ImageEntry(order, fs, fs', Manifest);
    assert Sound(fs, book, k);
    assert GenAt(fs', 0) == GenAt(fs, k);
    assert GenAt(fs, k) in Gens(fs);
    assert Sound(fs', book, 0);
    ApartInjective(fs');
  }

  /** Reading back what the manifest names, without faults: the map recovery must end with. */
  ghost function ReadBack(fs: Fs): (Holdings, Status)
    requires fs.Wf()
  {
    if Manifest !in fs.Now() then (map[], NotFound) else
      var (s, g) := ManifestGeneration(fs.inodes[fs.Now()[Manifest]].data);
      if s != Ok || g <= 0 then (map[], s) else
        var snap, aof := GenName(Snapshot, g), GenName(Aof, g);
        if snap !in fs.Now() then (map[], NotFound) else
          var (m, loaded) := LoadText(fs.inodes[fs.Now()[snap]].data, map[]);
          if loaded != Ok then (m, loaded)
          else if aof !in fs.Now() then (m, NotFound)
          else ReplayText(fs.inodes[fs.Now()[aof]].data, m)
  }

  lemma ReplayNothing(m: Holdings)
    ensures ReplayText("", m) == (m, Ok)
  {
  }

  /** A sound manifest reads back as the store that was handed to materialize for it. */
  lemma SoundReadsBack(fs: Fs, book: Book)
    requires Inv(fs, book) && Manifest in fs.Now()
    ensures GenNow(fs) in book && ReadBack(fs) == (MapOf(book[GenNow(fs)]), Ok)
  {
    var last := |fs.trail| - 1;
    assert Sound(fs, book, last) && fs.trail[last] == fs.Now();
    var g := GenNow(fs);
    LoadInvertsPrint(book[g]);
    ReplayNothing(MapOf(book[g]));
  }

  /** Atomic publication. Take any moment of publishing generation g+1 over generation g (0 when
      nothing was published yet): the manifest names g or g+1 at every point of the trail. Then
      every crash leaves a directory that reads back, without error, as exactly the old store or
      exactly the new one; without a manifest only if there was no old store. */
  lemma AtomicPublication(order: Order, fs: Fs, fs': Fs, book: Book, g: nat)
    requires Inv(fs, book) && Gens(fs) <= {g, g + 1}
    requires CrashImage(order, fs, fs')
    ensures Inv(fs', book)
    ensures g > 0 ==> Manifest in fs'.Now()
    ensures Manifest in fs'.Now() ==> GenNow(fs') in book && ReadBack(fs') == (MapOf(book[GenNow(fs')]), Ok)
    ensures Manifest in fs'.Now() ==> GenNow(fs') == g + 1 || (GenNow(fs') == g && g > 0)
  {
    hide GenOfText, MapOf, ReadBack, CrashImage;
    CrashKeeps(order, fs, fs', book);
    assert GenNow(fs') in {g, g + 1};
    if Manifest in fs'.Now() {
      SoundReadsBack(fs', book);
      assert Sound(fs', book, |fs'.trail| - 1);
    }
  }
}
