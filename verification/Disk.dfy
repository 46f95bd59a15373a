/** The data directory: files, directory entries, what of them is durable, and the system calls
    the store makes on it. */
module Disk {
  import opened Text
  import opened Stock
  import opened Names

  type Dir = map<Name, nat>

  /** A file. `synced` says that fsync succeeded after the last write, so a crash keeps `data`. */
  datatype Inode = Inode(data: string, synced: bool)

  /** The file system. `trail` is the directory as it was after the last successful fsync of the
      directory, followed by its state after each entry change since; the last one is what
      programs see. */
  datatype Fs = Fs(inodes: seq<Inode>, trail: seq<Dir>) {
    ghost predicate Wf() {
      && |trail| > 0
      && forall k, n :: 0 <= k < |trail| && n in trail[k] ==> trail[k][n] < |inodes|
    }

    function Now(): Dir
      requires |trail| > 0
    {
      trail[|trail| - 1]
    }
  }

  // ---------- the effects of the calls ----------

  function Opened(fs: Fs, n: Name, junk: string): Fs
    requires fs.Wf()
  {
    if n in fs.Now() then fs.(inodes := fs.inodes[fs.Now()[n] := Inode(junk, false)])
    else Fs(fs.inodes + [Inode(junk, false)], fs.trail + [fs.Now()[n := |fs.inodes|]])
  }

  function Written(fs: Fs, ino: nat, text: string): Fs
    requires ino < |fs.inodes|
  {
    fs.(inodes := fs.inodes[ino := Inode(text, false)])
  }

  function FileSynced(fs: Fs, ino: nat): Fs
    requires ino < |fs.inodes|
  {
    fs.(inodes := fs.inodes[ino := Inode(fs.inodes[ino].data, true)])
  }

  function Unlinked(fs: Fs, n: Name): Fs
    requires fs.Wf()
  {
    fs.(trail := fs.trail + [fs.Now() - {n}])
  }

  function Renamed(fs: Fs, src: Name, dst: Name): Fs
    requires fs.Wf() && src in fs.Now()
  {
    fs.(trail := fs.trail + [(fs.Now() - {src})[dst := fs.Now()[src]]])
  }

  function DirSynced(fs: Fs): Fs
    requires fs.Wf()
  {
    fs.(trail := [fs.Now()])
  }

  // ---------- crashes ----------

  /** Whether entry changes that were not synced survive a crash in the order they were made. */
  datatype Order = Ordered | Unordered

  function Lookup(d: Dir, n: Name): Option<nat> { if n in d then Some(d[n]) else None }

  ghost predicate Injective(d: Dir) {
    forall n, m :: n in d && m in d && d[n] == d[m] ==> n == m
  }

  ghost predicate FromTrail(trail: seq<Dir>, d: Dir, n: Name) {
    exists k :: 0 <= k < |trail| && Lookup(d, n) == Lookup(trail[k], n)
  }

  /** A directory that a crash may leave. Ordered: a prefix of the changes. Unordered: each name has
      any of the values it had since the last directory fsync, on its own; but a file never has two
      names, because rename is atomic. */
  ghost predicate MayRemain(order: Order, trail: seq<Dir>, d: Dir) {
    match order
    case Ordered => exists k :: 0 <= k < |trail| && d == trail[k]
    case Unordered => Injective(d) && forall n :: FromTrail(trail, d, n)
  }

  /** fs' is what a power loss in fs may leave: synced files keep their data, all other files hold
      anything at all. */
  ghost predicate CrashImage(order: Order, fs: Fs, fs': Fs) {
    && |fs'.trail| == 1 && MayRemain(order, fs.trail, fs'.trail[0])
    && |fs'.inodes| == |fs.inodes|
    && forall i :: 0 <= i < |fs.inodes| ==>
      fs'.inodes[i].synced && (fs.inodes[i].synced ==> fs'.inodes[i] == fs.inodes[i])
  }

  /** The file that has a name now never had another, except that the manifest was the temporary
      manifest before its rename. */
  ghost predicate Apart(fs: Fs)
    requires fs.Wf()
  {
    forall n, k, m :: n in fs.Now() && 0 <= k < |fs.trail| && m in fs.trail[k] ==>
      fs.trail[k][m] == fs.Now()[n] ==>
      m == n || (m == ManifestTmp && n == Manifest && k < |fs.trail| - 1)
  }

  lemma ApartInjective(fs: Fs)
    requires fs.Wf() && Apart(fs)
    ensures Injective(fs.Now())
  {
    forall n, m | n in fs.Now() && m in fs.Now() && fs.Now()[n] == fs.Now()[m] ensures n == m {
      assert m in fs.trail[|fs.trail| - 1];
    }
  }

  lemma ImageWf(order: Order, fs: Fs, fs': Fs)
    requires fs.Wf() && CrashImage(order, fs, fs')
    requires order == Ordered ==> forall k :: 0 <= k < |fs.trail| ==> Injective(fs.trail[k])
    ensures fs'.Wf() && Apart(fs')
    ensures forall n :: FromTrail(fs.trail, fs'.Now(), n)
  {
    forall n ensures FromTrail(fs.trail, fs'.Now(), n) {
      if order == Ordered {
        var k :| 0 <= k < |fs.trail| && fs'.trail[0] == fs.trail[k];
        assert Lookup(fs'.Now(), n) == Lookup(fs.trail[k], n);
      }
    }
    forall k, n | 0 <= k < |fs'.trail| && n in fs'.trail[k] ensures fs'.trail[k][n] < |fs'.inodes| {
      assert FromTrail(fs.trail, fs'.Now(), n);
      var j :| 0 <= j < |fs.trail| && Lookup(fs'.Now(), n) == Lookup(fs.trail[j], n);
    }
  }

  /** One entry change, as a journal would record it. */
  datatype Change = Link(n: Name, ino: nat) | Drop(n: Name) | Move(src: Name, dst: Name, ino: nat)

  function Apply(d: Dir, c: Change): Dir {
    match c
    case Link(n, ino) => d[n := ino]
    case Drop(n) => d - {n}
    case Move(src, dst, ino) => (d - {src})[dst := ino]
  }

  /** The directory after only some of the changes. */
  function ApplyKept(d: Dir, changes: seq<Change>, kept: seq<bool>): Dir
    requires |kept| == |changes|
  {
    if changes == [] then d else
      var k := |changes| - 1;
      var before := ApplyKept(d, changes[..k], kept[..k]);
      if kept[k] then Apply(before, changes[k]) else before
  }

  ghost predicate Trail(trail: seq<Dir>, changes: seq<Change>) {
    |trail| == |changes| + 1 && forall k :: 0 <= k < |changes| ==> trail[k + 1] == Apply(trail[k], changes[k])
  }

  /** Unordered crashes cover the loss of any subset of the changes since the last fsync. */
  lemma {:induction false} AnySubsetMayRemain(trail: seq<Dir>, changes: seq<Change>, kept: seq<bool>)
    requires Trail(trail, changes) && |kept| == |changes|
    ensures forall n :: FromTrail(trail, ApplyKept(trail[0], changes, kept), n)
    ensures Injective(ApplyKept(trail[0], changes, kept)) ==>
      MayRemain(Unordered, trail, ApplyKept(trail[0], changes, kept))
  {
    var d := ApplyKept(trail[0], changes, kept);
    if changes == [] {
      forall n ensures FromTrail(trail, d, n) { assert Lookup(d, n) == Lookup(trail[0], n); }
    } else {
      var k := |changes| - 1;
      var shorter := trail[..k + 1];
      var before := ApplyKept(trail[0], changes[..k], kept[..k]);
      assert forall i :: 0 <= i < k ==> shorter[i] == trail[i] && changes[..k][i] == changes[i];
      AnySubsetMayRemain(shorter, changes[..k], kept[..k]);
      forall n ensures FromTrail(trail, d, n) {
        if Lookup(d, n) == Lookup(trail[k + 1], n) {
        } else {
          assert FromTrail(shorter, before, n);
          var i :| 0 <= i < |shorter| && Lookup(before, n) == Lookup(shorter[i], n);
          assert Lookup(d, n) == Lookup(trail[i], n);
        }
      }
    }
  }

  // ---------- what is not safe ----------

  /** The k-th directory of the trail, with anything in the files that are not synced. */
  lemma KeptEntries(order: Order, fs: Fs, k: nat, junk: string) returns (fs': Fs)
    requires k < |fs.trail| && Injective(fs.trail[k])
    ensures CrashImage(order, fs, fs') && fs'.trail == [fs.trail[k]]
    ensures forall i :: 0 <= i < |fs.inodes| && !fs.inodes[i].synced ==> fs'.inodes[i].data == junk
  {
    fs' := Fs(seq(|fs.inodes|, i requires 0 <= i < |fs.inodes| =>
      if fs.inodes[i].synced then fs.inodes[i] else Inode(junk, true)), [fs.trail[k]]);
    assert forall n :: Lookup(fs.trail[k], n) == Lookup(fs.trail[k], n);
    forall n ensures FromTrail(fs.trail, fs.trail[k], n) { }
  }

  /** Until its fsync, anything at all may be found in a file after a crash, in either order. */
  lemma WrittenMayBeLost(order: Order, fs: Fs, ino: nat, text: string, junk: string) returns (fs': Fs)
    requires fs.Wf() && ino < |fs.inodes| && Injective(fs.Now())
    ensures CrashImage(order, Written(fs, ino, text), fs')
    ensures fs'.trail == [fs.Now()] && fs'.inodes[ino].data == junk
  {
    fs' := KeptEntries(order, Written(fs, ino, text), |fs.trail| - 1, junk);
  }

  /** An existing file that is opened for writing may have lost its contents. */
  lemma OpenedMayBeLost(order: Order, fs: Fs, n: Name, junk: string, after: string) returns (fs': Fs)
    requires fs.Wf() && n in fs.Now() && Injective(fs.Now())
    ensures CrashImage(order, Opened(fs, n, junk), fs')
    ensures fs'.trail == [fs.Now()] && fs'.inodes[fs.Now()[n]].data == after
  {
    fs' := KeptEntries(order, Opened(fs, n, junk), |fs.trail| - 1, after);
  }

  /** A creation, an unlink and a rename may each be lost, or kept, until the directory's fsync. */
  lemma ChangesMayBeLost(order: Order, fs: Fs, fs1: Fs, n: Name, dst: Name, junk: string)
    requires fs.Wf() && Injective(fs.Now())
    requires (fs1 == Opened(fs, n, junk) && n !in fs.Now()) || fs1 == Unlinked(fs, n)
      || (n in fs.Now() && fs1 == Renamed(fs, n, dst))
    requires |fs1.trail| > 0 && Injective(fs1.Now())
    ensures exists fs' :: CrashImage(order, fs1, fs') && fs'.trail == [fs.Now()]
    ensures exists fs' :: CrashImage(order, fs1, fs') && fs'.trail == [fs1.Now()]
  {
    var lost := KeptEntries(order, fs1, |fs.trail| - 1, junk);
    var kept := KeptEntries(order, fs1, |fs1.trail| - 1, junk);
    assert CrashImage(order, fs1, lost) && lost.trail == [fs.Now()];
    assert CrashImage(order, fs1, kept) && kept.trail == [fs1.Now()];
  }

  // ---------- the calls ----------

  method SomeOrder(names: set<Name>) returns (list: seq<Name>)
    ensures forall n :: n in list <==> n in names
  {
    var left := names;
    list := [];
    while left != {}
      invariant forall n :: n in names <==> n in list || n in left
      decreases left
    {
      var n :| n in left;
      list := list + [n];
      left := left - {n};
    }
  }

  /** The data directory seen through system calls. A call may fail with an I/O error, or the
      process may end inside it; on a reliable disk neither happens. `unlinks` says that unlink, at
      least, does not fail. */
  class Disk {
    var fs: Fs
    var reliable: bool
    var unlinks: bool

    constructor (fs: Fs, reliable: bool, unlinks: bool)
      ensures this.fs == fs && this.reliable == reliable && this.unlinks == unlinks
    {
      this.fs, this.reliable, this.unlinks := fs, reliable, unlinks;
    }

    /** The fate of one call: it runs, it fails, or the process ends. */
    method Fate() returns (s: Status)
      ensures s == Ok || s == Io || s == Halted
      ensures reliable ==> s == Ok
    {
      var failed: bool := *;
      var halted: bool := *;
      s := if reliable then Ok else if halted then Halted else if failed then Io else Ok;
    }

    /** fopen(name, "w"). Until the stream is flushed the file's contents are unspecified. */
    method OpenForWrite(n: Name) returns (s: Status, ino: nat, ghost junk: string)
      requires fs.Wf()
      modifies this`fs
      ensures fs.Wf()
      ensures s == Ok || s == Io || s == Halted
      ensures s == Ok ==> fs == Opened(old(fs), n, junk) && n in fs.Now() && ino == fs.Now()[n]
      ensures s != Ok ==> fs == old(fs)
      ensures reliable ==> s == Ok
    {
      s := Fate();
      var d: string := *;
      junk := d;
      ino := 0;
      if s == Ok {
        fs := Opened(fs, n, d);
        ino := fs.Now()[n];
      }
    }

    /** fflush: the file's contents become the text printed to the stream. */
    method Flush(ino: nat, text: string) returns (s: Status)
      requires fs.Wf()
      requires ino < |fs.inodes|
      modifies this`fs
      ensures fs.Wf()
      ensures s == Ok || s == Io || s == Halted
      ensures s == Ok ==> fs == Written(old(fs), ino, text)
      ensures s != Ok ==> fs == old(fs)
      ensures reliable ==> s == Ok
    {
      s := Fate();
      if s == Ok { fs := Written(fs, ino, text); }
    }

    method Fsync(ino: nat) returns (s: Status)
      requires fs.Wf()
      requires ino < |fs.inodes|
      modifies this`fs
      ensures fs.Wf()
      ensures s == Ok || s == Io || s == Halted
      ensures s == Ok ==> fs == FileSynced(old(fs), ino)
      ensures s != Ok ==> fs == old(fs)
      ensures reliable ==> s == Ok
    {
      s := Fate();
      if s == Ok { fs := FileSynced(fs, ino); }
    }

    method Close() returns (s: Status)
      ensures s == Ok || s == Io || s == Halted
      ensures reliable ==> s == Ok
    {
      s := Fate();
    }

    /** unlink; NotFound stands for ENOENT. */
    method Unlink(n: Name) returns (s: Status)
      requires fs.Wf()
      modifies this`fs
      ensures fs.Wf()
      ensures s == Ok || s == NotFound || s == Io || s == Halted
      ensures s == Ok ==> n in old(fs).Now() && fs == Unlinked(old(fs), n)
      ensures s == NotFound ==> n !in fs.Now()
      ensures s != Ok ==> fs == old(fs)
      ensures unlinks ==> s != Io
      ensures reliable ==> s == if n in old(fs).Now() then Ok else NotFound
    {
      s := Fate();
      if s == Io && unlinks {
        s := Ok;
      }
      if s == Ok {
        if n !in fs.Now() {
          return NotFound;
        }
        fs := Unlinked(fs, n);
      }
    }

    method Rename(src: Name, dst: Name) returns (s: Status)
      requires fs.Wf() && src in fs.Now()
      modifies this`fs
      ensures fs.Wf()
      ensures s == Ok || s == Io || s == Halted
      ensures s == Ok ==> fs == Renamed(old(fs), src, dst)
      ensures s != Ok ==> fs == old(fs)
      ensures reliable ==> s == Ok
    {
      s := Fate();
      if s == Ok { fs := Renamed(fs, src, dst); }
    }

    /** fsync_parent_dir. */
    method FsyncDir() returns (s: Status)
      requires fs.Wf()
      modifies this`fs
      ensures fs.Wf()
      ensures s == Ok || s == Io || s == Halted
      ensures s == Ok ==> fs == DirSynced(old(fs))
      ensures s != Ok ==> fs == old(fs)
      ensures reliable ==> s == Ok
    {
      s := Fate();
      if s == Ok { fs := DirSynced(fs); }
    }

    /** fopen(name, "r") with its ENOENT test, and the text a reader gets. */
    method OpenForRead(n: Name) returns (s: Status, text: string)
      requires fs.Wf()
      ensures s == Ok || s == NotFound || s == Io || s == Halted
      ensures s == Ok ==> n in fs.Now() && text == fs.inodes[fs.Now()[n]].data
      ensures s == NotFound ==> n !in fs.Now()
      ensures reliable ==> s == if n in fs.Now() then Ok else NotFound
    {
      s := Fate();
      text := "";
      if s == Ok {
        if n !in fs.Now() {
          return NotFound, text;
        }
        text := fs.inodes[fs.Now()[n]].data;
      }
    }

    /** file_exists: stat succeeds. An I/O error reads as absence. */
    method Exists(n: Name) returns (found: bool)
      requires fs.Wf()
      ensures found ==> n in fs.Now()
      ensures reliable && n in fs.Now() ==> found
    {
      var s := Fate();
      found := s == Ok && n in fs.Now();
    }

    /** A power loss. Histories are proved against the contract, which admits every crash image;
        the body picks one of them. */
    method PowerLoss(order: Order)
      requires fs.Wf() && forall k :: 0 <= k < |fs.trail| ==> Injective(fs.trail[k])
      modifies this`fs
      ensures CrashImage(order, old(fs), fs)
    {
      var k: int := *;
      if k < 0 || k >= |fs.trail| {
        k := 0;
      }
      var junk: string := *;
      var d, before := fs.trail[k], fs;
      var inodes := seq(|fs.inodes|, i requires 0 <= i < |before.inodes| =>
        if before.inodes[i].synced then before.inodes[i] else Inode(junk, true));
      assert forall n :: Lookup(d, n) == Lookup(before.trail[k], n);
      fs := Fs(inodes, [d]);
    }

    /** opendir and the names that readdir will deliver, in some order. */
    method OpenDir() returns (s: Status, names: seq<Name>)
      requires fs.Wf()
      ensures s == Ok || s == Io || s == Halted
      ensures s == Ok ==> forall n :: n in names <==> n in fs.Now()
      ensures reliable ==> s == Ok
    {
      s := Fate();
      names := [];
      if s == Ok {
        names := SomeOrder(fs.Now().Keys);
      }
    }
  }
}
