/** The loading loops: reading the manifest, loading a stock image into the live tree and replaying
    a log onto it, line by line. */
module Loader {
  import opened Text
  import opened Stock
  import opened Records
  import opened Names
  import opened Disk
  import opened Store

  /** The text a reader of the file n sees. */
  function FileText(fs: Fs, n: Name): string
    requires fs.Wf() && n in fs.Now()
  {
    fs.inodes[fs.Now()[n]].data
  }

  lemma NextPiece(rest: string)
    requires rest != ""
    ensures var k := PieceLength(rest, LINE_ROOM);
      && 0 < k <= |rest| && Pieces(rest, LINE_ROOM) == [rest[..k]] + Pieces(rest[k..], LINE_ROOM)
  {
  }

  lemma LoadNext(line: string, rest: seq<string>, m: Holdings)
    ensures LoadPieces([line] + rest, m) ==
      match ParseRow(line)
      case Skip => LoadPieces(rest, m)
      case Bad => (m, Invalid)
      case Found(r) =>
        if ApplyRow(m, r).1 != Ok then ApplyRow(m, r) else LoadPieces(rest, ApplyRow(m, r).0)
  {
    assert ([line] + rest)[1..] == rest;
  }

  lemma ReplayNext(line: string, rest: seq<string>, m: Holdings)
    ensures ReplayPieces([line] + rest, m) ==
      match ParseLog(line)
      case Skip => ReplayPieces(rest, m)
      case Bad => (m, Invalid)
      case Found(r) =>
        if ApplyLog(m, r).1 != Ok then ApplyLog(m, r) else ReplayPieces(rest, ApplyLog(m, r).0)
  {
    assert ([line] + rest)[1..] == rest;
  }

  lemma ManifestNext(line: string, rest: seq<string>, seen: Option<int>)
    ensures ManifestPieces([line] + rest, seen) ==
      match ParseManifest(line)
      case Skip => ManifestPieces(rest, seen)
      case Bad => (Invalid, 0)
      case Found(g) => if seen.Some? then (Invalid, 0) else ManifestPieces(rest, Some(g))
  {
    assert ([line] + rest)[1..] == rest;
  }

  /** apply_stock_record. */
  method ApplyStockRecord(store: StockStore, r: Row) returns (s: Status)
    requires store.Valid()
    modifies store.Repr()
    ensures store.Valid() && fresh(store.Repr() - old(store.Repr()))
    ensures (store.Contents(), s) == ApplyRow(old(store.Contents()), r)
    ensures s == Ok || s == Invalid
  {
    hide MapOf, Ascending;
    if r.id <= 0 || r.stock < 0 || r.price < 0 {
      return Invalid;
    }
    var found, item := store.FindNolock(r.id);
    if found == Ok {
      return Invalid;
    }
    s := store.UpsertNolock(r.id, r.stock, r.price);
  }

  lemma LoadedAll(m: Holdings)
    ensures LoadPieces(Pieces("", LINE_ROOM), m) == (m, Ok)
  {
  }

  /** load_stock_file_into_store. Without a read fault, the effect and the status are those of the
      file's whole text. */
  method LoadStockFile(disk: Disk, n: Name, store: StockStore) returns (s: Status)
    requires disk.fs.Wf() && store.Valid()
    modifies store.Repr()
    ensures store.Valid() && fresh(store.Repr() - old(store.Repr()))
    ensures s != Io && s != Halted && n in disk.fs.Now() ==>
      (store.Contents(), s) == LoadText(FileText(disk.fs, n), old(store.Contents()))
    ensures s != Io && s != Halted && n !in disk.fs.Now() ==>
      s == NotFound && store.Contents() == old(store.Contents())
    ensures disk.reliable ==> s != Io && s != Halted
  {
    hide MapOf, Ascending, LoadPieces, Pieces, ParseRow, ApplyRow;
    var start, rest := disk.OpenForRead(n);
    if start != Ok {
      return start;
    }
    ghost var whole := LoadText(rest, store.Contents());
    while rest != ""
      invariant store.Valid() && fresh(store.Repr() - old(store.Repr()))
      invariant whole == LoadPieces(Pieces(rest, LINE_ROOM), store.Contents())
      decreases |rest|
    {
      var fate := disk.Fate();
      if fate != Ok {
        return fate;
      }
      var k := PieceLength(rest, LINE_ROOM);
      NextPiece(rest);
      LoadNext(rest[..k], Pieces(rest[k..], LINE_ROOM), store.Contents());
      var parsed := ParseRow(rest[..k]);
      rest := rest[k..];
      if parsed.Bad? {
        return Invalid;
      }
      if parsed.Found? {
        s := ApplyStockRecord(store, parsed.value);
        if s != Ok {
          return;
        }
      }
    }
    LoadedAll(store.Contents());
    s := Ok;
  }

  /** No sum in the replay of these lines leaves the range of int. */
  ghost predicate ReplayFits(ps: seq<string>, m: Holdings) {
    ps == [] ||
    match ParseLog(ps[0])
    case Skip => ReplayFits(ps[1..], m)
    case Bad => true
    case Found(r) =>
      DeltaFits(m, r.id, LogDelta(r)) &&
      (ApplyLog(m, r).1 == Ok ==> ReplayFits(ps[1..], ApplyLog(m, r).0))
  }

  lemma FitsNext(line: string, rest: seq<string>, m: Holdings)
    requires ReplayFits([line] + rest, m)
    ensures match ParseLog(line)
      case Skip => ReplayFits(rest, m)
      case Bad => true
      case Found(r) =>
        DeltaFits(m, r.id, LogDelta(r)) &&
        (ApplyLog(m, r).1 == Ok ==> ReplayFits(rest, ApplyLog(m, r).0))
  {
    assert ([line] + rest)[1..] == rest;
  }

  /** apply_aof_record. */
  method ApplyAofRecord(store: StockStore, r: LogRecord) returns (s: Status)
    requires store.Valid() && DeltaFits(store.Contents(), r.id, LogDelta(r))
    modifies store.Repr()
    ensures store.Valid() && fresh(store.Repr() - old(store.Repr()))
    ensures (store.Contents(), s) == ApplyLog(old(store.Contents()), r)
    ensures s != Io && s != Halted
  {
    hide MapOf, Ascending;
    if r.id <= 0 || r.count <= 0 {
      return Invalid;
    }
    var delta := if r.op == LogBuy then -r.count else r.count;
    s := store.ApplyDeltaNolock(r.id, delta);
  }

  lemma ReplayedAll(m: Holdings)
    ensures ReplayPieces(Pieces("", LINE_ROOM), m) == (m, Ok)
    ensures ReplayFits(Pieces("", LINE_ROOM), m)
  {
  }

  /** replay_aof_into_store. */
  method ReplayAof(disk: Disk, n: Name, store: StockStore) returns (s: Status)
    requires disk.fs.Wf() && store.Valid()
    requires n in disk.fs.Now() ==>
      ReplayFits(Pieces(FileText(disk.fs, n), LINE_ROOM), store.Contents())
    modifies store.Repr()
    ensures store.Valid() && fresh(store.Repr() - old(store.Repr()))
    ensures s != Io && s != Halted && n in disk.fs.Now() ==>
      (store.Contents(), s) == ReplayText(FileText(disk.fs, n), old(store.Contents()))
    ensures s != Io && s != Halted && n !in disk.fs.Now() ==>
      s == NotFound && store.Contents() == old(store.Contents())
    ensures disk.reliable ==> s != Io && s != Halted
  {
    hide MapOf, Ascending, ReplayPieces, ReplayFits, Pieces, ParseLog, ApplyLog;
    var start, rest := disk.OpenForRead(n);
    if start != Ok {
      return start;
    }
    ghost var whole := ReplayText(rest, store.Contents());
    while rest != ""
      invariant store.Valid() && fresh(store.Repr() - old(store.Repr()))
      invariant whole == ReplayPieces(Pieces(rest, LINE_ROOM), store.Contents())
      invariant ReplayFits(Pieces(rest, LINE_ROOM), store.Contents())
      decreases |rest|
    {
      var fate := disk.Fate();
      if fate != Ok {
        return fate;
      }
      var k := PieceLength(rest, LINE_ROOM);
      NextPiece(rest);
      ReplayNext(rest[..k], Pieces(rest[k..], LINE_ROOM), store.Contents());
      FitsNext(rest[..k], Pieces(rest[k..], LINE_ROOM), store.Contents());
      var parsed := ParseLog(rest[..k]);
      rest := rest[k..];
      if parsed.Bad? {
        return Invalid;
      }
      if parsed.Found? {
        s := ApplyAofRecord(store, parsed.value);
        if s != Ok {
          return;
        }
      }
    }
    ReplayedAll(store.Contents());
    s := Ok;
  }

  lemma ManifestRead(seen: Option<int>)
    ensures ManifestPieces(Pieces("", LINE_ROOM), seen) ==
      if seen.Some? then (Ok, seen.value) else (Invalid, 0)
  {
  }

  /** read_manifest_generation. */
  method ReadManifestGeneration(disk: Disk) returns (s: Status, gen: int)
    requires disk.fs.Wf()
    ensures s != Io && s != Halted && Manifest in disk.fs.Now() ==>
      (s, gen) == ManifestGeneration(FileText(disk.fs, Manifest))
    ensures s != Io && s != Halted && Manifest !in disk.fs.Now() ==> s == NotFound
    ensures s == NotFound ==> Manifest !in disk.fs.Now()
    ensures disk.reliable ==> s != Io && s != Halted
  {
    hide ManifestPieces, Pieces, ParseManifest;
    gen := 0;
    var start, rest := disk.OpenForRead(Manifest);
    if start != Ok {
      return start, 0;
    }
    var seen: Option<int> := None;
    ghost var whole := ManifestGeneration(rest);
    while rest != ""
      invariant whole == ManifestPieces(Pieces(rest, LINE_ROOM), seen)
      invariant seen.Some? ==> gen == seen.value
      decreases |rest|
    {
      var fate := disk.Fate();
      if fate != Ok {
        return fate, 0;
      }
      var k := PieceLength(rest, LINE_ROOM);
      NextPiece(rest);
      ManifestNext(rest[..k], Pieces(rest[k..], LINE_ROOM), seen);
      var parsed := ParseManifest(rest[..k]);
      rest := rest[k..];
      if parsed.Skip? {
        continue;
      }
      if parsed.Bad? || seen.Some? {
        return Invalid, 0;
      }
      seen := Some(parsed.value);
      gen := parsed.value;
    }
    ManifestRead(seen);
    if seen == None {
      return Invalid, 0;
    }
    s := Ok;
  }
}
