/** Whole histories: processes that start, serve, publish and stop, with I/O failures and power
    losses between any two calls. */
module History {
  import opened Text
  import opened Stock
  import opened Records
  import opened Names
  import opened Disk
  import opened Store
  import opened Generations
  import opened Publish
  import opened Recover
  import opened Sessions
  import opened Unordered

  // ---------- what is recorded of a history ----------

  /** One entry per process that has run: the requests its clients sent, the status it ended with, and
      whether it got as far as its publication; and for each generation the line of sessions that
      made its store, each of which recovered what the one before it in the line published. */
  datatype Chronicle = Chronicle(
    sessions: seq<seq<Request>>, statuses: seq<Status>, reached: seq<bool>, lines: map<nat, seq<nat>>)

  /** The store that the sessions of a line make from the init file. */
  ghost function StoreOf(init: string, c: Chronicle, line: seq<nat>): Holdings
    requires Line(line, |c.sessions|)
  {
    var start := LoadText(init, map[]).0;
    ServeAll(start, Played(start, c.sessions, line))
  }

  /** No session whose process reported success is missing from the line, and none is in it whose
      process stopped before its publication. */
  ghost predicate Covers(c: Chronicle, line: seq<nat>) {
    && (forall r: nat :: r < |c.statuses| && c.statuses[r] == Ok ==> r in line)
    && (forall r: nat :: r in line ==> r < |c.reached| && c.reached[r])
  }

  /** The store booked for generation g is the one that its line made. Generation 0 stands for the
      directory without a manifest. */
  ghost predicate Told(init: string, book: Book, c: Chronicle, g: nat) {
    if g == 0 then Covers(c, []) else
      && g in book && g in c.lines && Line(c.lines[g], |c.sessions|)
      && MapOf(book[g]) == StoreOf(init, c, c.lines[g]) && Covers(c, c.lines[g])
  }

  ghost predicate AllTold(fs: Fs, init: string, book: Book, c: Chronicle)
    requires fs.Wf()
  {
    forall g :: g in Gens(fs) ==> Told(init, book, c, g)
  }

  /** The state of a directory that only this program has written to, with the history behind it:
      every generation that any manifest names, durable or visible, is told. */
  ghost predicate Ours(fs: Fs, book: Book, init: string, c: Chronicle) {
    && Inv(fs, book) && Holds(fs, InitFile, init)
    && |c.statuses| == |c.sessions| == |c.reached| && AllTold(fs, init, book, c)
  }

  /** Every history may begin with a directory that holds an init file and nothing else. */
  lemma FirstDirectoryIsOurs(init: string)
    ensures FirstDirectory(init).Wf() && GenNow(FirstDirectory(init)) == 0
    ensures Ours(FirstDirectory(init), map[], init, Chronicle([], [], [], map[]))
    ensures Boot(FirstDirectory(init)) && Short(FirstDirectory(init)) && Manifest !in FirstDirectory(init).Now()
  {
    hide LoadText, MapOf, GenOfText;
    var fs := FirstDirectory(init);
    assert fs.Now() == map[InitFile := 0];
    assert PathFits(InitFile);
  }

  lemma OursParts(fs: Fs, book: Book, init: string, c: Chronicle)
    requires Ours(fs, book, init, c)
    ensures fs.Wf() && Inv(fs, book) && Holds(fs, InitFile, init) && AllTold(fs, init, book, c)
    ensures |c.statuses| == |c.sessions| == |c.reached|
    ensures forall k :: 0 <= k < |fs.trail| ==> Injective(fs.trail[k])
    ensures InitLoad(fs) == LoadText(init, map[])
    ensures GoodStore(LoadText(init, map[]).0)
  {
    HeldIsThere(fs, InitFile, init);
    LoadTextKeepsGood(init);
  }

  /** What is told of the current generation. */
  lemma ToldNow(fs: Fs, book: Book, init: string, c: Chronicle)
    requires Ours(fs, book, init, c)
    ensures Told(init, book, c, GenNow(fs))
    ensures Manifest in fs.Now() <==> GenNow(fs) > 0
    ensures Manifest !in fs.Now() ==> Gens(fs) == {0}
    ensures GenNow(fs) > 0 ==> GenNow(fs) in book && GoodStore(MapOf(book[GenNow(fs)]))
  {
    hide LoadText, MapOf, GenOfText, Told;
    var last := |fs.trail| - 1;
    assert GenAt(fs, last) in Gens(fs) && Sound(fs, book, last);
    if Manifest in fs.Now() { GoodBothWays(book[GenNow(fs)]); } else { NoManifestNoGens(fs, book); }
  }

  // ---------- how the record grows ----------

  lemma ToldElsewhere(init: string, book: Book, c: Chronicle, g: nat, h: nat, rows: seq<Row>, line: seq<nat>)
    requires Told(init, book, c, g) && g != h
    ensures Told(init, book[h := rows], c.(lines := c.lines[h := line]), g)
  {
    hide MapOf, LoadText;
  }

  /** One more process, which did not report success. */
  lemma ToldNext(init: string, book: Book, c: Chronicle, g: nat, rs: seq<Request>, s: Status, reached: bool)
    requires Told(init, book, c, g) && s != Ok && |c.statuses| == |c.sessions| == |c.reached|
    ensures Told(init, book, c.(sessions := c.sessions + [rs], statuses := c.statuses + [s],
                                reached := c.reached + [reached]), g)
  {
    hide MapOf, LoadText;
    if g > 0 { PlayedStays(LoadText(init, map[]).0, c.sessions, c.lines[g], rs); }
  }

  lemma ToldBootstrap(init: string, book: Book, c: Chronicle, rows: seq<Row>)
    requires Told(init, book, c, 0) && MapOf(rows) == LoadText(init, map[]).0
    ensures Told(init, book[1 := rows], c.(lines := c.lines[1 := []]), 1)
  {
    hide MapOf, LoadText;
  }

  function Published(c: Chronicle, g: nat, rs: seq<Request>, s: Status): Chronicle
    requires g in c.lines
  {
    Chronicle(c.sessions + [rs], c.statuses + [s], c.reached + [true],
              c.lines[g + 1 := c.lines[g] + [|c.sessions|]])
  }

  /** One more process, and the generation it published. */
  lemma ToldPublished(init: string, book: Book, c: Chronicle, g: nat, rs: seq<Request>, s: Status, rows: seq<Row>)
    requires g > 0 && Told(init, book, c, g) && |c.statuses| == |c.sessions| == |c.reached|
    requires var m := MapOf(book[g]); MapOf(rows) == ServeAll(m, Fitting(m, rs))
    ensures Told(init, book[g + 1 := rows], Published(c, g, rs, s), g + 1)
  {
    hide MapOf, LoadText, ServeAll, Fitting;
    PlayedOneMore(LoadText(init, map[]).0, c.sessions, c.lines[g], rs);
    var c' := Published(c, g, rs, s);
    forall r: nat | r < |c'.statuses| && c'.statuses[r] == Ok ensures r in c'.lines[g + 1] {
      if r < |c.statuses| { assert r in c.lines[g]; }
    }
  }

  function Stopped(c: Chronicle, rs: seq<Request>, s: Status): Chronicle {
    c.(sessions := c.sessions + [rs], statuses := c.statuses + [s], reached := c.reached + [false])
  }

  lemma GensGrow(fs: Fs, fs': Fs, book: Book, g: nat)
    requires Inv(fs, book) && fs'.Wf() && Gens(fs') <= Gens(fs) + {g} && g >= GenNow(fs)
    ensures GenAt(fs, 0) <= GenAt(fs', 0)
  {
    hide GenOfText, Sound, Apart;
    assert GenAt(fs', 0) in Gens(fs');
    if GenAt(fs', 0) in Gens(fs) {
      var k :| 0 <= k < |fs.trail| && GenAt(fs', 0) == GenAt(fs, k);
    }
  }

  // ---------- one process ----------

  /** The book and the record once a first start has published the init file as generation 1; with a
      manifest there is nothing to add. */
  ghost function BegunBook(fs: Fs, book: Book, init: string): Book
    requires fs.Wf()
  {
    if Manifest in fs.Now() then book else book[1 := Listing(LoadText(init, map[]).0)]
  }

  function BegunRecord(fs: Fs, c: Chronicle): Chronicle
    requires fs.Wf()
  {
    if Manifest in fs.Now() then c else c.(lines := c.lines[1 := []])
  }

  function BegunGen(fs: Fs): nat
    requires fs.Wf()
  {
    if Manifest in fs.Now() then GenNow(fs) else 1
  }

  lemma StartedOurs(fs: Fs, book: Book, c: Chronicle, fs': Fs, book': Book, init: string)
    requires Ours(fs, book, init, c) && Started(fs, fs') && Inv(fs', book')
    requires (book' == book && Gens(fs') <= Gens(fs)) || (book' == BegunBook(fs, book, init) && Manifest !in fs.Now())
    ensures Ours(fs', book', init, if book' == book && Gens(fs') <= Gens(fs) then c else BegunRecord(fs, c))
    ensures GenAt(fs, 0) <= GenAt(fs', 0) && GenNow(fs') <= BegunGen(fs)
    ensures (Boot(fs) ==> Boot(fs')) && (Short(fs) ==> Short(fs'))
  {
    hide LoadText, MapOf, GenOfText, GenAt, Boot, Short, Told, Listing, Inv, InitText;
    OursParts(fs, book, init, c);
    ToldNow(fs, book, init, c);
    GensGrow(fs, fs', book, BegunGen(fs));
    assert GenNow(fs') in Gens(fs');
    if !(book' == book && Gens(fs') <= Gens(fs)) {
      ToldBootstrap(init, book, c, Listing(LoadText(init, map[]).0));
      forall g | g in Gens(fs') ensures Told(init, book', BegunRecord(fs, c), g) {
        if g != 1 { ToldElsewhere(init, book, c, g, 1, book'[1], []); }
      }
    }
  }

  lemma StartedNow(fs: Fs, fs': Fs)
    requires Started(fs, fs')
    ensures fs.Wf() && fs'.Wf()
    ensures Manifest in fs.Now() ==> Manifest in fs'.Now() && GenNow(fs') == GenNow(fs) && Gens(fs') <= Gens(fs)
    ensures Gens(fs') == {1} ==> GenNow(fs') == 1
  {
    hide GenAt;
    assert GenNow(fs') in Gens(fs');
  }

  /** The start of main, with the store it ends with. */
  method StartUp(disk: Disk, ghost book: Book, ghost init: string, ghost c: Chronicle)
      returns (s: Status, store: StockStore, ghost book': Book, ghost c': Chronicle)
    requires Ours(disk.fs, book, init, c)
    modifies disk`fs
    ensures Ours(disk.fs, book', init, c') && store.Valid() && fresh(store.Repr())
    ensures GenAt(old(disk.fs), 0) <= GenAt(disk.fs, 0) && GenNow(disk.fs) <= BegunGen(old(disk.fs))
    ensures Boot(old(disk.fs)) ==> Boot(disk.fs)
    ensures Short(old(disk.fs)) ==> Short(disk.fs)
    ensures (book' == book && c' == c)
      || (book' == BegunBook(old(disk.fs), book, init) && c' == BegunRecord(old(disk.fs), c))
    ensures s == Ok ==> book' == BegunBook(old(disk.fs), book, init) && c' == BegunRecord(old(disk.fs), c)
    ensures s == Ok ==> GenNow(disk.fs) == BegunGen(old(disk.fs)) && GenNow(disk.fs) > 0
    ensures s == Ok ==> GenNow(disk.fs) in book' && store.Contents() == MapOf(book'[GenNow(disk.fs)])
    ensures disk.reliable && Short(old(disk.fs)) && Bootable(old(disk.fs).Now()) ==>
      LoadText(init, map[]).1 == Ok ==> s == Ok
  {
    hide LoadText, MapOf, Ascending, GenAt, Boot, Short, Bootable, Ours, Inv, Holds, InitLoad, Started, AllTold, Gens;
    hide Exposed, Risky, ValidTree;
    ghost var fs0 := disk.fs;
    OursParts(fs0, book, init, c);
    ToldNow(fs0, book, init, c);
    store := new StockStore();
    s, book' := RecoverStockStore(disk, store, book);
    InvWf(disk.fs, book');
    ListingOfRows(store.Listed());
    StartedOurs(fs0, book, c, disk.fs, book', init);
    c' := if book' == book && Gens(disk.fs) <= Gens(fs0) then c else BegunRecord(fs0, c);
    if s == Ok {
      StartedNow(fs0, disk.fs);
    }
  }

  /** What is booked and recorded when the process publishes over generation g: the store that its
      session made of the one booked for g. */
  ghost function NextBook(book: Book, g: nat, rs: seq<Request>): Book
    requires g in book
  {
    var m := MapOf(book[g]);
    book[g + 1 := Listing(ServeAll(m, Fitting(m, rs)))]
  }

  lemma AdvancedOurs(fs: Fs, book: Book, c: Chronicle, fs': Fs, init: string, rs: seq<Request>, s: Status)
    requires Ours(fs, book, init, c) && GenNow(fs) in book && GenNow(fs) > 0 && GenNow(fs) in c.lines
    requires Advanced(fs, fs', GenNow(fs) + 1) && Inv(fs', NextBook(book, GenNow(fs), rs))
    requires s == Ok ==> Gens(fs') == {GenNow(fs) + 1}
    ensures Ours(fs', NextBook(book, GenNow(fs), rs), init, Published(c, GenNow(fs), rs, s))
    ensures GenAt(fs, 0) <= GenAt(fs', 0) && GenNow(fs') <= GenNow(fs) + 1
    ensures (Boot(fs) ==> Boot(fs')) && (Short(fs) ==> Short(fs'))
  {
    hide LoadText, MapOf, GenOfText, GenAt, Boot, Short, Told, Listing, Inv, InitText, ServeAll, Fitting;
    OursParts(fs, book, init, c);
    ToldNow(fs, book, init, c);
    var g := GenNow(fs);
    GensGrow(fs, fs', book, g + 1);
    NextIsFree(fs, book, []);
    assert GenNow(fs') in Gens(fs');
    var rows := NextBook(book, g, rs)[g + 1];
    ToldPublished(init, book, c, g, rs, s, rows);
    forall h | h in Gens(fs') ensures Told(init, NextBook(book, g, rs), Published(c, g, rs, s), h) {
      if h != g + 1 {
        ToldNext(init, book, c, h, rs, s, true);
        var c' := Stopped(c, rs, s).(reached := c.reached + [true]);
        ToldElsewhere(init, book, c', h, g + 1, rows, c.lines[g] + [|c.sessions|]);
      }
    }
  }

  lemma StoppedOurs(fs: Fs, book: Book, c: Chronicle, init: string, rs: seq<Request>, s: Status)
    requires Ours(fs, book, init, c) && s != Ok
    ensures Ours(fs, book, init, Stopped(c, rs, s))
  {
    hide Told, Inv, Gens;
    InvWf(fs, book);
    forall g | g in Gens(fs) ensures Told(init, book, Stopped(c, rs, s), g) {
      ToldNext(init, book, c, g, rs, s, false);
    }
  }

  /** The end of main: the materialization of what the session made of the store found. */
  method PublishOnShutdown(disk: Disk, store: StockStore, rs: seq<Request>, ghost book: Book, ghost init: string,
                           ghost c: Chronicle)
      returns (s: Status)
    requires Ours(disk.fs, book, init, c) && 0 < GenNow(disk.fs) < LLONG_MAX && GenNow(disk.fs) in book
    requires GenNow(disk.fs) in c.lines && store.Valid() && GoodStore(store.Contents())
    requires var m := MapOf(book[GenNow(disk.fs)]); store.Contents() == ServeAll(m, Fitting(m, rs))
    modifies disk`fs
    ensures var g := GenNow(old(disk.fs)); Ours(disk.fs, NextBook(book, g, rs), init, Published(c, g, rs, s))
    ensures GenAt(old(disk.fs), 0) <= GenAt(disk.fs, 0) && GenNow(disk.fs) <= GenNow(old(disk.fs)) + 1
    ensures Boot(old(disk.fs)) ==> Boot(disk.fs)
    ensures Short(old(disk.fs)) ==> Short(disk.fs)
    ensures s == Ok ==> Gens(disk.fs) == {GenNow(old(disk.fs)) + 1}
    ensures disk.reliable ==> s == Ok
  {
    hide LoadText, MapOf, Ascending, GenAt, Boot, Short, Ours, Inv, Holds, AllTold, Gens, Advanced, ServeAll, Fitting;
    ghost var fs0 := disk.fs;
    OursParts(fs0, book, init, c);
    ListingOfRows(store.Listed());
    ghost var book': Book;
    s, book' := MaterializeStoreGeneration(disk, store, book);
    AdvancedOurs(fs0, book, c, disk.fs, init, rs, s);
  }

  /** What a process did, to the book and to the record: it stopped before its publication, with or
      without a first start; or it published what its session made of the store it found. */
  ghost predicate Did(fs: Fs, book: Book, init: string, c: Chronicle, rs: seq<Request>,
                      s: Status, book': Book, c': Chronicle)
    requires fs.Wf()
  {
    var begun, record, g := BegunBook(fs, book, init), BegunRecord(fs, c), BegunGen(fs);
    || (s != Ok && book' == book && c' == Stopped(c, rs, s))
    || (s != Ok && book' == begun && c' == Stopped(record, rs, s))
    || (g in begun && g in record.lines && book' == NextBook(begun, g, rs) && c' == Published(record, g, rs, s))
  }

  /** main: recover, serve the session, materialize; it may stop anywhere. `served` is the status that
      the server comes to return: the store is published exactly when the start and the server
      returned Ok. */
  method RunProcess(disk: Disk, rs: seq<Request>, served: Status, ghost book: Book, ghost init: string,
                    ghost c: Chronicle)
      returns (s: Status, started: Status, reached: bool, ghost book': Book, ghost c': Chronicle)
    requires Ours(disk.fs, book, init, c) && GenNow(disk.fs) + 1 < LLONG_MAX
    modifies disk`fs
    ensures Ours(disk.fs, book', init, c') && Did(old(disk.fs), book, init, c, rs, s, book', c')
    ensures c'.reached == c.reached + [reached] && (s == Ok ==> reached)
    ensures reached <==> started == Ok && served == Ok
    ensures !reached ==> s == if started != Ok then started else served
    ensures GenAt(old(disk.fs), 0) <= GenAt(disk.fs, 0) && GenNow(disk.fs) <= GenNow(old(disk.fs)) + 2
    ensures Boot(old(disk.fs)) ==> Boot(disk.fs)
    ensures Short(old(disk.fs)) ==> Short(disk.fs)
    ensures s == Ok ==> Gens(disk.fs) == {BegunGen(old(disk.fs)) + 1}
    ensures disk.reliable && Short(old(disk.fs)) && Bootable(old(disk.fs).Now()) ==>
      LoadText(init, map[]).1 == Ok ==> started == Ok && (served == Ok ==> s == Ok)
  {
    hide LoadText, MapOf, Ascending, GenAt, Boot, Short, Bootable, Ours, Inv, Holds, AllTold, Gens, ServeAll, Fitting;
    hide Listing;
    ghost var fs0 := disk.fs;
    OursParts(fs0, book, init, c);
    ToldNow(fs0, book, init, c);
    var store: StockStore;
    reached := false;
    started, store, book', c' := StartUp(disk, book, init, c);
    ghost var fs1 := disk.fs;
    if started != Ok || served != Ok {
      s := if started != Ok then started else served;
      StoppedOurs(fs1, book', c', init, rs, s);
      c' := Stopped(c', rs, s);
      return;
    }
    OursParts(fs1, book', init, c');
    ToldNow(fs1, book', init, c');
    ServeSession(store, rs);
    reached := true;
    s := PublishOnShutdown(disk, store, rs, book', init, c');
    book', c' := NextBook(book', GenNow(fs1), rs), Published(c', GenNow(fs1), rs, s);
  }

  // ---------- every history ----------

  lemma OneEntry(order: Order, fs: Fs, fs': Fs)
    requires CrashImage(order, fs, fs')
    ensures |fs'.trail| == 1
  {
  }

  lemma CrashOurs(order: Order, fs: Fs, fs': Fs, book: Book, init: string, c: Chronicle)
    requires Ours(fs, book, init, c) && CrashImage(order, fs, fs')
    ensures Ours(fs', book, init, c) && GenNow(fs') in Gens(fs)
    ensures GenAt(fs, 0) <= GenAt(fs', 0) && GenNow(fs') <= GenNow(fs)
    ensures order == Ordered && Boot(fs) ==> Boot(fs')
    ensures Short(fs) ==> Short(fs')
  {
    hide LoadText, MapOf, GenOfText, Sound, Boot, Apart, CrashImage, Told;
    CrashKeeps(order, fs, fs', book);
    OneEntry(order, fs, fs');
    assert GenAt(fs', 0) == GenNow(fs');
    forall g | g in Gens(fs') ensures g == GenNow(fs') { }
    var k :| 0 <= k < |fs.trail| && GenNow(fs') == GenAt(fs, k);
  }

  ghost predicate AllOk(statuses: seq<Status>) {
    forall i :: 0 <= i < |statuses| ==> statuses[i] == Ok
  }

  lemma DidRecords(fs: Fs, book: Book, init: string, c: Chronicle, rs: seq<Request>,
                   s: Status, book': Book, c': Chronicle)
    requires fs.Wf() && Did(fs, book, init, c, rs, s, book', c')
    ensures c'.sessions == c.sessions + [rs] && c'.statuses == c.statuses + [s]
  {
  }

  lemma GenHere(fs: Fs)
    requires fs.Wf()
    ensures GenNow(fs) in Gens(fs)
  {
    hide GenOfText;
  }

  lemma SettledGen(fs: Fs, book: Book, init: string, c: Chronicle, fs1: Fs)
    requires Ours(fs, book, init, c) && fs1.Wf() && GenNow(fs) in Gens(fs1)
    requires exists g: nat :: g > 0 && Gens(fs1) == {g}
    ensures Bootable(fs.Now()) && Gens(fs1) == {GenNow(fs)}
  {
    hide GenOfText;
    ToldNow(fs, book, init, c);
  }

  /** The directories before and after a power loss, or two equal ones. */
  ghost predicate After(order: Order, loss: bool, round: (Fs, Fs)) {
    if loss then CrashImage(order, round.0, round.1) else round.1 == round.0
  }

  /** One process, and perhaps a power loss. */
  method OneRound(disk: Disk, order: Order, faults: bool, rs: seq<Request>, served: Status, loss: bool,
                  ghost book: Book, ghost init: string, ghost c: Chronicle)
      returns (s: Status, reached: bool, ghost stopped: Fs, ghost book': Book, ghost c': Chronicle)
    requires Ours(disk.fs, book, init, c) && GenNow(disk.fs) + 2 < LLONG_MAX
    modifies disk
    ensures disk.fs.Wf() && Ours(disk.fs, book', init, c') && Ours(stopped, book', init, c')
    ensures After(order, loss, (stopped, disk.fs))
    ensures Did(old(disk.fs), book, init, c, rs, s, book', c')
    ensures c'.sessions == c.sessions + [rs] && c'.statuses == c.statuses + [s]
    ensures c'.reached == c.reached + [reached] && (reached ==> served == Ok)
    ensures GenAt(old(disk.fs), 0) <= GenAt(disk.fs, 0) && GenNow(disk.fs) <= GenNow(old(disk.fs)) + 2
    ensures order == Ordered && Boot(old(disk.fs)) ==> Boot(disk.fs)
    ensures Short(old(disk.fs)) ==> Short(disk.fs)
    ensures s == Ok ==> Bootable(disk.fs.Now()) && GenNow(disk.fs) == BegunGen(old(disk.fs)) + 1
    ensures !faults && served == Ok && Short(old(disk.fs)) && Bootable(old(disk.fs).Now()) ==>
      LoadText(init, map[]).1 == Ok ==> s == Ok
  {
    hide Ours, Inv, Gens, GenNow, GenAt, Holds, Boot, Short, Bootable, LoadText, CrashImage, AllTold, Did;
    var faultFree: bool := *;
    disk.reliable := faultFree || !faults;
    disk.unlinks := *;
    ghost var fs0 := disk.fs;
    OursParts(fs0, book, init, c);
    var started;
    s, started, reached, book', c' := RunProcess(disk, rs, served, book, init, c);
    DidRecords(fs0, book, init, c, rs, s, book', c');
    ghost var fs1 := disk.fs;
    stopped := fs1;
    OursParts(fs1, book', init, c');
    if loss {
      disk.PowerLoss(order);
      CrashOurs(order, fs1, disk.fs, book', init, c');
      OursParts(disk.fs, book', init, c');
    }
    if s == Ok {
      GenHere(fs1);
      SettledGen(disk.fs, book', init, c', fs1);
    }
  }

  /** Any number of processes, each with the requests of its clients and the status its server comes to
      return, each stopping anywhere, with or without a power loss after it (`rounds` has the
      directory before and after that). The record names them all, and at the end of every history
      every generation that any manifest names, durable or visible, is told by it; the durable
      generation has not decreased; and with ordered directory updates no directory is left that a
      bootstrap would refuse. Processes that meet no fault and whose server returns Ok succeed. */
  method AnyHistory(disk: Disk, order: Order, faults: bool, sessions: seq<seq<Request>>, served: seq<Status>,
                    losses: seq<bool>, ghost book: Book, ghost init: string, ghost c: Chronicle)
      returns (statuses: seq<Status>, reached: seq<bool>, ghost rounds: seq<(Fs, Fs)>, ghost book': Book,
               ghost c': Chronicle)
    requires Ours(disk.fs, book, init, c) && GenNow(disk.fs) + 2 * |sessions| < LLONG_MAX
    requires |served| == |losses| == |sessions|
    modifies disk
    ensures Ours(disk.fs, book', init, c')
    ensures |rounds| == |sessions| && disk.fs == if rounds == [] then old(disk.fs) else rounds[|rounds| - 1].1
    ensures forall i :: 0 <= i < |rounds| ==> After(order, losses[i], rounds[i])
    ensures c'.sessions == c.sessions + sessions && c'.statuses == c.statuses + statuses
    ensures c'.reached == c.reached + reached && |reached| == |sessions|
    ensures forall i :: 0 <= i < |reached| && reached[i] ==> served[i] == Ok
    ensures |statuses| == |sessions| && GenAt(old(disk.fs), 0) <= GenAt(disk.fs, 0)
    ensures order == Ordered && Boot(old(disk.fs)) ==> Boot(disk.fs)
    ensures Short(old(disk.fs)) ==> Short(disk.fs)
    ensures !faults && AllOk(served) && Short(old(disk.fs)) && Bootable(old(disk.fs).Now()) ==>
      LoadText(init, map[]).1 == Ok ==> AllOk(statuses) && Bootable(disk.fs.Now())
  {
    hide Ours, Inv, Gens, GenNow, GenAt, Holds, Boot, Short, Bootable, LoadText, CrashImage, AllTold, Did, After;
    book', c', statuses, reached, rounds := book, c, [], [], [];
    ghost var fs0 := disk.fs;
    OursParts(fs0, book, init, c);
    ghost var good := !faults && AllOk(served) && Short(fs0) && Bootable(fs0.Now()) && LoadText(init, map[]).1 == Ok;
    assert c.statuses + [] == c.statuses && c.sessions + sessions[..0] == c.sessions;
    assert c.reached + [] == c.reached;
    var round := 0;
    while round < |sessions|
      invariant 0 <= round <= |sessions| && disk.fs.Wf() && Ours(disk.fs, book', init, c')
      invariant c'.sessions == c.sessions + sessions[..round]
      invariant c'.statuses == c.statuses + statuses && |statuses| == round
      invariant c'.reached == c.reached + reached && |reached| == round
      invariant forall i :: 0 <= i < round && reached[i] ==> served[i] == Ok
      invariant |rounds| == round && disk.fs == if rounds == [] then fs0 else rounds[|rounds| - 1].1
      invariant forall i :: 0 <= i < round ==> After(order, losses[i], rounds[i])
      invariant GenAt(fs0, 0) <= GenAt(disk.fs, 0)
      invariant GenNow(disk.fs) + 2 * (|sessions| - round) < LLONG_MAX
      invariant order == Ordered && Boot(fs0) ==> Boot(disk.fs)
      invariant Short(fs0) ==> Short(disk.fs)
      invariant good ==> AllOk(statuses) && Bootable(disk.fs.Now())
    {
      var s, published;
      ghost var stopped: Fs;
      s, published, stopped, book', c' :=
        OneRound(disk, order, faults, sessions[round], served[round], losses[round], book', init, c');
      statuses, reached, rounds := statuses + [s], reached + [published], rounds + [(stopped, disk.fs)];
      assert sessions[..round] + [sessions[round]] == sessions[..round + 1];
      assert c.sessions + sessions[..round] + [sessions[round]] == c.sessions + sessions[..round + 1];
      assert c'.statuses == c.statuses + statuses && c'.reached == c.reached + reached;
      round := round + 1;
    }
    assert sessions[..round] == sessions;
  }

  // ---------- what a history leaves ----------

  /** End to end. After any history, what a fault-free recovery reads from an existing manifest is
      exactly what the requests of a line of sessions made of the init file's store, each session
      starting from what the one before it published; all of these requests, if none of their sells
      passes INT_MAX. No session whose process reported success is missing from the line, and all
      in it got as far as their publication. Each stock is the initial one plus the sells answered "success"
      minus the buys answered "success" in those sessions. */
  lemma ReadsBackAsServed(fs: Fs, book: Book, init: string, c: Chronicle) returns (line: seq<nat>)
    requires Ours(fs, book, init, c) && Manifest in fs.Now()
    ensures GenNow(fs) in c.lines && line == c.lines[GenNow(fs)]
    ensures Line(line, |c.sessions|) && Covers(c, line)
    ensures var start, all := LoadText(init, map[]).0, LineRequests(c.sessions, line);
      AllFit(start, all) ==> Played(start, c.sessions, line) == all
    ensures var start := LoadText(init, map[]).0; var log := Played(start, c.sessions, line); var m := ReadBack(fs).0;
      && ReadBack(fs) == (ServeAll(start, log), Ok) && AllFit(start, log)
      && GoodStore(m) && m.Keys == start.Keys
      && forall id :: id in start ==>
           m[id].price == start[id].price && m[id].stock == start[id].stock + NetSold(start, log, id)
  {
    hide LoadText, MapOf, GenOfText, Sound, Boot, Apart, ReadBack, GenNow, Inv;
    OursParts(fs, book, init, c);
    ToldNow(fs, book, init, c);
    SoundReadsBack(fs, book);
    line := c.lines[GenNow(fs)];
    var start := LoadText(init, map[]).0;
    var log := Played(start, c.sessions, line);
    PlayedFits(start, c.sessions, line);
    if AllFit(start, LineRequests(c.sessions, line)) { PlayedWhole(start, c.sessions, line); }
    ServeAllKeepsGood(start, log);
    forall id | id in start ensures ServeAll(start, log)[id].stock == start[id].stock + NetSold(start, log, id) {
      StockConserved(start, log, id);
    }
  }

  /** Success is durable: once a process has reported it, every crash, at any later time, leaves a
      manifest, and the store it reads back as has that process's session in its line. */
  lemma SuccessIsDurable(order: Order, fs: Fs, fs': Fs, book: Book, init: string, c: Chronicle, r: nat)
      returns (line: seq<nat>)
    requires Ours(fs, book, init, c) && CrashImage(order, fs, fs') && r < |c.statuses| && c.statuses[r] == Ok
    ensures Line(line, |c.sessions|) && r in line
    ensures fs'.Wf() && ReadBack(fs') == (StoreOf(init, c, line), Ok)
  {
    hide LoadText, MapOf, GenOfText, Boot, CrashImage, ReadBack, GenNow, Inv, AllTold, Gens;
    CrashOurs(order, fs, fs', book, init, c);
    OursParts(fs', book, init, c);
    ToldNow(fs', book, init, c);
    line := ReadsBackAsServed(fs', book, init, c);
  }

  // ---------- starting again ----------

  lemma BootNow(fs: Fs)
    requires fs.Wf() && Boot(fs)
    ensures Bootable(fs.Now())
  {
    hide IsArtifact;
    assert Bootable(fs.trail[|fs.trail| - 1]);
  }

  /** m is the store that the line of generation g made, and no successful session is missing. */
  ghost predicate MadeByLine(init: string, c: Chronicle, g: nat, m: Holdings) {
    && g in c.lines && Line(c.lines[g], |c.sessions|) && Covers(c, c.lines[g])
    && m == StoreOf(init, c, c.lines[g])
  }

  /** A start without faults on a directory that histories leave: with a manifest it ends with the
      store its generation's line made; without one, with exactly the init file's store. */
  method NextStart(disk: Disk, ghost book: Book, ghost init: string, ghost c: Chronicle)
      returns (s: Status, store: StockStore)
    requires Ours(disk.fs, book, init, c) && Bootable(disk.fs.Now()) && Short(disk.fs)
    requires LoadText(init, map[]).1 == Ok
    modifies disk
    ensures s == Ok && store.Valid()
    ensures Manifest in old(disk.fs).Now() ==> MadeByLine(init, c, GenNow(old(disk.fs)), store.Contents())
    ensures Manifest !in old(disk.fs).Now() ==> store.Contents() == LoadText(init, map[]).0 && Covers(c, [])
  {
    hide LoadText, MapOf, Ascending, GenAt, Boot, Short, Bootable, Ours, Inv, Holds, InitLoad, Started, AllTold, Gens;
    hide ReadBack;
    ghost var fs0 := disk.fs;
    OursParts(fs0, book, init, c);
    ToldNow(fs0, book, init, c);
    disk.reliable := true;
    store := new StockStore();
    ghost var book': Book;
    s, book' := RecoverStockStore(disk, store, book);
  }

  /** Bootstrap re-entry. With ordered directory updates, however many processes were interrupted and
      wherever, the next start without faults succeeds; with exactly the init file's store if the
      directory found has no manifest. */
  method NextStartSucceeds(disk: Disk, sessions: seq<seq<Request>>, served: seq<Status>, losses: seq<bool>,
                           ghost book: Book, ghost init: string, ghost c: Chronicle)
      returns (statuses: seq<Status>, found: Fs, s: Status, store: StockStore, ghost c': Chronicle)
    requires Ours(disk.fs, book, init, c) && Boot(disk.fs) && Short(disk.fs)
    requires GenNow(disk.fs) + 2 * |sessions| < LLONG_MAX && LoadText(init, map[]).1 == Ok
    requires |served| == |losses| == |sessions|
    modifies disk
    ensures c'.sessions == c.sessions + sessions && c'.statuses == c.statuses + statuses
    ensures found.Wf() && s == Ok && store.Valid()
    ensures Manifest in found.Now() ==> MadeByLine(init, c', GenNow(found), store.Contents())
    ensures Manifest !in found.Now() ==> store.Contents() == LoadText(init, map[]).0 && Covers(c', [])
  {
    hide LoadText, GenNow, Boot, Short, Bootable, Ours, Gens, Told;
    ghost var book': Book;
    var reached;
    ghost var rounds: seq<(Fs, Fs)>;
    statuses, reached, rounds, book', c' :=
      AnyHistory(disk, Ordered, true, sessions, served, losses, book, init, c);
    found := disk.fs;
    OursParts(found, book', init, c');
    BootNow(found);
    s, store := NextStart(disk, book', init, c');
  }

  lemma FullyCovered(c: Chronicle, line: seq<nat>)
    requires Line(line, |c.sessions|) && Covers(c, line) && AllOk(c.statuses) && |c.statuses| == |c.sessions|
    ensures line == Upto(|c.sessions|)
  {
    FullLine(line, |c.sessions|);
  }

  lemma PlayedNone(start: Holdings, sessions: seq<seq<Request>>)
    ensures Line([], |sessions|) && ServeAll(start, Played(start, sessions, [])) == start
  {
  }

  /** Any run of clean sessions, through the real calls: a first directory; for each session a start,
      the requests, a publication and perhaps a power loss; then one more start. The store it ends
      with is the init file's after all the requests, as if one session had served them, and each
      stock is the initial one plus the successful sells minus the successful buys. */
  method CleanSessions(disk: Disk, order: Order, sessions: seq<seq<Request>>, losses: seq<bool>, ghost init: string)
      returns (s: Status, store: StockStore)
    requires disk.fs == FirstDirectory(init) && LoadText(init, map[]).1 == Ok && 2 * |sessions| < LLONG_MAX
    requires AllFit(LoadText(init, map[]).0, Flat(sessions)) && |losses| == |sessions|
    modifies disk
    ensures s == Ok && store.Valid()
    ensures store.Contents() == ServeAll(LoadText(init, map[]).0, Flat(sessions))
    ensures var start := LoadText(init, map[]).0; forall id :: id in start ==>
      id in store.Contents() && store.Contents()[id].stock == start[id].stock + NetSold(start, Flat(sessions), id)
  {
    hide LoadText, GenNow, Boot, Short, Bootable, Ours, Gens, Told, MapOf, ServeAll, AllFit, Flat, Played;
    ghost var c := Chronicle([], [], [], map[]);
    FirstDirectoryIsOurs(init);
    BootNow(disk.fs);
    var statuses, reached;
    ghost var book: Book;
    var served: seq<Status> := seq(|sessions|, i => Ok);
    ghost var rounds: seq<(Fs, Fs)>;
    statuses, reached, rounds, book, c := AnyHistory(disk, order, false, sessions, served, losses, map[], init, c);
    assert c.sessions == sessions && c.statuses == statuses;
    OursParts(disk.fs, book, init, c);
    ghost var found := disk.fs;
    s, store := NextStart(disk, book, init, c);
    ghost var start := LoadText(init, map[]).0;
    ghost var line := if Manifest in found.Now() then c.lines[GenNow(found)] else [];
    FullyCovered(c, line);
    PlayedAll(start, sessions);
    PlayedNone(start, sessions);
    ghost var m := store.Contents();
    forall id | id in start
      ensures id in m && m[id].stock == start[id].stock + NetSold(start, Flat(sessions), id)
    {
      StockConserved(start, Flat(sessions), id);
    }
  }

  // ---------- one publication and a crash ----------

  lemma GenPositive(fs: Fs)
    requires fs.Wf()
    ensures GenNow(fs) > 0 ==> Manifest in fs.Now()
  {
    hide GenOfText;
  }

  /** Each point since the last directory fsync can be what a crash leaves, in either order. */
  lemma AnyPointSurvives(order: Order, fs: Fs, book: Book, k: nat) returns (fs': Fs)
    requires Inv(fs, book) && k < |fs.trail|
    ensures CrashImage(order, fs, fs') && fs'.Wf() && GenNow(fs') == GenAt(fs, k)
    ensures GenAt(fs, k) > 0 ==> GenAt(fs, k) in book && ReadBack(fs') == (MapOf(book[GenAt(fs, k)]), Ok)
  {
    hide GenOfText, MapOf, ReadBack, Apart;
    var d := fs.trail[k];
    fs' := Fs(seq(|fs.inodes|, x requires 0 <= x < |fs.inodes| => Inode(fs.inodes[x].data, true)), [d]);
    assert forall n :: Lookup(d, n) == Lookup(fs.trail[k], n);
    assert CrashImage(order, fs, fs');
    assert GenNow(fs') == GenAt(fs, k);
    CrashKeeps(order, fs, fs', book);
    if GenAt(fs, k) > 0 {
      GenPositive(fs');
      SoundReadsBack(fs', book);
    }
  }

  ghost predicate SameGen(fs: Fs, fs': Fs) { fs.Wf() && fs'.Wf() && GenNow(fs') == GenNow(fs) }

  /** After a successful publication nothing can be lost: whatever crash follows, the directory reads
      back as exactly the published store. */
  lemma PublishedSurvives(order: Order, fs: Fs, fs': Fs, book: Book)
    requires Inv(fs, book) && GenNow(fs) > 0 && Gens(fs) == {GenNow(fs)}
    requires CrashImage(order, fs, fs')
    ensures fs'.Wf() && GenNow(fs) in book && ReadBack(fs') == (MapOf(book[GenNow(fs)]), Ok)
  {
    hide GenAt, MapOf, Apart, Sound, CrashImage, ReadBack;
    CrashKeeps(order, fs, fs', book);
    GenPositive(fs');
    SoundReadsBack(fs', book);
  }

  /** Exactly when the visible generation is safe from every crash: when no other generation was the
      visible one since the last directory fsync. */
  lemma GenerationSafeExactly(order: Order, fs: Fs, book: Book)
    requires Inv(fs, book)
    ensures (forall fs' :: CrashImage(order, fs, fs') ==> SameGen(fs, fs')) <==> Gens(fs) == {GenNow(fs)}
  {
    hide GenAt, CrashImage, Apart, Sound;
    GenHere(fs);
    if Gens(fs) == {GenNow(fs)} {
      forall fs' | CrashImage(order, fs, fs') ensures SameGen(fs, fs') { CrashKeeps(order, fs, fs', book); }
    } else {
      var g :| g in Gens(fs) && g != GenNow(fs);
      var k :| 0 <= k < |fs.trail| && g == GenAt(fs, k);
      var fs' := AnyPointSurvives(order, fs, book, k);
      assert CrashImage(order, fs, fs') && !SameGen(fs, fs');
    }
  }

  /** Such a directory: a publication renamed its manifest, and the directory fsync after that failed
      or was not reached. A start that is not preceded by a power loss recovers the new generation
      and serves it; a power loss after that brings the old one back. */
  lemma RenamedIsNotSafe(order: Order, fs: Fs, book: Book, g: nat) returns (fs': Fs)
    requires Inv(fs, book) && ManifestTmp in fs.Now() && 1 <= GenNow(fs) < g <= LLONG_MAX
    requires fs.inodes[fs.Now()[ManifestTmp]] == Inode(ManifestText(g), true)
    requires g in book && Complete(fs, g, book[g])
    ensures var renamed := Renamed(fs, ManifestTmp, Manifest);
      && Inv(renamed, book) && GenNow(renamed) == g && ReadBack(renamed) == (MapOf(book[g]), Ok)
      && CrashImage(order, renamed, fs') && fs'.Wf()
      && GenNow(fs) in book && ReadBack(fs') == (MapOf(book[GenNow(fs)]), Ok)
  {
    hide GenOfText, MapOf, ReadBack, Apart, Complete, ManifestText, CrashImage, Sound;
    RenameKeeps(fs, book, g);
    var renamed := Renamed(fs, ManifestTmp, Manifest);
    SoundReadsBack(renamed, book);
    RenameTrail(fs, |fs.trail| - 1);
    fs' := AnyPointSurvives(order, renamed, book, |fs.trail| - 1);
  }

  /** There is such a directory: generation 1 is published, the files of generation 2 are durable, and
      its temporary manifest is written and synced. */
  function SecondFiles(init: string, before: seq<Row>, after: seq<Row>): Fs {
    Fs([Inode(init, true), Inode(ManifestText(1), true), Inode(RowsText(before), true), Inode("", true),
        Inode(RowsText(after), true), Inode("", true)],
       [map[InitFile := 0, Manifest := 1, GenName(Snapshot, 1) := 2, GenName(Aof, 1) := 3,
            GenName(Snapshot, 2) := 4, GenName(Aof, 2) := 5]])
  }

  lemma SixEntries(a: Name, b: Name, c: Name, d: Name, e: Name, f: Name)
    requires a != b && a != c && a != d && a != e && a != f && b != c && b != d && b != e && b != f
    requires c != d && c != e && c != f && d != e && d != f && e != f
    ensures Injective(map[a := 0, b := 1, c := 2, d := 3, e := 4, f := 5])
  {
  }

  lemma FourNames()
    ensures var s1, a1, s2, a2 := GenName(Snapshot, 1), GenName(Aof, 1), GenName(Snapshot, 2), GenName(Aof, 2);
      && s1.GenFile? && a1.GenFile? && s2.GenFile? && a2.GenFile?
      && s1 != a1 && s1 != s2 && s1 != a2 && a1 != s2 && a1 != a2 && s2 != a2
  {
    SuffixInvertsRender(Snapshot, 1);
    SuffixInvertsRender(Snapshot, 2);
    SuffixInvertsRender(Aof, 1);
    SuffixInvertsRender(Aof, 2);
  }

  lemma SecondFilesAreSound(init: string, before: seq<Row>, after: seq<Row>)
    requires Ascending(before) && GoodRows(before) && Ascending(after) && GoodRows(after)
    ensures var fs := SecondFiles(init, before, after);
      && fs.Wf() && Inv(fs, map[1 := before, 2 := after]) && Complete(fs, 2, after) && GenNow(fs) == 1
      && ManifestTmp !in fs.Now() && |fs.trail| == 1
  {
    hide ManifestGeneration, ManifestText, RowsText, Ascending, GoodRows, Apart, Injective, GenName;
    FourNames();
    ManifestRoundTrip(1);
    SixEntries(InitFile, Manifest, GenName(Snapshot, 1), GenName(Aof, 1), GenName(Snapshot, 2), GenName(Aof, 2));
    OneEntryApart(SecondFiles(init, before, after));
  }

  /** Published, it is a manifest that a crash takes back. */
  lemma SecondPublicationIsNotSafe(order: Order, init: string, before: seq<Row>, after: seq<Row>) returns (fs': Fs)
    requires Ascending(before) && GoodRows(before) && Ascending(after) && GoodRows(after)
    ensures SecondFiles(init, before, after).Wf()
    ensures var renamed := Renamed(TmpWritten(SecondFiles(init, before, after), 2), ManifestTmp, Manifest);
      && Inv(renamed, map[1 := before, 2 := after]) && ReadBack(renamed) == (MapOf(after), Ok)
      && CrashImage(order, renamed, fs') && fs'.Wf() && ReadBack(fs') == (MapOf(before), Ok)
  {
    hide ManifestText, MapOf, ReadBack, CrashImage, GenNow, GenAt, Complete, Calm, TmpWritten, SecondFiles, Inv;
    SecondFilesAreSound(init, before, after);
    var files, book := SecondFiles(init, before, after), map[1 := before, 2 := after];
    TmpWrittenKeeps(files, book, 2);
    var fs := TmpWritten(files, 2);
    CompleteStays(files, fs, 2, after);
    CalmGen(files, fs, {ManifestTmp});
    fs' := RenamedIsNotSafe(order, fs, book, 2);
  }

  lemma AdvancedParts(fs: Fs, fs': Fs, g: nat)
    requires Advanced(fs, fs', g)
    ensures fs.Wf() && fs'.Wf() && Gens(fs') <= Gens(fs) + {g}
    ensures InitText(fs') == InitText(fs)
    ensures Short(fs) ==> Short(fs')
    ensures Boot(fs) && Guarded(fs) ==> Boot(fs')
    ensures forall text :: Holds(fs, InitFile, text) ==> Holds(fs', InitFile, text)
  {
    hide Gens, GenNow, Short, Boot;
  }

  /** m was booked for a generation that a manifest named since the last directory fsync. */
  ghost predicate WasNamed(fs: Fs, book: Book, m: Holdings)
    requires fs.Wf()
  {
    exists h :: h in Gens(fs) && h > 0 && h in book && m == MapOf(book[h])
  }

  lemma CrashedParts(fs: Fs, fs1: Fs, fs': Fs, book: Book, book': Book, g: nat)
    requires Inv(fs, book) && fs1.Wf() && Gens(fs1) <= Gens(fs) + {g} && g > 0
    requires Inv(fs', book') && GenNow(fs') in Gens(fs1) && g in book' && book' == book[g := book'[g]]
    ensures Manifest in fs'.Now() ==> GenNow(fs') in book'
    ensures Manifest in fs'.Now() ==> GenNow(fs') == g || WasNamed(fs, book, MapOf(book'[GenNow(fs')]))
    ensures Manifest !in fs'.Now() ==> 0 in Gens(fs)
    ensures Gens(fs1) == {g} ==> GenNow(fs') == g && Manifest in fs'.Now()
  {
    hide GenOfText, MapOf, Apart;
    assert Sound(fs', book', |fs'.trail| - 1);
    GenPositive(fs');
    var h := GenNow(fs');
    if h != g && h > 0 {
      var k :| 0 <= k < |fs.trail| && GenAt(fs, k) == h;
      assert Sound(fs, book, k);
      if h in book { assert h in Gens(fs) && MapOf(book'[h]) == MapOf(book[h]); }
    }
  }

  lemma InvParts(fs: Fs, book: Book)
    requires Inv(fs, book)
    ensures fs.Wf() && forall k :: 0 <= k < |fs.trail| ==> Injective(fs.trail[k])
  {
  }

  /** Publish over any sound directory, with any fault at any step; lose power; start again without
      faults. If a manifest is left, recovery succeeds with the new store or with one that a
      manifest named since the last directory fsync before (the old one, if that was synced); the
      new one if the publication had succeeded. No manifest is left only if there was none at some
      point since then; that start succeeds too if the bootstrap was guarded, with the init file's
      store. */
  method PublishCrashRecover(disk: Disk, order: Order, store: StockStore, ghost book: Book, ghost init: string)
      returns (published: Status, s: Status, recovered: StockStore, found: Fs)
    requires Inv(disk.fs, book) && GenNow(disk.fs) < LLONG_MAX
    requires store.Valid() && GoodStore(store.Contents())
    modifies disk
    ensures found.Wf() && recovered.Valid()
    ensures published == Ok ==> s == Ok && recovered.Contents() == old(store.Contents())
    ensures Manifest in found.Now() ==> s == Ok
    ensures Manifest in found.Now() ==>
      recovered.Contents() == old(store.Contents()) || WasNamed(old(disk.fs), book, recovered.Contents())
    ensures Manifest !in found.Now() ==> 0 in Gens(old(disk.fs))
    ensures Holds(old(disk.fs), InitFile, init) ==>
      Manifest !in found.Now() && s == Ok ==> recovered.Contents() == LoadText(init, map[]).0
    ensures order == Ordered && Boot(old(disk.fs)) && Guarded(old(disk.fs)) && Short(old(disk.fs)) ==>
      Holds(old(disk.fs), InitFile, init) && LoadText(init, map[]).1 == Ok ==> s == Ok
  {
    hide Inv, Gens, GenNow, GenAt, Holds, Boot, Short, Bootable, Advanced, Started, CrashImage;
    hide MapOf, Ascending, LoadText, ReadBack, InitLoad, Guarded;
    ghost var fs0 := disk.fs;
    InvParts(fs0, book);
    ghost var g := GenNow(fs0);
    ghost var book1: Book;
    published, book1 := MaterializeStoreGeneration(disk, store, book);
    ghost var fs1 := disk.fs;
    AdvancedParts(fs0, fs1, g + 1);
    InvParts(fs1, book1);
    disk.PowerLoss(order);
    found := disk.fs;
    CrashKeeps(order, fs1, found, book1);
    InvParts(found, book1);
    CrashedParts(fs0, fs1, found, book, book1, g + 1);
    if Holds(found, InitFile, init) { HeldIsThere(found, InitFile, init); }
    if Boot(found) { BootNow(found); }
    disk.reliable := true;
    recovered := new StockStore();
    ghost var book2: Book;
    s, book2 := RecoverStockStore(disk, recovered, book1);
  }
}
