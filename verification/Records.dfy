/** The three text files: stock images, append-only logs and the manifest. The functions here say
    what one whole file means; the loading loops in Loader are proved against them. */
module Records {
  import opened Text
  import opened Stock

  datatype Parsed<+T> = Skip | Bad | Found(value: T)

  /** fgets with a MAXLINE buffer. */
  const LINE_ROOM: nat := MAXLINE - 1

  // ---------- line parsers ----------

  function ParseRow(line: string): Parsed<Row> {
    var s := CStr(line);
    if Blank(s) then Skip else
      match ScanInt(s)
      case None => Bad
      case Some((id, s1)) =>
        match ScanInt(s1)
        case None => Bad
        case Some((stock, s2)) =>
          match ScanInt(s2)
          case None => Bad
          case Some((price, s3)) =>
            if SkipSpace(s3) == "" && InInt(id) && InInt(stock) && InInt(price)
            then Found(Row(id, stock, price)) else Bad
  }

  function WordLength(s: string, limit: nat): (k: nat)
    ensures k <= |s|
  {
    if s == "" || limit == 0 || IsSpace(s[0]) then 0 else 1 + WordLength(s[1..], limit - 1)
  }

  /** The conversion " %15s". */
  function ScanWord(s: string): Option<(string, string)> {
    var t := SkipSpace(s);
    if t == "" then None else
      var k := WordLength(t, 15);
      Some((t[..k], t[k..]))
  }

  datatype LogOp = LogBuy | LogSell

  datatype LogRecord = LogRecord(op: LogOp, id: int, count: int)

  function ParseLog(line: string): Parsed<LogRecord> {
    var s := CStr(line);
    if Blank(s) then Skip else
      match ScanWord(s)
      case None => Bad
      case Some((op, s1)) =>
        match ScanInt(s1)
        case None => Bad
        case Some((id, s2)) =>
          match ScanInt(s2)
          case None => Bad
          case Some((count, s3)) =>
            if !(SkipSpace(s3) == "" && InInt(id) && InInt(count)) then Bad
            else if op == "BUY" then Found(LogRecord(LogBuy, id, count))
            else if op == "SELL" then Found(LogRecord(LogSell, id, count))
            else Bad
  }

  function ParseManifest(line: string): Parsed<int> {
    var s := CStr(line);
    if Blank(s) then Skip else
      match ScanWord(s)
      case None => Bad
      case Some((key, s1)) =>
        match ScanInt(s1)
        case None => Bad
        case Some((gen, s2)) =>
          if SkipSpace(s2) == "" && key == "gen" && 0 < gen <= LLONG_MAX then Found(gen) else Bad
  }

  // ---------- whole files ----------

  /** apply_stock_record on the map. */
  function ApplyRow(m: Holdings, r: Row): (Holdings, Status) {
    if r.id <= 0 || r.stock < 0 || r.price < 0 || r.id in m then (m, Invalid)
    else (m[r.id := r.Payload()], Ok)
  }

  function LoadPieces(ps: seq<string>, m: Holdings): (Holdings, Status) {
    if ps == [] then (m, Ok) else
      match ParseRow(ps[0])
      case Skip => LoadPieces(ps[1..], m)
      case Bad => (m, Invalid)
      case Found(r) =>
        var (m', s) := ApplyRow(m, r);
        if s != Ok then (m', s) else LoadPieces(ps[1..], m')
  }

  function LoadText(text: string, m: Holdings): (Holdings, Status) {
    LoadPieces(Pieces(text, LINE_ROOM), m)
  }

  function LogDelta(r: LogRecord): int { if r.op == LogBuy then -r.count else r.count }

  /** apply_aof_record on the map. */
  function ApplyLog(m: Holdings, r: LogRecord): (Holdings, Status) {
    if r.id <= 0 || r.count <= 0 then (m, Invalid) else ApplyDelta(m, r.id, LogDelta(r))
  }

  function ReplayPieces(ps: seq<string>, m: Holdings): (Holdings, Status) {
    if ps == [] then (m, Ok) else
      match ParseLog(ps[0])
      case Skip => ReplayPieces(ps[1..], m)
      case Bad => (m, Invalid)
      case Found(r) =>
        var (m', s) := ApplyLog(m, r);
        if s != Ok then (m', s) else ReplayPieces(ps[1..], m')
  }

  function ReplayText(text: string, m: Holdings): (Holdings, Status) {
    ReplayPieces(Pieces(text, LINE_ROOM), m)
  }

  function ManifestPieces(ps: seq<string>, seen: Option<int>): (Status, int) {
    if ps == [] then (if seen.Some? then (Ok, seen.value) else (Invalid, 0)) else
      match ParseManifest(ps[0])
      case Skip => ManifestPieces(ps[1..], seen)
      case Bad => (Invalid, 0)
      case Found(g) => if seen.Some? then (Invalid, 0) else ManifestPieces(ps[1..], Some(g))
  }

  /** read_manifest_generation on the text of an existing manifest. */
  function ManifestGeneration(text: string): (Status, int) {
    ManifestPieces(Pieces(text, LINE_ROOM), None)
  }

  // ---------- printing inverts parsing: rows ----------

  function ManifestText(g: nat): string { "gen " + Dec(g) + "\n" }

  /** Text that can stand inside a line: no newline and no NUL. */
  predicate Plain(s: string) { '\n' !in s && '\0' !in s }

  lemma PlainInt(n: int)
    ensures Plain(IntText(n))
  {
    assert forall i :: 0 <= i < |IntText(n)| ==> IsDigit(IntText(n)[i]) || IntText(n)[i] == '-';
  }

  lemma LineOfPlain(body: string)
    requires Plain(body) && |body| < LINE_ROOM
    ensures LineWithin(body + "\n", LINE_ROOM) && CStr(body + "\n") == body + "\n"
  {
    var l := body + "\n";
    assert forall i :: 0 <= i < |body| ==> l[i] in body;
  }

  lemma LineOfFields(a: string, b: string, c: string)
    requires Plain(a) && Plain(b) && Plain(c)
    requires |a| <= 11 && |b| <= 11 && |c| <= 11
    ensures var l := a + " " + b + " " + c + "\n"; LineWithin(l, LINE_ROOM) && CStr(l) == l
  {
    LineOfPlain(a + " " + b + " " + c);
  }

  function PriceField(r: Row): string { " " + IntText(r.price) + "\n" }

  function StockField(r: Row): string { " " + IntText(r.stock) + PriceField(r) }

  lemma Fields(a: string, b: string, c: string)
    ensures a + " " + b + " " + c + "\n" == a + (" " + b + (" " + c + "\n"))
  {
  }

  lemma RowLine(r: Row)
    requires InInt(r.id) && InInt(r.stock) && InInt(r.price)
    ensures LineWithin(RowText(r), LINE_ROOM) && CStr(RowText(r)) == RowText(r)
  {
    IntTextLength(r.id);
    IntTextLength(r.stock);
    IntTextLength(r.price);
    PlainInt(r.id);
    PlainInt(r.stock);
    PlainInt(r.price);
    LineOfFields(IntText(r.id), IntText(r.stock), IntText(r.price));
  }

  lemma ParseRowBy(s: string, r: Row, s1: string, s2: string, s3: string)
    requires CStr(s) == s && s != "" && !IsSpace(s[0])
    requires ScanInt(s) == Some((r.id, s1)) && ScanInt(s1) == Some((r.stock, s2))
    requires ScanInt(s2) == Some((r.price, s3)) && SkipSpace(s3) == ""
    requires InInt(r.id) && InInt(r.stock) && InInt(r.price)
    ensures ParseRow(s) == Found(r)
  {
  }

  lemma ScanRowId(r: Row)
    ensures ScanInt(RowText(r)) == Some((r.id, StockField(r)))
    ensures RowText(r) != "" && !IsSpace(RowText(r)[0])
  {
    Fields(IntText(r.id), IntText(r.stock), IntText(r.price));
    var text := "" + IntText(r.id) + StockField(r);
    assert text == RowText(r);
    ScanPrinted("", r.id, StockField(r));
    assert RowText(r)[0] == IntText(r.id)[0];
  }

  lemma ScanRowStock(r: Row)
    ensures ScanInt(StockField(r)) == Some((r.stock, PriceField(r)))
  {
    ScanPrinted(" ", r.stock, PriceField(r));
  }

  lemma ScanRowPrice(r: Row)
    ensures ScanInt(PriceField(r)) == Some((r.price, "\n"))
  {
    ScanPrinted(" ", r.price, "\n");
  }

  lemma NewlineIsBlank()
    ensures SkipSpace("\n") == ""
  {
    var nl := "\n";
    assert nl[1..] == "";
  }

  lemma ParseRowInvertsPrint(r: Row)
    requires InInt(r.id) && InInt(r.stock) && InInt(r.price)
    ensures ParseRow(RowText(r)) == Found(r)
  {
    RowLine(r);
    ScanRowId(r);
    ScanRowStock(r);
    ScanRowPrice(r);
    NewlineIsBlank();
    ParseRowBy(RowText(r), r, StockField(r), PriceField(r), "\n");
  }

  function RowLines(rows: seq<Row>): seq<string> {
    if rows == [] then [] else [RowText(rows[0])] + RowLines(rows[1..])
  }

  /** Rows that %d can print and read. */
  ghost predicate Printable(rows: seq<Row>) {
    forall i :: 0 <= i < |rows| ==> InInt(rows[i].id) && InInt(rows[i].stock) && InInt(rows[i].price)
  }

  lemma {:induction false} RowLinesShape(rows: seq<Row>)
    requires Printable(rows)
    ensures forall l :: l in RowLines(rows) ==> LineWithin(l, LINE_ROOM)
    ensures Concat(RowLines(rows)) == RowsText(rows)
  {
    if rows != [] {
      var head, tail := RowText(rows[0]), RowLines(rows[1..]);
      RowLine(rows[0]);
      RowLinesShape(rows[1..]);
      assert ([head] + tail)[1..] == tail;
    }
  }

  lemma {:induction false} RowsTextPieces(rows: seq<Row>)
    requires Printable(rows)
    ensures Pieces(RowsText(rows), LINE_ROOM) == RowLines(rows)
  {
    RowLinesShape(rows);
    PiecesOfLines(RowLines(rows), LINE_ROOM);
  }

  lemma LoadStep(line: string, rest: seq<string>, m: Holdings, r: Row)
    requires ParseRow(line) == Found(r)
    ensures LoadPieces([line] + rest, m) ==
      if ApplyRow(m, r).1 == Ok then LoadPieces(rest, ApplyRow(m, r).0) else ApplyRow(m, r)
  {
    assert ([line] + rest)[1..] == rest;
  }

  /** What the source accepts of a stock image: positive ids, none of them twice, and no negative stock
      or price. */
  ghost predicate Accepted(rows: seq<Row>) {
    && (forall i :: 0 <= i < |rows| ==> rows[i].id > 0 && rows[i].stock >= 0 && rows[i].price >= 0)
    && (forall i, j :: 0 <= i < j < |rows| ==> rows[i].id != rows[j].id)
  }

  lemma OneMoreAccepted(rows: seq<Row>, i: nat)
    requires i < |rows| && Accepted(rows[..i])
    ensures ApplyRow(MapOf(rows[..i]), rows[i]).1 ==
      if Accepted(rows[..i + 1]) then Ok else Invalid
    ensures Accepted(rows[..i + 1]) ==> ApplyRow(MapOf(rows[..i]), rows[i]).0 == MapOf(rows[..i + 1])
    ensures Accepted(rows) ==> Accepted(rows[..i + 1])
  {
    var done, more := rows[..i], rows[..i + 1];
    MapOfKeys(done);
    assert more == done + [rows[i]];
    MapOfAppend(done, rows[i]);
    hide MapOf;
    if rows[i].id in MapOf(done) {
      var k :| 0 <= k < |done| && done[k].id == rows[i].id;
      assert more[k].id == more[i].id;
    } else {
      forall a, b | 0 <= a < b < |more| ensures more[a].id != more[b].id {
        if b == i { assert done[a].id in MapOf(done); } else { assert done[a].id != done[b].id; }
      }
    }
  }

  lemma {:induction false} LoadRemaining(rows: seq<Row>, i: nat)
    requires Printable(rows) && i <= |rows| && Accepted(rows[..i])
    ensures Accepted(rows) ==> LoadPieces(RowLines(rows[i..]), MapOf(rows[..i])) == (MapOf(rows), Ok)
    ensures !Accepted(rows) ==> LoadPieces(RowLines(rows[i..]), MapOf(rows[..i])).1 == Invalid
    decreases |rows| - i
  {
    hide ApplyRow, MapOf, ParseRow;
    if i == |rows| {
      assert rows[..i] == rows;
    } else {
      var done, r := rows[..i], rows[i];
      OneMoreAccepted(rows, i);
      ParseRowInvertsPrint(r);
      LoadStep(RowText(r), RowLines(rows[i + 1..]), MapOf(done), r);
      assert rows[i..][0] == r && rows[i..][1..] == rows[i + 1..];
      if Accepted(rows[..i + 1]) { LoadRemaining(rows, i + 1); }
    }
  }

  /** Loading the printed lines of any rows, in any order, into an empty store: it succeeds, with the
      map of the rows, exactly when the source accepts them. */
  lemma LoadAnyOrder(rows: seq<Row>)
    requires Printable(rows)
    ensures Accepted(rows) ==> LoadText(RowsText(rows), map[]) == (MapOf(rows), Ok)
    ensures !Accepted(rows) ==> LoadText(RowsText(rows), map[]).1 == Invalid
  {
    RowsTextPieces(rows);
    assert rows[..0] == [] && rows[0..] == rows;
    LoadRemaining(rows, 0);
  }

  /** Loading a printed listing into an empty store gives back the listing's map. */
  lemma LoadInvertsPrint(rows: seq<Row>)
    requires Ascending(rows) && GoodRows(rows)
    ensures LoadText(RowsText(rows), map[]) == (MapOf(rows), Ok)
  {
    forall i | 0 <= i < |rows| ensures rows[i].Good() { }
    LoadAnyOrder(rows);
  }

  lemma ApplyRowFails(m: Holdings, r: Row)
    ensures ApplyRow(m, r).1 != Ok ==> ApplyRow(m, r).0 == m
  {
  }

  /** A load that fails stopped at one line: the lines before it all load, their effect is exactly the
      store that is left, and that line alone fails there with the same status. */
  lemma {:induction false} LoadStopsAtFirstBad(ps: seq<string>, m: Holdings) returns (k: nat)
    requires LoadPieces(ps, m).1 != Ok
    ensures k < |ps|
    ensures LoadPieces(ps[..k], m) == (LoadPieces(ps, m).0, Ok)
    ensures LoadPieces([ps[k]], LoadPieces(ps, m).0) == LoadPieces(ps, m)
  {
    hide ParseRow, ApplyRow;
    var first := ParseRow(ps[0]);
    if first.Bad? || (first.Found? && ApplyRow(m, first.value).1 != Ok) {
      if first.Found? { ApplyRowFails(m, first.value); }
      k := 0;
    } else {
      var m' := if first.Skip? then m else ApplyRow(m, first.value).0;
      var j := LoadStopsAtFirstBad(ps[1..], m');
      k := j + 1;
      assert ps[..k][1..] == ps[1..][..j];
    }
  }

  /** What a load accepts is a good store, whatever the text. */
  lemma {:induction false} LoadKeepsGood(ps: seq<string>, m: Holdings)
    requires GoodStore(m)
    ensures GoodStore(LoadPieces(ps, m).0)
  {
    if ps != [] {
      match ParseRow(ps[0])
      case Skip => LoadKeepsGood(ps[1..], m);
      case Bad =>
      case Found(r) =>
        if ApplyRow(m, r).1 == Ok { LoadKeepsGood(ps[1..], ApplyRow(m, r).0); }
    }
  }

  lemma LoadTextKeepsGood(text: string)
    ensures GoodStore(LoadText(text, map[]).0)
  {
    LoadKeepsGood(Pieces(text, LINE_ROOM), map[]);
  }

  /** Save and reload is the identity on stores and on their listings. */
  lemma SnapshotRoundTrip(m: Holdings)
    requires GoodStore(m)
    ensures LoadText(RowsText(Listing(m)), map[]) == (m, Ok)
    ensures forall rows :: Ascending(rows) && MapOf(rows) == m ==> rows == Listing(m)
  {
    GoodBothWays(Listing(m));
    LoadInvertsPrint(Listing(m));
    forall rows | Ascending(rows) && MapOf(rows) == m ensures rows == Listing(m) {
      AscendingUnique(rows, Listing(m));
    }
  }

  // ---------- the manifest ----------

  function GenField(g: nat): string { " " + Dec(g) + "\n" }

  lemma ManifestLine(g: nat)
    requires 1 <= g <= LLONG_MAX
    ensures LineWithin(ManifestText(g), LINE_ROOM)
    ensures CStr(ManifestText(g)) == ManifestText(g)
    ensures ManifestText(g) == "gen" + GenField(g)
  {
    GenerationLength(g);
    PlainInt(g);
    LineOfPlain("gen " + Dec(g));
  }

  lemma {:induction false} WordLengthOf(word: string, rest: string, limit: nat)
    requires |word| <= limit && forall i :: 0 <= i < |word| ==> !IsSpace(word[i])
    requires rest != "" && IsSpace(rest[0])
    ensures WordLength(word + rest, limit) == |word|
  {
    if word != "" {
      assert (word + rest)[1..] == word[1..] + rest;
      WordLengthOf(word[1..], rest, limit - 1);
    } else {
      assert word + rest == rest;
    }
  }

  lemma WordOf(word: string, rest: string)
    requires 0 < |word| <= 4 && forall i :: 0 <= i < |word| ==> !IsSpace(word[i])
    requires rest != "" && IsSpace(rest[0])
    ensures ScanWord(word + rest) == Some((word, rest))
  {
    WordLengthOf(word, rest, 15);
    assert (word + rest)[..|word|] == word && (word + rest)[|word|..] == rest;
  }

  lemma ScanGen(g: nat)
    ensures ScanWord("gen" + GenField(g)) == Some(("gen", GenField(g)))
    ensures ScanInt(GenField(g)) == Some((g, "\n"))
  {
    WordOf("gen", GenField(g));
    assert GenField(g) == " " + IntText(g) + "\n";
    ScanPrinted(" ", g, "\n");
  }

  lemma ParseManifestInvertsPrint(g: nat)
    requires 1 <= g <= LLONG_MAX
    ensures ParseManifest(ManifestText(g)) == Found(g)
  {
    ManifestLine(g);
    ScanGen(g);
    NewlineIsBlank();
    assert !IsSpace(ManifestText(g)[0]);
  }

  lemma ManifestOneLine(line: string, g: int)
    requires LineWithin(line, LINE_ROOM) && ParseManifest(line) == Found(g)
    ensures ManifestGeneration(line) == (Ok, g)
  {
    assert Concat([line]) == line + Concat([]) == line;
    PiecesOfLines([line], LINE_ROOM);
    assert [line][1..] == [];
    assert ManifestPieces([], Some(g)) == (Ok, g);
    assert ManifestPieces([line], None) == ManifestPieces([], Some(g));
  }

  lemma ManifestRoundTrip(g: nat)
    requires 1 <= g <= LLONG_MAX
    ensures ManifestGeneration(ManifestText(g)) == (Ok, g)
  {
    ManifestLine(g);
    ParseManifestInvertsPrint(g);
    ManifestOneLine(ManifestText(g), g);
  }

  // ---------- the append-only log ----------

  function Verb(op: LogOp): string { if op == LogBuy then "BUY" else "SELL" }

  function CountField(r: LogRecord): string { " " + IntText(r.count) + "\n" }

  function IdField(r: LogRecord): string { " " + IntText(r.id) + CountField(r) }

  function LogText(r: LogRecord): string {
    Verb(r.op) + " " + IntText(r.id) + " " + IntText(r.count) + "\n"
  }

  lemma LogLine(r: LogRecord)
    requires InInt(r.id) && InInt(r.count)
    ensures LineWithin(LogText(r), LINE_ROOM) && CStr(LogText(r)) == LogText(r)
  {
    IntTextLength(r.id);
    IntTextLength(r.count);
    PlainInt(r.id);
    PlainInt(r.count);
    LineOfFields(Verb(r.op), IntText(r.id), IntText(r.count));
  }

  lemma ParseLogBy(s: string, s1: string, r: LogRecord, s2: string, s3: string)
    requires CStr(s) == s && s != "" && !IsSpace(s[0])
    requires ScanWord(s) == Some((Verb(r.op), s1))
    requires ScanInt(s1) == Some((r.id, s2)) && ScanInt(s2) == Some((r.count, s3))
    requires SkipSpace(s3) == "" && InInt(r.id) && InInt(r.count)
    ensures ParseLog(s) == Found(r)
  {
    assert |"BUY"| != |"SELL"|;
  }

  lemma ScanLogWord(r: LogRecord)
    ensures ScanWord(LogText(r)) == Some((Verb(r.op), IdField(r)))
    ensures !IsSpace(LogText(r)[0])
  {
    Fields(Verb(r.op), IntText(r.id), IntText(r.count));
    WordOf(Verb(r.op), IdField(r));
  }

  lemma ScanLogId(r: LogRecord)
    ensures ScanInt(IdField(r)) == Some((r.id, CountField(r)))
  {
    ScanPrinted(" ", r.id, CountField(r));
  }

  lemma ScanLogCount(r: LogRecord)
    ensures ScanInt(CountField(r)) == Some((r.count, "\n"))
  {
    ScanPrinted(" ", r.count, "\n");
  }

  lemma ParseLogInvertsPrint(r: LogRecord)
    requires InInt(r.id) && InInt(r.count)
    ensures ParseLog(LogText(r)) == Found(r)
  {
    LogLine(r);
    ScanLogWord(r);
    ScanLogId(r);
    ScanLogCount(r);
    NewlineIsBlank();
    ParseLogBy(LogText(r), IdField(r), r, CountField(r), "\n");
  }

  function LogLines(rs: seq<LogRecord>): seq<string> {
    if rs == [] then [] else LogLines(rs[..|rs| - 1]) + [LogText(rs[|rs| - 1])]
  }

  /** The log records of the requests in rs that change the store when run from m. */
  ghost function Records(m: Holdings, rs: seq<Request>): seq<LogRecord> {
    if rs == [] then [] else
      var front, r := rs[..|rs| - 1], rs[|rs| - 1];
      Records(m, front) +
      (if r.Buy? && ApplyDelta(ServeAll(m, front), r.id, -r.count).1 == Ok
       then [LogRecord(LogBuy, r.id, r.count)]
       else if r.Sell? && ApplyDelta(ServeAll(m, front), r.id, r.count).1 == Ok
       then [LogRecord(LogSell, r.id, r.count)]
       else [])
  }

  lemma {:induction false} ReplayAppend(ps: seq<string>, p: string, m: Holdings)
    requires ReplayPieces(ps, m).1 == Ok
    ensures ReplayPieces(ps + [p], m) == ReplayPieces([p], ReplayPieces(ps, m).0)
  {
    if ps == [] {
      assert ps + [p] == [p];
    } else {
      assert (ps + [p])[1..] == ps[1..] + [p];
      match ParseLog(ps[0])
      case Skip => ReplayAppend(ps[1..], p, m);
      case Bad =>
      case Found(r) => ReplayAppend(ps[1..], p, ApplyLog(m, r).0);
    }
  }

  lemma AllFitPrefix(m: Holdings, rs: seq<Request>)
    requires AllFit(m, rs) && rs != []
    ensures AllFit(m, rs[..|rs| - 1])
  {
    var front := rs[..|rs| - 1];
    forall i | 0 <= i < |front|
      ensures front[i].Valid() && RequestFits(ServeAll(m, front[..i]), front[i])
    {
      assert front[..i] == rs[..i] && front[i] == rs[i];
    }
  }

  lemma {:induction false} ServeAllKeepsGood(m: Holdings, rs: seq<Request>)
    requires GoodStore(m) && AllFit(m, rs)
    ensures GoodStore(ServeAll(m, rs))
    ensures ServeAll(m, rs).Keys == m.Keys
    ensures forall id :: id in m ==> ServeAll(m, rs)[id].price == m[id].price
  {
    if rs != [] {
      var front := rs[..|rs| - 1];
      AllFitPrefix(m, rs);
      ServeAllKeepsGood(m, front);
      assert rs[|rs| - 1].Valid() && RequestFits(ServeAll(m, rs[..|rs| - 1]), rs[|rs| - 1]);
      ServeKeepsGood(ServeAll(m, front), rs[|rs| - 1]);
    }
  }

  lemma ReplayOne(line: string, m: Holdings, r: LogRecord)
    requires ParseLog(line) == Found(r)
    ensures ReplayPieces([line], m) == ApplyLog(m, r)
  {
    assert [line][1..] == [];
  }

  /** One more request adds to the log just what replay needs to follow it. */
  lemma ReplayFollows(before: Holdings, r: Request, rec: LogRecord)
    requires GoodStore(before) && r.Valid()
    requires (r.Buy? && rec == LogRecord(LogBuy, r.id, r.count))
          || (r.Sell? && rec == LogRecord(LogSell, r.id, r.count))
    requires ApplyDelta(before, r.id, LogDelta(rec)).1 == Ok
    ensures ApplyLog(before, rec) == (Serve(before, r).0, Ok)
  {
    assert Row(r.id, before[r.id].stock, before[r.id].price).Good();
  }

  lemma {:induction false} RecordsInRange(m: Holdings, rs: seq<Request>)
    requires forall r :: r in rs ==> r.Valid()
    ensures forall rec :: rec in Records(m, rs) ==> InInt(rec.id) && InInt(rec.count)
  {
    if rs != [] {
      RecordsInRange(m, rs[..|rs| - 1]);
      assert rs[|rs| - 1].Valid();
    }
  }

  lemma LogLinesAppend(early: seq<LogRecord>, rec: LogRecord)
    ensures LogLines(early + [rec]) == LogLines(early) + [LogText(rec)]
  {
    assert (early + [rec])[..|early|] == early;
  }

  lemma ReplayOneMore(m: Holdings, early: seq<LogRecord>, before: Holdings, rec: LogRecord)
    requires ReplayPieces(LogLines(early), m) == (before, Ok)
    requires InInt(rec.id) && InInt(rec.count)
    ensures ReplayPieces(LogLines(early + [rec]), m) == ApplyLog(before, rec)
  {
    ParseLogInvertsPrint(rec);
    ReplayOne(LogText(rec), before, rec);
    LogLinesAppend(early, rec);
    ReplayAppend(LogLines(early), LogText(rec), m);
  }

  lemma {:induction false} ReplayLines(m: Holdings, rs: seq<Request>)
    requires GoodStore(m) && AllFit(m, rs)
    ensures ReplayPieces(LogLines(Records(m, rs)), m) == (ServeAll(m, rs), Ok)
  {
    if rs != [] {
      var front, r := rs[..|rs| - 1], rs[|rs| - 1];
      AllFitPrefix(m, rs);
      ReplayLines(m, front);
      ServeAllKeepsGood(m, front);
      assert r.Valid();
      var before, early := ServeAll(m, front), Records(m, front);
      if r.Buy? && ApplyDelta(before, r.id, -r.count).1 == Ok {
        ReplayFollows(before, r, LogRecord(LogBuy, r.id, r.count));
        ReplayOneMore(m, early, before, LogRecord(LogBuy, r.id, r.count));
      } else if r.Sell? && ApplyDelta(before, r.id, r.count).1 == Ok {
        ReplayFollows(before, r, LogRecord(LogSell, r.id, r.count));
        ReplayOneMore(m, early, before, LogRecord(LogSell, r.id, r.count));
      } else {
        assert Records(m, rs) == early;
      }
    }
  }

  lemma {:induction false} LogLinesShape(rs: seq<LogRecord>)
    requires forall rec :: rec in rs ==> InInt(rec.id) && InInt(rec.count)
    ensures forall l :: l in LogLines(rs) ==> LineWithin(l, LINE_ROOM)
  {
    if rs != [] {
      LogLinesShape(rs[..|rs| - 1]);
      LogLine(rs[|rs| - 1]);
    }
  }

  /** Replaying the log of the successful buys and sells of any request sequence onto the store
      the sequence started from succeeds and reaches the store the sequence reached. */
  lemma ReplayAgreesWithServing(m: Holdings, rs: seq<Request>)
    requires GoodStore(m) && AllFit(m, rs)
    ensures ReplayText(Concat(LogLines(Records(m, rs))), m) == (ServeAll(m, rs), Ok)
  {
    ReplayLines(m, rs);
    RecordsInRange(m, rs);
    LogLinesShape(Records(m, rs));
    PiecesOfLines(LogLines(Records(m, rs)), LINE_ROOM);
  }

  lemma ApplyLogFails(m: Holdings, r: LogRecord)
    ensures ApplyLog(m, r).1 != Ok ==> ApplyLog(m, r).0 == m
  {
  }

  /** A replay that fails stopped at one line: the lines before it all replay, their effect is
      exactly the store that is left, and that line alone fails there with the same status. */
  lemma {:induction false} ReplayStopsAtFirstBad(ps: seq<string>, m: Holdings) returns (k: nat)
    requires ReplayPieces(ps, m).1 != Ok
    ensures k < |ps|
    ensures ReplayPieces(ps[..k], m) == (ReplayPieces(ps, m).0, Ok)
    ensures ReplayPieces([ps[k]], ReplayPieces(ps, m).0) == ReplayPieces(ps, m)
  {
    hide ParseLog, ApplyLog;
    var first := ParseLog(ps[0]);
    if first.Bad? || (first.Found? && ApplyLog(m, first.value).1 != Ok) {
      if first.Found? { ApplyLogFails(m, first.value); }
      k := 0;
    } else {
      var m' := if first.Skip? then m else ApplyLog(m, first.value).0;
      var j := ReplayStopsAtFirstBad(ps[1..], m');
      k := j + 1;
      assert ps[..k][1..] == ps[1..][..j];
    }
  }

  // ---------- lines, written out ----------

  lemma WhiteBegins(b: string, t: string)
    requires White(b) && b != ""
    ensures Stops(b + t)
  {
    assert b[0] in b;
  }

  lemma NumeralVisible(t: string, v: int)
    requires Numeral(t, v)
    ensures t != "" && !White(t) && '\0' !in t
  {
    var sign, digits :| SignedDigits(t, v, sign, digits);
    assert t[|sign|] == digits[0] && digits[0] in digits && t[|sign|] in t;
  }

  lemma WhiteNoNul(b: string)
    requires White(b)
    ensures '\0' !in b
  {
  }

  lemma NotBlankWith(a: string, t: string, b: string)
    requires !White(t)
    ensures !Blank(a + t + b)
  {
    var s := a + t + b;
    if White(s) {
      forall c | c in t ensures c in s { }
      assert White(t);
    }
    WhiteIsBlank(s);
  }

  /** A line of white space is skipped, in every file; no other line is. */
  lemma BlankLines(line: string)
    requires '\0' !in line
    ensures ParseRow(line) == Skip <==> White(line)
    ensures ParseLog(line) == Skip <==> White(line)
    ensures ParseManifest(line) == Skip <==> White(line)
  {
    WhiteIsBlank(line);
  }

  lemma TailIsWhite(tail: string)
    ensures SkipSpace(tail) == "" <==> White(tail)
  {
    WhiteIsBlank(tail);
    SkipSpaceOfBlank(tail);
  }

  /** A stock line: three numerals between white space, and nothing but white space after them. */
  lemma RowReads(b0: string, t1: string, v1: int, b1: string, t2: string, v2: int, b2: string, t3: string, v3: int,
                 tail: string)
    requires White(b0) && White(b1) && b1 != "" && White(b2) && b2 != ""
    requires Numeral(t1, v1) && Numeral(t2, v2) && Numeral(t3, v3) && Stops(tail) && '\0' !in tail
    ensures var line := b0 + t1 + b1 + t2 + b2 + t3 + tail;
      ParseRow(line) ==
        if White(tail) && InInt(v1) && InInt(v2) && InInt(v3) then Found(Row(v1, v2, v3)) else Bad
  {
    hide White, Numeral, Stops;
    var r3 := b2 + t3 + tail;
    var r2 := b1 + t2 + r3;
    var line := b0 + t1 + b1 + t2 + b2 + t3 + tail;
    assert line == b0 + t1 + r2;
    NumeralVisible(t1, v1);
    NumeralVisible(t2, v2);
    NumeralVisible(t3, v3);
    WhiteNoNul(b0);
    WhiteNoNul(b1);
    WhiteNoNul(b2);
    NotBlankWith(b0, t1, r2);
    assert r2 == b1 + (t2 + r3) && r3 == b2 + (t3 + tail);
    WhiteBegins(b1, t2 + r3);
    WhiteBegins(b2, t3 + tail);
    ScanIntReads(b0, t1, v1, r2);
    ScanIntReads(b1, t2, v2, r3);
    ScanIntReads(b2, t3, v3, tail);
    TailIsWhite(tail);
  }

  lemma ThreeFields(a: string, b: string, c: string, d: string)
    ensures a + (b + (c + d)) == a + b + c + d
  {
  }

  /** And every stock line that is accepted is one. */
  lemma RowOnly(line: string, r: Row) returns (b0: string, t1: string, b1: string, t2: string, b2: string, t3: string,
                                               tail: string)
    requires '\0' !in line && ParseRow(line) == Found(r)
    ensures line == b0 + t1 + b1 + t2 + b2 + t3 + tail
    ensures White(b0) && White(b1) && White(b2) && White(tail)
    ensures Numeral(t1, r.id) && Numeral(t2, r.stock) && Numeral(t3, r.price)
    ensures InInt(r.id) && InInt(r.stock) && InInt(r.price)
  {
    hide White, Numeral, Stops;
    assert CStr(line) == line;
    var s1 := ScanInt(line).value.1;
    var s2 := ScanInt(s1).value.1;
    tail := ScanInt(s2).value.1;
    assert SkipSpace(tail) == "" && ScanInt(line).value.0 == r.id;
    assert ScanInt(s1).value.0 == r.stock && ScanInt(s2).value.0 == r.price;
    hide ParseRow, ScanInt, SkipSpace, CStr;
    b0, t1 := ScanIntOnly(line);
    b1, t2 := ScanIntOnly(s1);
    b2, t3 := ScanIntOnly(s2);
    TailIsWhite(tail);
    ThreeFields(b0 + t1, b1 + t2, b2 + t3, tail);
    ThreeFields(b0 + t1, b1, t2, b2 + t3 + tail);
  }

  /** A word as %15s reads it. */
  ghost predicate Token(w: string) {
    0 < |w| <= 15 && '\0' !in w && forall c :: c in w ==> !White([c])
  }

  lemma NotWhiteWith(w: string, c: char)
    requires c in w && !White([c])
    ensures !White(w)
  {
  }

  lemma ScanTokenReads(b: string, w: string, rest: string)
    requires White(b) && Token(w) && rest != "" && White([rest[0]])
    ensures ScanWord(b + w + rest) == Some((w, rest))
    ensures !White(w)
  {
    assert w[0] in w;
    forall i | 0 <= i < |w| ensures !IsSpace(w[i]) {
      assert w[i] in w;
      WhiteIsBlank([w[i]]);
    }
    WhiteIsBlank(b);
    WhiteIsBlank([rest[0]]);
    assert [rest[0]][0] == rest[0];
    assert b + w + rest == b + (w + rest);
    SkipSpaceOver(b, w + rest);
    WordLengthOf(w, rest, 15);
    assert (w + rest)[..|w|] == w && (w + rest)[|w|..] == rest;
    var c := w[0];
    assert c in w && !White([c]);
    assert !White(w) by { NotWhiteWith(w, c); }
  }

  lemma FirstWhite(b: string, t: string)
    requires White(b) && b != ""
    ensures b + t != "" && White([(b + t)[0]])
  {
    assert b[0] in b;
  }

  /** A log line: BUY or SELL, two numerals, and nothing but white space after them. */
  lemma LogReads(b0: string, w: string, b1: string, t1: string, v1: int, b2: string, t2: string, v2: int, tail: string)
    requires White(b0) && Token(w) && White(b1) && b1 != "" && White(b2) && b2 != ""
    requires Numeral(t1, v1) && Numeral(t2, v2) && Stops(tail) && '\0' !in tail
    ensures var line := b0 + w + b1 + t1 + b2 + t2 + tail;
      ParseLog(line) ==
        if !White(tail) || !InInt(v1) || !InInt(v2) then Bad
        else if w == "BUY" then Found(LogRecord(LogBuy, v1, v2))
        else if w == "SELL" then Found(LogRecord(LogSell, v1, v2))
        else Bad
  {
    hide White, Numeral, Stops;
    var r2 := b2 + t2 + tail;
    var r1 := b1 + t1 + r2;
    var line := b0 + w + b1 + t1 + b2 + t2 + tail;
    assert line == b0 + w + r1;
    NumeralVisible(t1, v1);
    NumeralVisible(t2, v2);
    WhiteNoNul(b0);
    WhiteNoNul(b1);
    WhiteNoNul(b2);
    assert r1 == b1 + (t1 + r2) && r2 == b2 + (t2 + tail);
    FirstWhite(b1, t1 + r2);
    ScanTokenReads(b0, w, r1);
    NotBlankWith(b0, w, r1);
    WhiteBegins(b2, t2 + tail);
    ScanIntReads(b1, t1, v1, r2);
    ScanIntReads(b2, t2, v2, tail);
    TailIsWhite(tail);
  }

  /** A manifest line: gen, one positive numeral, and nothing but white space after it. */
  lemma ManifestReads(b0: string, w: string, b1: string, t: string, v: int, tail: string)
    requires White(b0) && Token(w) && White(b1) && b1 != "" && Numeral(t, v) && Stops(tail) && '\0' !in tail
    ensures var line := b0 + w + b1 + t + tail;
      ParseManifest(line) ==
        if w == "gen" && 0 < v <= 0x7fff_ffff_ffff_ffff && White(tail) then Found(v) else Bad
  {
    hide White, Numeral, Stops;
    var r1 := b1 + t + tail;
    var line := b0 + w + b1 + t + tail;
    assert line == b0 + w + r1;
    NumeralVisible(t, v);
    WhiteNoNul(b0);
    WhiteNoNul(b1);
    assert r1 == b1 + (t + tail);
    FirstWhite(b1, t + tail);
    ScanTokenReads(b0, w, r1);
    NotBlankWith(b0, w, r1);
    ScanIntReads(b1, t, v, tail);
    TailIsWhite(tail);
  }

  /** Lines that are skipped change nothing, wherever they stand. */
  lemma {:induction false} SkippedLines(ps: seq<string>, i: nat, m: Holdings)
    requires i < |ps| && '\0' !in ps[i] && White(ps[i])
    ensures LoadPieces(ps, m) == LoadPieces(ps[..i] + ps[i + 1..], m)
    ensures ReplayPieces(ps, m) == ReplayPieces(ps[..i] + ps[i + 1..], m)
  {
    hide ParseRow, ParseLog, ApplyRow, ApplyLog;
    if i == 0 {
      BlankLines(ps[0]);
      assert ps[..0] + ps[1..] == ps[1..];
    } else {
      var rest := ps[..i] + ps[i + 1..];
      assert rest[0] == ps[0] && rest[1..] == ps[1..][..i - 1] + ps[1..][i - 1 + 1..];
      SkippedLines(ps[1..], i - 1, m);
      match ParseRow(ps[0]) {
        case Found(r) => SkippedLines(ps[1..], i - 1, ApplyRow(m, r).0);
        case _ =>
      }
      match ParseLog(ps[0]) {
        case Found(r) => SkippedLines(ps[1..], i - 1, ApplyLog(m, r).0);
        case _ =>
      }
    }
  }

  ghost predicate OnlyRecord(ps: seq<string>, i: int, g: int) {
    && 0 <= i < |ps| && ParseManifest(ps[i]) == Found(g)
    && forall k :: 0 <= k < |ps| && k != i ==> ParseManifest(ps[k]) == Skip
  }

  lemma {:induction false} OneSeen(ps: seq<string>, h: int)
    ensures ManifestPieces(ps, Some(h)) ==
      if forall k :: 0 <= k < |ps| ==> ParseManifest(ps[k]) == Skip then (Ok, h) else (Invalid, 0)
  {
    hide ParseManifest;
    if ps != [] && ParseManifest(ps[0]) == Skip {
      OneSeen(ps[1..], h);
      assert forall k :: 0 < k < |ps| ==> ps[k] == ps[1..][k - 1];
    }
  }

  /** The manifest is accepted exactly when all its lines are skipped but one, which names the
      generation. */
  lemma {:induction false} ManifestExactly(ps: seq<string>, g: int)
    ensures ManifestPieces(ps, None) == (Ok, g) <==> exists i :: OnlyRecord(ps, i, g)
    ensures ManifestPieces(ps, None).0 == Ok || ManifestPieces(ps, None).0 == Invalid
  {
    hide ParseManifest;
    if ps != [] {
      match ParseManifest(ps[0])
      case Skip =>
        ManifestExactly(ps[1..], g);
        if i :| OnlyRecord(ps[1..], i, g) { assert OnlyRecord(ps, i + 1, g); }
        if i :| OnlyRecord(ps, i, g) { assert OnlyRecord(ps[1..], i - 1, g); }
      case Bad =>
      case Found(h) =>
        OneSeen(ps[1..], h);
        if ManifestPieces(ps, None) == (Ok, g) { assert OnlyRecord(ps, 0, g); }
        if i :| OnlyRecord(ps, i, g) {
          assert i == 0;
          assert forall k :: 0 <= k < |ps| - 1 ==> ps[1..][k] == ps[k + 1];
        }
    }
  }

  /** The files are read in lines of at most 8191 characters. */
  lemma FilesAreLines(text: string, m: Holdings)
    ensures LoadText(text, m) == LoadPieces(Pieces(text, 8191), m)
    ensures ReplayText(text, m) == ReplayPieces(Pieces(text, 8191), m)
    ensures ManifestGeneration(text) == ManifestPieces(Pieces(text, 8191), None)
  {
    hide Pieces, LoadPieces, ReplayPieces, ManifestPieces;
  }
}
