/** One client connection served by one worker: lines in, replies out. */
module Server {
  import opened Text
  import opened Stock
  import opened Response
  import opened Visitors
  import opened Store
  import opened Parser
  import opened Rio

  // ---------- how long a listing can be ----------

  lemma {:induction false} ManyRows(rows: seq<Row>)
    requires Ascending(rows) && GoodRows(rows)
    ensures rows != [] ==> |rows| <= rows[|rows| - 1].id <= INT_MAX
  {
    if |rows| > 1 { ManyRows(rows[..|rows| - 1]); }
  }

  lemma {:induction false} TextOfRowsShort(rows: seq<Row>)
    requires GoodRows(rows)
    ensures |RowsText(rows)| <= 36 * |rows|
  {
    if rows != [] {
      hide RowText;
      RowTextShort(rows[0]);
      TextOfRowsShort(rows[1..]);
    }
  }

  /** A listing of good rows fits into any buffer that a size can describe. */
  lemma ListingFits(rows: seq<Row>)
    requires Ascending(rows) && GoodRows(rows)
    ensures |RowsText(rows)| < SIZE_MAX
  {
    ManyRows(rows);
    TextOfRowsShort(rows);
  }

  // ---------- one request ----------

  /** The case `argc == 1` of handle_show_request, without the lock. */
  method ShowEverything(store: StockStore, response: Builder) returns (s: Status)
    requires store.Valid() && GoodStore(store.Contents())
    requires response.Valid() && response.Text() == "" && {response, response.data} !! store.Repr()
    modifies response, response.data
    ensures response.Valid() && (response.data == old(response.data) || fresh(response.data))
    ensures s == Ok && response.Text() == RowsText(Listing(old(store.Contents())))
  {
    hide Ascending, MapOf, RowsText, RowText, GoodStore, ValidTree;
    ghost var rows := store.Listed();
    GoodBothWays(rows);
    ListingFits(rows);
    ListingOfRows(rows);
    ghost var seen;
    assert "" + RowsText(rows) == RowsText(rows);
    s, seen := Walk(store.root, Show(response));
  }

  /** The other case. */
  method ShowItem(store: StockStore, id: int, response: Builder) returns (s: Status)
    requires store.Valid() && GoodStore(store.Contents())
    requires response.Valid() && response.Text() == "" && {response, response.data} !! store.Repr()
    modifies response, response.data
    ensures response.Valid() && (response.data == old(response.data) || fresh(response.data))
    ensures s == if id in old(store.Contents()) then Ok else NotFound
    ensures s == Ok ==>
      var item := old(store.Contents())[id]; response.Text() == RowText(Row(id, item.stock, item.price))
  {
    hide Ascending, MapOf, RowText, ValidTree;
    var item;
    s, item := store.FindNolock(id);
    if s == Ok {
      var r := Row(item.id, item.stock, item.price);
      assert r.Good() && store.Contents()[id] == Item(r.stock, r.price);
      RowTextShort(r);
      assert "" + RowText(r) == RowText(r);
      s := response.AppendF(RowText(r));
    }
  }

  /** What a request leaves behind: the map that Serve gives, and its reply, in the response or as
      the status to be reported. */
  ghost predicate Served(m: Holdings, r: Request, m': Holdings, s: Status, text: string) {
    (m', if s == Ok then text else FailureText(s)) == Serve(m, r)
  }

  /** handle_show_request, without the lock. */
  method HandleShow(store: StockStore, q: StockRequest, response: Builder) returns (s: Status)
    requires store.Valid() && GoodStore(store.Contents())
    requires response.Valid() && response.Text() == "" && {response, response.data} !! store.Repr()
    requires ValidateRequest(q) == Ok && q.command == CmdShow
    modifies response, response.data
    ensures response.Valid() && (response.data == old(response.data) || fresh(response.data))
    ensures Served(old(store.Contents()), Wanted(q), old(store.Contents()), s, response.Text())
  {
    hide RowsText, RowText, FailureText, GoodStore;
    ghost var m := store.Contents();
    if q.argc == 1 {
      s := ShowEverything(store, response);
    } else {
      s := ShowItem(store, q.id, response);
    }
  }

  /** handle_buy_sell_request, without the lock. */
  method HandleBuySell(store: StockStore, q: StockRequest) returns (s: Status)
    requires store.Valid() && GoodStore(store.Contents())
    requires ValidateRequest(q) == Ok && (q.command == CmdBuy || q.command == CmdSell)
    requires RequestFits(store.Contents(), Wanted(q))
    modifies store.Repr()
    ensures store.Valid() && fresh(store.Repr() - old(store.Repr()))
    ensures Served(old(store.Contents()), Wanted(q), store.Contents(), s, "success\n")
  {
    hide Ascending, MapOf, FailureText, ValidTree;
    var delta := q.count;
    if q.command == CmdBuy {
      delta := -q.count;
    }
    ghost var m := store.Contents();
    assert q.id in m ==> Row(q.id, m[q.id].stock, m[q.id].price).Good();
    s := store.ApplyDeltaNolock(q.id, delta);
  }

  method AppendSuccess(response: Builder) returns (s: Status)
    requires response.Valid() && response.Text() == ""
    modifies response, response.data
    ensures response.Valid() && (response.data == old(response.data) || fresh(response.data))
    ensures s == Ok && response.Text() == "success\n"
  {
    s := response.Append("success\n");
  }

  /** execute_request. */
  method ExecuteRequest(store: StockStore, q: StockRequest, response: Builder) returns (s: Status)
    requires store.Valid() && GoodStore(store.Contents()) && ValidateRequest(q) == Ok
    requires RequestFits(store.Contents(), Wanted(q))
    requires response.Valid() && response.Text() == "" && {response, response.data} !! store.Repr()
    modifies response, response.data, store.Repr()
    ensures store.Valid() && fresh(store.Repr() - old(store.Repr()))
    ensures response.Valid() && (response.data == old(response.data) || fresh(response.data))
    ensures Served(old(store.Contents()), Wanted(q), store.Contents(), s, response.Text())
    ensures q.command == CmdExit ==> s == Ok
  {
    hide Ascending, MapOf, FailureText, ValidTree, GoodStore, RequestFits;
    ghost var m := store.Contents();
    if q.command == CmdShow {
      hide Served;
      s := HandleShow(store, q, response);
    } else if q.command == CmdBuy || q.command == CmdSell {
      s := HandleBuySell(store, q);
      if s == Ok {
        s := AppendSuccess(response);
      }
    } else {
      s := AppendSuccess(response);
    }
  }

  /** One line, answered alone: the new map and the reply. */
  ghost function Answer(m: Holdings, line: string): (Holdings, string) {
    match Understood(line)
    case Some(r) => Serve(m, r)
    case None => (m, FailureText(Invalid))
  }

  ghost predicate LineFits(m: Holdings, line: string) {
    Understood(line).Some? ==> RequestFits(m, Understood(line).value)
  }

  /** Replaces whatever is in the response by the message for a failure. An emptied response always
      has room for it, so handle_client's fallback message is never needed. */
  method Report(response: Builder, status: Status)
    requires response.Valid()
    modifies response, response.data
    ensures response.Valid() && response.Text() == FailureText(status)
  {
    response.Reset();
    var responseStatus := response.Append(FailureText(status));
    assert responseStatus == Ok;
  }

  lemma ValidAsDecided(q: StockRequest, line: string)
    requires Decides(q, Tokens(LocalCopy(line)))
    ensures ValidateRequest(q) == Ok || ValidateRequest(q) == Invalid
    ensures ValidateRequest(q) == Ok ==> Wanted(q).Valid() && (q.command == CmdExit <==> Wanted(q) == Exit)
  {
  }

  /** The body of the loop in handle_client: one line in, one reply out. */
  method AnswerLine(store: StockStore, line: string) returns (reply: string, last: bool)
    requires store.Valid() && GoodStore(store.Contents()) && LineFits(store.Contents(), line)
    modifies store.Repr()
    ensures store.Valid() && fresh(store.Repr() - old(store.Repr())) && GoodStore(store.Contents())
    ensures (store.Contents(), reply) == Answer(old(store.Contents()), line)
    ensures last <==> Understood(line) == Some(Exit)
  {
    hide Ascending, MapOf, FailureText, ValidTree, GoodStore, RequestFits, Decides, Serve;
    ghost var m := store.Contents();
    var response := new Builder();
    var q := ParseRequest(line);
    DecidesAgrees(q, line);
    ValidAsDecided(q, line);
    var status := ValidateRequest(q);
    if status == Ok {
      ServeKeepsGood(m, Wanted(q));
      status := ExecuteRequest(store, q, response);
    }
    if status != Ok {
      Report(response, status);
    }
    reply := response.Text();
    last := q.command == CmdExit && status == Ok;
  }

  // ---------- one connection ----------

  /** A whole conversation, answered line by line up to the first exit: the map and all replies. */
  ghost function Converse(m: Holdings, lines: seq<string>): (Holdings, string) {
    if lines == [] then (m, "") else
      var (m', reply) := Answer(m, lines[0]);
      if Understood(lines[0]) == Some(Exit) then (m', reply) else
        var (end, more) := Converse(m', lines[1..]);
        (end, reply + more)
  }

  /** No sell of the conversation passes INT_MAX. */
  ghost predicate ConversationFits(m: Holdings, lines: seq<string>) {
    lines == [] || (LineFits(m, lines[0]) && ConversationFits(Answer(m, lines[0]).0, lines[1..]))
  }

  lemma {:induction false} CStrStops(a: string, b: string)
    ensures CStr(a + ['\0'] + b) == CStr(a)
  {
    if a == "" {
      assert (a + ['\0'] + b)[0] == '\0';
    } else {
      assert (a + ['\0'] + b)[1..] == a[1..] + ['\0'] + b;
      CStrStops(a[1..], b);
    }
  }

  lemma UnderstoodByCopy(a: string, b: string)
    requires CStr(a) == CStr(b)
    ensures Understood(a) == Understood(b)
  {
    if Understood(a).Some? && Understood(b).Some? {
      SpellsOne(Tokens(LocalCopy(a)), Understood(a).value, Understood(b).value);
    }
  }

  /** A line in the buffer is read up to its NUL. */
  lemma BufferLine(buffer: string, k: nat)
    requires k < |buffer| && buffer[k] == '\0'
    ensures Understood(buffer) == Understood(buffer[..k])
  {
    hide Understood;
    assert buffer == buffer[..k] + ['\0'] + buffer[k + 1..];
    CStrStops(buffer[..k], buffer[k + 1..]);
    UnderstoodByCopy(buffer, buffer[..k]);
  }

  /** Two lines that are understood alike are answered alike. */
  lemma SameAnswer(a: string, b: string)
    requires Understood(a) == Understood(b)
    ensures forall m :: Answer(m, a) == Answer(m, b)
    ensures forall m :: LineFits(m, a) <==> LineFits(m, b)
  {
    hide Understood, Serve, RequestFits;
  }

  /** What a read that returned n has put into buf, of a stream of which `lines` were left. */
  ghost predicate Fed(n: int, rio: Reader, buf: array<char>, lines: seq<string>)
    requires rio.Valid()
    reads rio, rio.buf, rio.fd, buf
  {
    && (n == 0 ==> lines == [])
    && (n > 0 ==> lines != [] && Understood(buf[..]) == Understood(lines[0]))
    && (n > 0 ==> Pieces(rio.Pending(), MAXLINE - 1) == lines[1..])
    && (n < 0 ==> !rio.fd.reliable)
  }

  lemma FedLine(n: int, rio: Reader, buf: array<char>, lines: seq<string>)
    requires rio.Valid() && Fed(n, rio, buf, lines)
    ensures n == 0 ==> lines == []
    ensures n > 0 ==> lines != [] && Understood(buf[..]) == Understood(lines[0])
    ensures n > 0 ==> Pieces(rio.Pending(), MAXLINE - 1) == lines[1..]
    ensures n < 0 ==> !rio.fd.reliable
  {
    hide Understood, Pieces;
  }

  /** Rio_readlineb on a buffer of MAXLINE bytes: the next piece of the stream. */
  method NextLine(rio: Reader, buf: array<char>, ghost lines: seq<string>) returns (n: int)
    requires rio.Valid() && buf.Length == MAXLINE && buf != rio.buf
    requires lines == Pieces(rio.Pending(), MAXLINE - 1)
    modifies rio, rio.buf, rio.fd`rest, rio.fd`interrupts, buf
    ensures rio.Valid() && Fed(n, rio, buf, lines)
  {
    hide Understood;
    n := rio.ReadLine(buf, MAXLINE);
    if n > 0 {
      assert buf[..][..n] == buf[..n] == lines[0];
      BufferLine(buf[..], n);
    }
  }

  /** With `lines` still to come on m, `sent` is on its way to `whole`. */
  ghost predicate Underway(whole: (Holdings, string), m: Holdings, lines: seq<string>, sent: string) {
    ConversationFits(m, lines) && whole == (Converse(m, lines).0, sent + Converse(m, lines).1)
  }

  lemma Begin(m: Holdings, lines: seq<string>)
    requires ConversationFits(m, lines)
    ensures Underway(Converse(m, lines), m, lines, "")
  {
    assert "" + Converse(m, lines).1 == Converse(m, lines).1;
  }

  lemma Joined(a: string, b: string, c: string)
    ensures a + (b + c) == (a + b) + c
  {
  }

  lemma OneLineOn(whole: (Holdings, string), m: Holdings, lines: seq<string>, sent: string)
    requires Underway(whole, m, lines, sent) && lines != []
    ensures LineFits(m, lines[0])
    ensures var (m', reply) := Answer(m, lines[0]);
      if Understood(lines[0]) == Some(Exit) then whole == (m', sent + reply)
      else Underway(whole, m', lines[1..], sent + reply)
  {
    hide Answer, Understood, LineFits;
    var m', reply := Answer(m, lines[0]).0, Answer(m, lines[0]).1;
    if Understood(lines[0]) != Some(Exit) {
      var (end, more) := Converse(m', lines[1..]);
      Joined(sent, reply, more);
      assert Converse(m, lines) == (end, reply + more);
    }
  }

  lemma End(whole: (Holdings, string), m: Holdings, sent: string)
    requires Underway(whole, m, [], sent)
    ensures whole == (m, sent)
  {
    assert sent + "" == sent;
  }

  /** What has been sent is a beginning of the replies. */
  ghost predicate SentPart(before: string, now: string, replies: string) {
    exists part :: part <= replies && now == before + part
  }

  lemma PartOfReplies(whole: (Holdings, string), m: Holdings, lines: seq<string>, sent: string)
    requires Underway(whole, m, lines, sent)
    ensures sent <= whole.1
  {
  }

  /** Cut off while writing the reply to the first of the lines, or after it. */
  lemma PartOfReply(whole: (Holdings, string), m: Holdings, lines: seq<string>, sent: string, done: nat)
    requires Underway(whole, m, lines, sent) && lines != [] && done <= |Answer(m, lines[0]).1|
    ensures sent + Answer(m, lines[0]).1[..done] <= whole.1
  {
    hide Answer, Understood, LineFits;
    OneLineOn(whole, m, lines, sent);
    var (m', reply) := Answer(m, lines[0]);
    if Understood(lines[0]) != Some(Exit) { PartOfReplies(whole, m', lines[1..], sent + reply); }
    assert sent + reply <= whole.1;
    assert sent + reply[..done] == (sent + reply)[..|sent| + done];
  }

  /** The loop body of handle_client after the line is read. */
  method AnswerAndSend(store: StockStore, fd: Socket, line: string)
      returns (ok: bool, last: bool, reply: string, ghost done: nat)
    requires store.Valid() && GoodStore(store.Contents()) && LineFits(store.Contents(), line) && fd !in store.Repr()
    modifies fd`sent, fd`interrupts, store.Repr()
    ensures store.Valid() && fresh(store.Repr() - old(store.Repr())) && GoodStore(store.Contents())
    ensures (store.Contents(), reply) == Answer(old(store.Contents()), line)
    ensures last <==> Understood(line) == Some(Exit)
    ensures done <= |reply| && fd.sent == old(fd.sent) + reply[..done]
    ensures if ok then done == |reply| else !fd.reliable
  {
    hide Ascending, MapOf, ValidTree, GoodStore, Answer, Understood, LineFits;
    reply, last := AnswerLine(store, line);
    ok, done := WriteN(fd, reply);
  }

  lemma PartSent(before: string, now: string, sent: string, reply: string, done: nat, replies: string)
    requires done <= |reply| && now == before + sent + reply[..done] && sent + reply[..done] <= replies
    ensures SentPart(before, now, replies)
    ensures done == |reply| ==> now == before + (sent + reply)
  {
    assert now == before + (sent + reply[..done]);
    assert done == |reply| ==> reply[..done] == reply;
  }

  /** The loop of handle_client, with `lines` still to come. */
  method ServeLines(store: StockStore, rio: Reader, buf: array<char>, ghost all: seq<string>) returns (s: Status)
    requires store.Valid() && GoodStore(store.Contents()) && ConversationFits(store.Contents(), all)
    requires rio.Valid() && buf.Length == MAXLINE && buf != rio.buf
    requires {rio, rio.buf, buf, rio.fd} !! store.Repr()
    requires all == Pieces(rio.Pending(), MAXLINE - 1)
    modifies rio, rio.buf, rio.fd, buf, store.Repr()
    ensures s == Ok || (s == Halted && !rio.fd.reliable)
    ensures s == Ok ==> store.Valid() && GoodStore(store.Contents())
    ensures var (m, replies) := Converse(old(store.Contents()), all);
      && SentPart(old(rio.fd.sent), rio.fd.sent, replies)
      && (s == Ok ==> store.Contents() == m && rio.fd.sent == old(rio.fd.sent) + replies)
  {
    hide Ascending, MapOf, ValidTree, GoodStore, Pieces, Fed, SentPart;
    hide Answer, LineFits, Understood, Underway, Converse, ConversationFits;
    ghost var lines, whole, sent, before := all, Converse(store.Contents(), all), "", rio.fd.sent;
    Begin(store.Contents(), lines);
    var n := NextLine(rio, buf, lines);
    while n > 0
      invariant rio.Valid() && store.Valid() && GoodStore(store.Contents()) && fresh(store.Repr() - old(store.Repr()))
      invariant {rio, rio.buf, buf, rio.fd} !! store.Repr()
      invariant Fed(n, rio, buf, lines) && Underway(whole, store.Contents(), lines, sent)
      invariant rio.fd.sent == before + sent
      decreases |lines|
    {
      FedLine(n, rio, buf, lines);
      SameAnswer(buf[..], lines[0]);
      ghost var m := store.Contents();
      OneLineOn(whole, m, lines, sent);
      ghost var done: nat;
      var ok, last, reply;
      ok, last, reply, done := AnswerAndSend(store, rio.fd, buf[..]);
      PartOfReply(whole, m, lines, sent, done);
      PartSent(before, rio.fd.sent, sent, reply, done, whole.1);
      if !ok {
        return Halted;
      }
      sent := sent + reply;
      if last {
        return Ok;
      }
      lines := lines[1..];
      n := NextLine(rio, buf, lines);
    }
    FedLine(n, rio, buf, lines);
    PartOfReplies(whole, store.Contents(), lines, sent);
    PartSent(before, rio.fd.sent, sent, "", 0, whole.1);
    if n < 0 {
      return Halted;
    }
    End(whole, store.Contents(), sent);
    s := Ok;
  }

  /** handle_client: however the bytes arrive, the client gets the replies of the conversation that
      its stream spells, and the store ends where that conversation leaves it. A connection that
      fails, at a read or at a write, ends the process; then the client has got a beginning of those
      replies. */
  method HandleClient(store: StockStore, fd: Socket) returns (s: Status)
    requires store.Valid() && GoodStore(store.Contents()) && fd !in store.Repr()
    requires ConversationFits(store.Contents(), Pieces(fd.rest, 8191))
    modifies fd, store.Repr()
    ensures s == Ok || (s == Halted && !fd.reliable)
    ensures s == Ok ==> store.Valid() && GoodStore(store.Contents())
    ensures var (m, replies) := Converse(old(store.Contents()), old(Pieces(fd.rest, 8191)));
      && SentPart(old(fd.sent), fd.sent, replies)
      && (s == Ok ==> store.Contents() == m && fd.sent == old(fd.sent) + replies)
  {
    hide Ascending, MapOf, ValidTree, GoodStore, Pieces, Converse, ConversationFits, SentPart;
    var rio := new Reader(fd);
    var buf := new char[MAXLINE];
    s := ServeLines(store, rio, buf, Pieces(fd.rest, 8191));
  }

  // ---------- what a client can rely on ----------

  /** A line that a well-behaved client sends for r: its printed words, with any blanks around and
      between them, ended by the line's only newline. */
  ghost predicate LineFor(line: string, r: Request) {
    && LineWithin(line, MAXLINE - 1) && '\0' !in line
    && exists gaps :: Gaps(Spelling(r), gaps) && line == Lay(Spelling(r), gaps)
  }

  /** All replies of the sequential run. */
  ghost function Replies(m: Holdings, rs: seq<Request>): string {
    if rs == [] then "" else Replies(m, rs[..|rs| - 1]) + Serve(ServeAll(m, rs[..|rs| - 1]), rs[|rs| - 1]).1
  }

  lemma LineIsUnderstood(line: string, r: Request)
    requires LineFor(line, r) && r.Valid()
    ensures Understood(line) == Some(r)
  {
    var gaps :| Gaps(Spelling(r), gaps) && line == Lay(Spelling(r), gaps);
    ParseInvertsPrint(r, gaps, line);
  }

  lemma ConverseOn(m: Holdings, lines: seq<string>, r: Request, done: string)
    requires lines != [] && Understood(lines[0]) == Some(r) && r != Exit && RequestFits(m, r)
    ensures var (m', reply) := Serve(m, r);
      && (ConversationFits(m', lines[1..]) ==> ConversationFits(m, lines))
      && Converse(m, lines).0 == Converse(m', lines[1..]).0
      && done + Converse(m, lines).1 == (done + reply) + Converse(m', lines[1..]).1
  {
    hide Understood, Serve, RequestFits;
    var (m', reply) := Serve(m, r);
    var more := Converse(m', lines[1..]).1;
    assert done + (reply + more) == (done + reply) + more;
  }

  lemma OneMore(m: Holdings, rs: seq<Request>, k: nat)
    requires k < |rs|
    ensures ServeAll(m, rs[..k + 1]) == Serve(ServeAll(m, rs[..k]), rs[k]).0
    ensures Replies(m, rs[..k + 1]) == Replies(m, rs[..k]) + Serve(ServeAll(m, rs[..k]), rs[k]).1
  {
    assert rs[..k + 1][..k] == rs[..k];
  }

  /** From the k-th line on, the conversation goes the way of the sequential run. */
  lemma {:induction false} ConverseFrom(m: Holdings, lines: seq<string>, rs: seq<Request>, k: nat)
    requires |lines| == |rs| && AllFit(m, rs) && k <= |rs|
    requires forall i :: 0 <= i < |rs| ==> LineFor(lines[i], rs[i]) && rs[i] != Exit
    ensures var now := ServeAll(m, rs[..k]);
      && ConversationFits(now, lines[k..])
      && Converse(now, lines[k..]).0 == ServeAll(m, rs)
      && Replies(m, rs[..k]) + Converse(now, lines[k..]).1 == Replies(m, rs)
    decreases |rs| - k
  {
    hide LineFor, Understood, Serve, RequestFits;
    if k == |rs| {
      assert rs[..k] == rs;
      assert Replies(m, rs) + "" == Replies(m, rs);
    } else {
      hide ServeAll, Replies, Converse, ConversationFits;
      LineIsUnderstood(lines[k], rs[k]);
      OneMore(m, rs, k);
      ConverseOn(ServeAll(m, rs[..k]), lines[k..], rs[k], Replies(m, rs[..k]));
      assert lines[k..][0] == lines[k] && lines[k..][1..] == lines[k + 1..];
      ConverseFrom(m, lines, rs, k + 1);
    }
  }

  lemma AllLinesWithin(lines: seq<string>, rs: seq<Request>)
    requires |lines| == |rs| && forall i :: 0 <= i < |rs| ==> LineFor(lines[i], rs[i])
    ensures forall l :: l in lines ==> LineWithin(l, MAXLINE - 1)
  {
    forall l | l in lines ensures LineWithin(l, MAXLINE - 1) {
      var i :| 0 <= i < |lines| && lines[i] == l;
      assert LineFor(lines[i], rs[i]);
    }
  }

  /** A client that sends any valid requests, one line each, is served as the sequential run serves
      them, whatever blanks it uses and however its bytes are cut up on the way. */
  lemma PrintedRequestsAreServed(m: Holdings, lines: seq<string>, rs: seq<Request>)
    requires |lines| == |rs| && AllFit(m, rs)
    requires forall i :: 0 <= i < |rs| ==> LineFor(lines[i], rs[i]) && rs[i] != Exit
    ensures ConversationFits(m, Pieces(Concat(lines), 8191))
    ensures Converse(m, Pieces(Concat(lines), 8191)) == (ServeAll(m, rs), Replies(m, rs))
  {
    AllLinesWithin(lines, rs);
    PiecesOfLines(lines, MAXLINE - 1);
    ConverseFrom(m, lines, rs, 0);
    assert rs[..0] == [] && lines[0..] == lines;
    assert "" + Converse(m, lines).1 == Converse(m, lines).1;
  }

  // ---------- conversations, written out ----------

  /** One line: served if it is understood, refused if not. */
  lemma AnswerMeans(m: Holdings, line: string)
    ensures Understood(line) == None ==> Answer(m, line) == (m, "invalid command\n")
    ensures forall r :: Understood(line) == Some(r) ==> Answer(m, line) == Serve(m, r)
  {
  }

  lemma OneLineConverse(m: Holdings, line: string)
    ensures Converse(m, [line]) == Answer(m, line)
  {
    hide Understood, Answer;
    var (m', reply) := Answer(m, line);
    assert [line][1..] == [] && reply + "" == reply;
  }

  /** A conversation up to its first exit, and what comes after it makes no difference. */
  lemma {:induction false} ConverseMeans(m: Holdings, lines: seq<string>, k: nat)
    requires k <= |lines| && forall i :: 0 <= i < k ==> Understood(lines[i]) != Some(Exit)
    ensures var (now, sent) := Converse(m, lines[..k]);
      && (k == |lines| ==> Converse(m, lines) == (now, sent))
      && (k < |lines| && Understood(lines[k]) == Some(Exit) ==> Converse(m, lines) == (now, sent + "success\n"))
      && (k < |lines| ==>
           Converse(m, lines[..k + 1]) == (Answer(now, lines[k]).0, sent + Answer(now, lines[k]).1))
    decreases k
  {
    hide Understood, Serve;
    if k == 0 {
      assert lines[..0] == [];
      if lines != [] {
        assert lines[..1] == [lines[0]];
        OneLineConverse(m, lines[0]);
        assert "" + Answer(m, lines[0]).1 == Answer(m, lines[0]).1;
        if Understood(lines[0]) == Some(Exit) { ExitMeans(m); }
      }
    } else {
      var (m1, first) := Answer(m, lines[0]);
      ConverseMeans(m1, lines[1..], k - 1);
      assert lines[..k][0] == lines[0] && lines[..k][1..] == lines[1..][..k - 1];
      if k < |lines| { assert lines[..k + 1][0] == lines[0] && lines[..k + 1][1..] == lines[1..][..k]; }
      var (now, sent) := Converse(m1, lines[1..][..k - 1]);
      hide Answer, Converse;
      if k < |lines| {
        Joined(first, sent, Answer(now, lines[k]).1);
        Joined(first, sent, "success\n");
      }
    }
  }
}
