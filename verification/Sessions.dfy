/** What requests do to a store over any number of sessions, and one session on the live tree. */
module Sessions {
  import opened Text
  import opened Stock
  import opened Records
  import opened Store
  import opened Parser
  import opened Server

  // ---------- request sequences ----------

  lemma {:induction false} ServeAllAppend(m: Holdings, a: seq<Request>, b: seq<Request>)
    ensures ServeAll(m, a + b) == ServeAll(ServeAll(m, a), b)
    ensures AllFit(m, a) && AllFit(ServeAll(m, a), b) ==> AllFit(m, a + b)
  {
    if b == [] {
      assert a + b == a;
    } else {
      var front, last := b[..|b| - 1], b[|b| - 1];
      ServeAllAppend(m, a, front);
      assert a + b == (a + front) + [last];
      assert (a + b)[..|a + b| - 1] == a + front;
      if AllFit(m, a) && AllFit(ServeAll(m, a), b) {
        AllFitPrefix(ServeAll(m, a), b);
        assert last.Valid() && RequestFits(ServeAll(ServeAll(m, a), b[..|b| - 1]), b[|b| - 1]);
        forall i | 0 <= i < |a + b|
          ensures (a + b)[i].Valid() && RequestFits(ServeAll(m, (a + b)[..i]), (a + b)[i])
        {
          if i < |a + front| {
            assert (a + b)[..i] == (a + front)[..i] && (a + b)[i] == (a + front)[i];
          }
        }
      }
    }
  }

  /** The net stock that the answered requests moved: sells answered "success" minus buys
      answered "success". */
  ghost function NetSold(m: Holdings, rs: seq<Request>, id: int): int {
    if rs == [] then 0 else
      var front, r := rs[..|rs| - 1], rs[|rs| - 1];
      NetSold(m, front, id) +
      (if r.Sell? && r.id == id && Serve(ServeAll(m, front), r).1 == "success\n" then r.count
       else if r.Buy? && r.id == id && Serve(ServeAll(m, front), r).1 == "success\n" then -r.count
       else 0)
  }

  lemma FailureIsNotSuccess(s: Status)
    ensures FailureText(s) != "success\n"
  {
    var ok := "success\n";
    match s
    case Invalid => assert "invalid command\n"[0] != ok[0];
    case NotFound => assert "stock not found\n"[1] != ok[1];
    case Insufficient => assert "not enough left stock\n"[0] != ok[0];
    case _ => assert "internal error\n"[0] != ok[0];
  }

  /** Conservation: every stock is what it was, plus what the replies say was sold, minus what they
      say was bought. */
  lemma {:induction false} StockConserved(m: Holdings, rs: seq<Request>, id: int)
    requires GoodStore(m) && AllFit(m, rs) && id in m
    ensures id in ServeAll(m, rs)
    ensures ServeAll(m, rs)[id].stock == m[id].stock + NetSold(m, rs, id)
    ensures 0 <= ServeAll(m, rs)[id].stock <= INT_MAX
  {
    ServeAllKeepsGood(m, rs);
    var end := ServeAll(m, rs);
    assert Row(id, end[id].stock, end[id].price).Good();
    if rs != [] {
      AllFitPrefix(m, rs);
      StockConserved(m, rs[..|rs| - 1], id);
      var before, r := ServeAll(m, rs[..|rs| - 1]), rs[|rs| - 1];
      if r.Buy? || r.Sell? {
        FailureIsNotSuccess(ApplyDelta(before, r.id, if r.Buy? then -r.count else r.count).1);
      }
    }
  }

  lemma AllFitNothing(m: Holdings)
    ensures AllFit(m, []) && ServeAll(m, []) == m
  {
  }

  lemma OneMoreFits(m: Holdings, log: seq<Request>, r: Request)
    requires AllFit(m, log) && r.Valid() && RequestFits(ServeAll(m, log), r)
    ensures AllFit(m, log + [r]) && ServeAll(m, log + [r]) == Serve(ServeAll(m, log), r).0
  {
    var more := log + [r];
    assert more[..|log|] == log;
    forall i | 0 <= i < |more| ensures more[i].Valid() && RequestFits(ServeAll(m, more[..i]), more[i]) {
      if i < |log| { assert more[..i] == log[..i]; }
    }
  }

  // ---------- one connection ----------

  lemma SpelledIsValid(words: seq<string>, r: Request)
    requires Spells(words, r)
    ensures r.Valid()
  {
  }

  lemma AllFitOne(m: Holdings, r: Request)
    requires r.Valid() && RequestFits(m, r)
    ensures AllFit(m, [r]) && ServeAll(m, [r]) == Serve(m, r).0
  {
    assert [r][..0] == [];
  }

  /** The requests of a conversation: the lines that are understood, up to the first exit. */
  ghost function RequestsIn(lines: seq<string>): seq<Request> {
    if lines == [] then [] else
      match Understood(lines[0])
      case None => RequestsIn(lines[1..])
      case Some(r) => if r == Exit then [Exit] else [r] + RequestsIn(lines[1..])
  }

  /** Whatever bytes a client sends, what its conversation does to the store is what the requests
      among its lines do, and they are valid. */
  lemma {:induction false} ConversationIsRequests(m: Holdings, lines: seq<string>)
    requires ConversationFits(m, lines)
    ensures AllFit(m, RequestsIn(lines)) && Converse(m, lines).0 == ServeAll(m, RequestsIn(lines))
    decreases |lines|
  {
    hide Understood, Serve, RequestFits, AllFit, ServeAll;
    AllFitNothing(m);
    if lines != [] {
      match Understood(lines[0])
      case None =>
        ConversationIsRequests(m, lines[1..]);
      case Some(r) =>
        SpelledIsValid(Tokens(LocalCopy(lines[0])), r);
        AllFitOne(m, r);
        if r != Exit {
          ConversationIsRequests(Serve(m, r).0, lines[1..]);
          ServeAllAppend(m, [r], RequestsIn(lines[1..]));
        }
    }
  }

  lemma {:induction false} RequestsInValid(lines: seq<string>)
    ensures forall r :: r in RequestsIn(lines) ==> r.Valid()
  {
    hide Understood;
    if lines != [] {
      RequestsInValid(lines[1..]);
      match Understood(lines[0])
      case None =>
      case Some(r) => SpelledIsValid(Tokens(LocalCopy(lines[0])), r);
    }
  }

  /** What a client that sent the lines is sent when its requests get these replies: they, and for
      each line that is not understood the message that says so. */
  ghost function Transcript(lines: seq<string>, replies: seq<string>): string {
    if lines == [] then "" else
      match Understood(lines[0])
      case None => FailureText(Invalid) + Transcript(lines[1..], replies)
      case Some(r) =>
        if replies == [] then ""
        else if r == Exit then replies[0]
        else replies[0] + Transcript(lines[1..], replies[1..])
  }

  /** The replies to requests served alone, from m on. */
  ghost function Answers(m: Holdings, rs: seq<Request>): seq<string> {
    if rs == [] then [] else [Serve(m, rs[0]).1] + Answers(Serve(m, rs[0]).0, rs[1..])
  }

  /** A client served alone is sent the transcript of the replies to its requests. */
  lemma {:induction false} ConverseIsTranscript(m: Holdings, lines: seq<string>)
    ensures Converse(m, lines).1 == Transcript(lines, Answers(m, RequestsIn(lines)))
    decreases |lines|
  {
    hide Understood, Serve;
    if lines != [] {
      match Understood(lines[0])
      case None =>
        ConverseIsTranscript(m, lines[1..]);
      case Some(r) =>
        var rs := RequestsIn(lines);
        assert rs[0] == r;
        if r != Exit {
          assert rs[1..] == RequestsIn(lines[1..]);
          ConverseIsTranscript(Serve(m, r).0, lines[1..]);
        }
    }
  }

  // ---------- one session ----------

  /** The requests of a session that are carried out: all but invalid ones and, by assumption, sells
      that would pass INT_MAX. */
  ghost function Fitting(m: Holdings, rs: seq<Request>): seq<Request> {
    if rs == [] then [] else
      var early, r := Fitting(m, rs[..|rs| - 1]), rs[|rs| - 1];
      if r.Valid() && RequestFits(ServeAll(m, early), r) then early + [r] else early
  }

  lemma {:induction false} FittingFits(m: Holdings, rs: seq<Request>)
    ensures AllFit(m, Fitting(m, rs))
  {
    hide AllFit, ServeAll, Serve, RequestFits;
    AllFitNothing(m);
    if rs != [] {
      var early, r := Fitting(m, rs[..|rs| - 1]), rs[|rs| - 1];
      FittingFits(m, rs[..|rs| - 1]);
      if r.Valid() && RequestFits(ServeAll(m, early), r) { OneMoreFits(m, early, r); }
    }
  }

  lemma LastFits(m: Holdings, rs: seq<Request>)
    requires AllFit(m, rs) && rs != []
    ensures rs[|rs| - 1].Valid() && RequestFits(ServeAll(m, rs[..|rs| - 1]), rs[|rs| - 1])
  {
  }

  /** When all requests are valid and fit, all are carried out. */
  lemma {:induction false} FittingAll(m: Holdings, rs: seq<Request>)
    requires AllFit(m, rs)
    ensures Fitting(m, rs) == rs
  {
    hide AllFit, ServeAll, RequestFits;
    if rs != [] {
      var front, r := rs[..|rs| - 1], rs[|rs| - 1];
      AllFitPrefix(m, rs);
      LastFits(m, rs);
      FittingAll(m, front);
      assert rs == front + [r];
      assert Fitting(m, rs) == front + [r];
    }
  }

  lemma FittingStep(m: Holdings, rs: seq<Request>, i: nat)
    requires i < |rs|
    ensures var early := Fitting(m, rs[..i]);
      Fitting(m, rs[..i + 1]) ==
        if rs[i].Valid() && RequestFits(ServeAll(m, early), rs[i]) then early + [rs[i]] else early
  {
    assert rs[..i + 1][..i] == rs[..i];
  }

  lemma NoneFitting(m: Holdings, rs: seq<Request>)
    ensures Fitting(m, rs[..0]) == []
  {
  }

  method StillFits(store: StockStore, r: Request) returns (fits: bool)
    requires store.Valid()
    ensures fits <==> RequestFits(store.Contents(), r)
  {
    hide MapOf, Ascending;
    if !r.Sell? {
      return true;
    }
    var found, item := store.FindNolock(r.id);
    fits := found != Ok || item.stock + r.count <= INT_MAX;
  }

  lemma GoodBuyFits(m: Holdings, id: int, count: int)
    requires GoodStore(m) && count > 0
    ensures DeltaFits(m, id, -count)
  {
    if id in m { assert Row(id, m[id].stock, m[id].price).Good(); }
  }

  method CarryOut(store: StockStore, r: Request)
    requires store.Valid() && GoodStore(store.Contents()) && r.Valid() && RequestFits(store.Contents(), r)
    modifies store.Repr()
    ensures store.Valid() && fresh(store.Repr() - old(store.Repr()))
    ensures store.Contents() == Serve(old(store.Contents()), r).0
  {
    hide MapOf, Ascending;
    match r {
      case Buy(id, count) =>
        GoodBuyFits(store.Contents(), id, count);
        var s := store.ApplyDeltaNolock(id, -count);
      case Sell(id, count) =>
        var s := store.ApplyDeltaNolock(id, count);
      case _ =>
    }
  }

  /** The running server, as far as the store can tell: the requests of the session, one after the
      other (WholeServer says why), on the live tree. */
  method ServeSession(store: StockStore, rs: seq<Request>)
    requires store.Valid() && GoodStore(store.Contents())
    modifies store.Repr()
    ensures store.Valid() && fresh(store.Repr() - old(store.Repr())) && GoodStore(store.Contents())
    ensures store.Contents() == ServeAll(old(store.Contents()), Fitting(old(store.Contents()), rs))
  {
    hide MapOf, Ascending, Serve, ServeAll, AllFit, RequestFits, Fitting;
    ghost var start := store.Contents();
    ghost var log: seq<Request> := [];
    NoneFitting(start, rs);
    AllFitNothing(start);
    var i := 0;
    while i < |rs|
      invariant 0 <= i <= |rs| && log == Fitting(start, rs[..i])
      invariant store.Valid() && fresh(store.Repr() - old(store.Repr())) && GoodStore(store.Contents())
      invariant AllFit(start, log) && store.Contents() == ServeAll(start, log)
    {
      FittingStep(start, rs, i);
      var fits := StillFits(store, rs[i]);
      if rs[i].Valid() && fits {
        OneMoreFits(start, log, rs[i]);
        ServeKeepsGood(store.Contents(), rs[i]);
        CarryOut(store, rs[i]);
        log := log + [rs[i]];
      }
      i := i + 1;
    }
    assert rs[..i] == rs;
  }

  // ---------- many sessions ----------

  /** Session numbers below n, in ascending order. */
  ghost predicate Line(line: seq<nat>, n: nat) {
    && (forall i, j :: 0 <= i < j < |line| ==> line[i] < line[j])
    && (forall i :: 0 <= i < |line| ==> line[i] < n)
  }

  /** The requests carried out by the sessions of a line, each on the store that the one before it
      in the line left. */
  ghost function Played(start: Holdings, sessions: seq<seq<Request>>, line: seq<nat>): seq<Request>
    requires Line(line, |sessions|)
  {
    if line == [] then [] else
      var early := Played(start, sessions, line[..|line| - 1]);
      early + Fitting(ServeAll(start, early), sessions[line[|line| - 1]])
  }

  lemma {:induction false} PlayedFits(start: Holdings, sessions: seq<seq<Request>>, line: seq<nat>)
    requires Line(line, |sessions|)
    ensures AllFit(start, Played(start, sessions, line))
  {
    hide AllFit, ServeAll, Fitting;
    AllFitNothing(start);
    if line != [] {
      var early := Played(start, sessions, line[..|line| - 1]);
      var store := ServeAll(start, early);
      PlayedFits(start, sessions, line[..|line| - 1]);
      FittingFits(store, sessions[line[|line| - 1]]);
      ServeAllAppend(start, early, Fitting(store, sessions[line[|line| - 1]]));
    }
  }

  /** Later sessions do not change what a line played. */
  lemma {:induction false} PlayedStays(start: Holdings, sessions: seq<seq<Request>>, line: seq<nat>, rs: seq<Request>)
    requires Line(line, |sessions|)
    ensures Line(line, |sessions + [rs]|)
    ensures Played(start, sessions + [rs], line) == Played(start, sessions, line)
  {
    if line != [] {
      PlayedStays(start, sessions, line[..|line| - 1], rs);
      assert (sessions + [rs])[line[|line| - 1]] == sessions[line[|line| - 1]];
    }
  }

  lemma PlayedUnfold(start: Holdings, sessions: seq<seq<Request>>, line: seq<nat>, n: nat)
    requires Line(line, n) && n < |sessions|
    ensures Line(line + [n], |sessions|)
    ensures var early := Played(start, sessions, line);
      Played(start, sessions, line + [n]) == early + Fitting(ServeAll(start, early), sessions[n])
  {
    assert (line + [n])[..|line|] == line;
  }

  lemma PlayedOneMore(start: Holdings, sessions: seq<seq<Request>>, line: seq<nat>, rs: seq<Request>)
    requires Line(line, |sessions|)
    ensures var n := |sessions|; var before := ServeAll(start, Played(start, sessions, line));
      && Line(line + [n], n + 1)
      && ServeAll(start, Played(start, sessions + [rs], line + [n])) == ServeAll(before, Fitting(before, rs))
  {
    var n, early := |sessions|, Played(start, sessions, line);
    PlayedStays(start, sessions, line, rs);
    PlayedUnfold(start, sessions + [rs], line, n);
    ServeAllAppend(start, early, Fitting(ServeAll(start, early), rs));
  }

  /** The requests of the sessions of a line, filtered by nothing. */
  function LineRequests(sessions: seq<seq<Request>>, line: seq<nat>): seq<Request>
    requires Line(line, |sessions|)
  {
    if line == [] then [] else LineRequests(sessions, line[..|line| - 1]) + sessions[line[|line| - 1]]
  }

  function Flat(sessions: seq<seq<Request>>): seq<Request> {
    if sessions == [] then [] else Flat(sessions[..|sessions| - 1]) + sessions[|sessions| - 1]
  }

  lemma FitFront(m: Holdings, a: seq<Request>, b: seq<Request>)
    requires AllFit(m, a + b)
    ensures AllFit(m, a) && AllFit(ServeAll(m, a), b)
  {
    forall i | 0 <= i < |a| ensures a[i].Valid() && RequestFits(ServeAll(m, a[..i]), a[i]) {
      assert (a + b)[i] == a[i] && (a + b)[..i] == a[..i];
    }
    forall i | 0 <= i < |b| ensures b[i].Valid() && RequestFits(ServeAll(ServeAll(m, a), b[..i]), b[i]) {
      assert (a + b)[|a| + i] == b[i] && (a + b)[..|a| + i] == a + b[..i];
      ServeAllAppend(m, a, b[..i]);
    }
  }

  function Upto(n: nat): (line: seq<nat>) { seq(n, i requires 0 <= i < n => i) }

  /** A line that lacks no session is all of them. */
  lemma {:induction false} FullLine(line: seq<nat>, n: nat)
    requires Line(line, n) && forall i: nat :: i < n ==> i in line
    ensures line == Upto(n)
  {
    if n == 0 {
      assert line == [];
    } else {
      var top: nat := n - 1;
      assert top in line;
      var k :| 0 <= k < |line| && line[k] == top;
      assert line[|line| - 1] <= top;
      var front := line[..k];
      forall i: nat | i < n - 1 ensures i in front {
        assert i in line;
        var j :| 0 <= j < |line| && line[j] == i;
        assert front[j] == i;
      }
      FullLine(front, n - 1);
      assert line == front + [n - 1];
    }
  }

  /** When no sell of the line's sessions passes INT_MAX, the line carries out all of their requests. */
  lemma {:induction false} PlayedWhole(start: Holdings, sessions: seq<seq<Request>>, line: seq<nat>)
    requires Line(line, |sessions|) && AllFit(start, LineRequests(sessions, line))
    ensures Played(start, sessions, line) == LineRequests(sessions, line)
  {
    hide AllFit, ServeAll, Fitting;
    if line != [] {
      var front, last := line[..|line| - 1], sessions[line[|line| - 1]];
      FitFront(start, LineRequests(sessions, front), last);
      PlayedWhole(start, sessions, front);
      FittingAll(ServeAll(start, LineRequests(sessions, front)), last);
    }
  }

  lemma {:induction false} LineOfAll(sessions: seq<seq<Request>>, n: nat)
    requires n <= |sessions|
    ensures Line(Upto(n), |sessions|) && LineRequests(sessions, Upto(n)) == Flat(sessions[..n])
  {
    if n > 0 {
      LineOfAll(sessions, n - 1);
      assert Upto(n)[..n - 1] == Upto(n - 1);
      assert sessions[..n][..n - 1] == sessions[..n - 1];
    }
  }

  /** Playing every session in order is one session with all the requests. */
  lemma PlayedAll(start: Holdings, sessions: seq<seq<Request>>)
    requires AllFit(start, Flat(sessions))
    ensures Line(Upto(|sessions|), |sessions|)
    ensures Played(start, sessions, Upto(|sessions|)) == Flat(sessions)
  {
    LineOfAll(sessions, |sessions|);
    assert sessions[..|sessions|] == sessions;
    PlayedWhole(start, sessions, Upto(|sessions|));
  }
}
