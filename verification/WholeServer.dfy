/** The running server: the workers of the pool, each serving its connection by steps on the shared
    store. It shows that a session leaves the store as serving its requests one by one does, that each
    connection gets the replies to its own lines, and that the shutdown ends. */
module WholeServer {
  import opened Text
  import opened Stock
  import P = Pool
  import L = LockedStore
  import opened Sessions

  datatype Server = Server(pool: P.Pool, store: L.Machine)

  /** The lines of each connection's stream, in the order in which the connections are taken. */
  type Talk = nat -> seq<string>

  /** The number of requests on each connection. */
  ghost function Work(talk: Talk): nat -> nat { (j: nat) => |RequestsIn(talk(j))| }

  /** Worker i has a connection with requests to come or under way. */
  predicate Busy(pool: P.Pool, i: nat) {
    i < |pool.workers| && pool.workers[i].Serving? && pool.workers[i].left > 0
  }

  function Last(rs: seq<Request>, n: int): seq<Request> {
    if 0 <= n <= |rs| then rs[|rs| - n..] else []
  }

  /** The requests that a worker will still hear on the connection it has taken. The one under way has
      been heard, but is counted off only when its reply is written. */
  ghost function ToCome(w: P.Worker, pc: L.Pc, talk: Talk): seq<Request> {
    match w
    case Serving(_, j, left) => Last(RequestsIn(talk(j)), if pc.Idle? then left else left - 1)
    case w =>
      if P.HasTaken(w) && w.v != P.STOP then RequestsIn(talk(w.j)) else []
  }

  ghost function NextRequest(w: Server, i: nat, talk: Talk): Request {
    if i < |w.pool.workers| && i < |w.store.pcs| && ToCome(w.pool.workers[i], w.store.pcs[i], talk) != []
    then ToCome(w.pool.workers[i], w.store.pcs[i], talk)[0]
    else Exit
  }

  /** A busy worker steps in the store, hears the next request of its own connection when it is idle,
      and counts it off when it has written the reply; every other step is the pool's. */
  ghost predicate Next(w: Server, w': Server, a: P.Actor, talk: Talk) {
    if a.Nth? && Busy(w.pool, a.i) then
      && L.Next(w.store, w'.store, a.i, NextRequest(w, a.i, talk))
      && if a.i < |w.store.pcs| && w.store.pcs[a.i].Replying? then P.Next(w.pool, w'.pool, a, Work(talk))
         else w'.pool == w.pool
    else P.Next(w.pool, w'.pool, a, Work(talk)) && w'.store == w.store
  }

  ghost predicate Init(w: Server, start: Holdings, k: nat) {
    P.Init(w.pool, k) && L.Init(w.store, start) && |w.store.pcs| == k
  }

  /** Whoever is not busy is not in a request. */
  ghost predicate Inv(w: Server, start: Holdings) {
    && P.Inv(w.pool) && L.Inv(w.store, start) && |w.store.pcs| == |w.pool.workers|
    && forall i :: 0 <= i < |w.store.pcs| ==> Busy(w.pool, i) || w.store.pcs[i].Idle?
  }

  lemma InitInv(w: Server, start: Holdings, k: nat)
    requires Init(w, start, k)
    ensures Inv(w, start)
  {
    hide P.Inv, L.Inv;
    P.InitInv(w.pool, k);
    L.InitInv(w.store, start);
  }

  lemma PoolStep(s: P.Pool, t: P.Pool, a: P.Actor, work: nat -> nat)
    requires P.Inv(s) && P.Next(s, t, a, work)
    ensures |t.workers| == |s.workers|
    ensures forall i :: 0 <= i < |s.workers| && a != P.Nth(i) ==> t.workers[i] == s.workers[i]
  {
    P.IndexesInRange(s);
  }

  lemma StoreStep(s: L.Machine, t: L.Machine, i: nat, r: Request, start: Holdings)
    requires L.Inv(s, start) && L.Next(s, t, i, r)
    ensures |t.pcs| == |s.pcs| && i < |s.pcs|
    ensures forall l :: 0 <= l < |s.pcs| && l != i ==> t.pcs[l] == s.pcs[l]
    ensures t.pcs[i].Idle? <==> s.pcs[i].Replying?
    ensures forall q :: q in L.Doing(t.pcs[i]) ==> q == r || q in L.Doing(s.pcs[i])
    ensures t.log == s.log
      || exists q, reply :: t.log == s.log + [L.Entry(i, q, reply)] && (q == r || q in L.Doing(s.pcs[i]))
  {
    hide Serve, L.Work, L.Sequential;
    assert L.Agrees(s.pcs[i], s.memory, L.Committed(start, s.log));
    L.AgreesIsSafe(s.pcs[i], s.memory, L.Committed(start, s.log));
    if L.Working(s.pcs[i]) {
      L.WorkSameRequest(s.memory, s.pcs[i]);
      L.WorkAgrees(s.memory, s.pcs[i], L.Committed(start, s.log));
    }
    if t.log != s.log { assert t.log == s.log + [t.log[|s.log|]]; }
  }

  lemma InvKept(w: Server, w': Server, a: P.Actor, talk: Talk, start: Holdings)
    requires Inv(w, start) && Next(w, w', a, talk)
    ensures Inv(w', start) && |w'.pool.workers| == |w.pool.workers|
  {
    hide P.Inv, L.Inv, L.Next, P.Next;
    if w'.pool != w.pool || !(a.Nth? && Busy(w.pool, a.i)) {
      P.InvKept(w.pool, w'.pool, a, Work(talk));
      PoolStep(w.pool, w'.pool, a, Work(talk));
    }
    if a.Nth? && Busy(w.pool, a.i) {
      L.InvKept(w.store, w'.store, a.i, NextRequest(w, a.i, talk), start);
      StoreStep(w.store, w'.store, a.i, NextRequest(w, a.i, talk), start);
    }
  }

  // ---------- who hears what ----------

  /** The requests on the connections that worker i has taken, in the order of the takes. */
  ghost function AllOf(took: seq<int>, takers: seq<nat>, talk: Talk, i: nat): seq<Request>
    requires |took| == |takers|
  {
    if took == [] then [] else
      var n := |took| - 1;
      AllOf(took[..n], takers[..n], talk, i) +
        if takers[n] == i && took[n] != P.STOP then RequestsIn(talk(n)) else []
  }

  lemma AllOfStep(took: seq<int>, takers: seq<nat>, talk: Talk, i: nat, v: int, l: nat)
    requires |took| == |takers|
    ensures AllOf(took + [v], takers + [l], talk, i) ==
      AllOf(took, takers, talk, i) + if l == i && v != P.STOP then RequestsIn(talk(|took|)) else []
  {
    assert (took + [v])[..|took|] == took && (takers + [l])[..|took|] == takers;
  }

  ghost predicate HeardBy(w: Server, talk: Talk, i: nat)
    requires i < |w.pool.workers| && i < |w.store.pcs| && i < |w.store.asked| && |w.pool.took| == |w.pool.takers|
  {
    && w.store.asked[i] + ToCome(w.pool.workers[i], w.store.pcs[i], talk) == AllOf(w.pool.took, w.pool.takers, talk, i)
    && (w.pool.workers[i].Serving? ==> w.pool.workers[i].left <= |RequestsIn(talk(w.pool.workers[i].j))|)
  }

  /** What a worker has heard and will hear is what its connections say, one after the other. */
  ghost predicate Heard(w: Server, talk: Talk) {
    && |w.pool.workers| == |w.store.pcs| == |w.store.asked| && |w.pool.took| == |w.pool.takers|
    && forall i :: 0 <= i < |w.pool.workers| ==> HeardBy(w, talk, i)
  }

  lemma InitHeard(w: Server, start: Holdings, k: nat, talk: Talk)
    requires Init(w, start, k)
    ensures Heard(w, talk)
  {
  }

  /** A pool step of a worker that is in no request: what it takes is to come, and nothing else changes. */
  lemma PoolHears(w: Server, w': Server, i: nat, talk: Talk)
    requires P.Inv(w.pool) && P.Next(w.pool, w'.pool, P.Nth(i), Work(talk)) && w'.store == w.store
    requires !Busy(w.pool, i) && Heard(w, talk) && i < |w.store.pcs| && w.store.pcs[i].Idle?
    ensures Heard(w', talk)
  {
    hide P.MainOk, P.Counts, P.Places, P.CellsHold, P.PillsLast, P.AcceptedPut, P.PillEach, P.LeftByPill, P.LiveCount;
    hide AllOf, RequestsIn;
    P.IndexesInRange(w.pool);
    var s := w.pool;
    if s.workers[i].TakeCell? {
      forall l: nat ensures
        AllOf(w'.pool.took, w'.pool.takers, talk, l) ==
          AllOf(s.took, s.takers, talk, l) +
          if i == l && s.cells[s.front] != P.STOP then RequestsIn(talk(|s.took|)) else []
      {
        AllOfStep(s.took, s.takers, talk, l, s.cells[s.front], i);
      }
    }
    forall l | 0 <= l < |w'.pool.workers| ensures HeardBy(w', talk, l) { assert HeardBy(w, talk, l); }
  }

  lemma MainHears(w: Server, w': Server, fd: int, talk: Talk)
    requires P.Inv(w.pool) && P.Next(w.pool, w'.pool, P.Main(fd), Work(talk)) && w'.store == w.store && Heard(w, talk)
    ensures Heard(w', talk)
  {
    hide P.MainOk, P.Counts, P.Places, P.CellsHold, P.PillsLast, P.AcceptedPut, P.PillEach, P.LeftByPill, P.LiveCount;
    hide AllOf, RequestsIn, ToCome;
    P.IndexesInRange(w.pool);
    forall l | 0 <= l < |w'.pool.workers| ensures HeardBy(w', talk, l) { assert HeardBy(w, talk, l); }
  }

  lemma CountedOff(s: P.Pool, t: P.Pool, i: nat, work: nat -> nat)
    requires P.Next(s, t, P.Nth(i), work) && Busy(s, i)
    ensures var w := s.workers[i];
      t == s.(workers := s.workers[i := P.Serving(w.v, w.j, w.left - 1)])
  {
  }

  /** What is to come for a busy worker whose store step, and counting off, these are. */
  lemma OneRequestHeard(worker: P.Worker, worker': P.Worker, pc: L.Pc, pc': L.Pc, talk: Talk)
    requires worker.Serving? && 0 < worker.left <= |RequestsIn(talk(worker.j))|
    requires pc'.Idle? <==> pc.Replying?
    requires worker' == if pc.Replying? then P.Serving(worker.v, worker.j, worker.left - 1) else worker
    ensures var before, after := ToCome(worker, pc, talk), ToCome(worker', pc', talk);
      if pc.Idle? then before != [] && before == [before[0]] + after else after == before
  {
    hide RequestsIn;
  }

  /** A store step: an idle worker hears the first of what is to come. */
  lemma StoreHears(w: Server, w': Server, i: nat, talk: Talk, start: Holdings)
    requires Inv(w, start) && Next(w, w', P.Nth(i), talk) && Busy(w.pool, i) && Heard(w, talk)
    ensures Heard(w', talk)
  {
    hide L.Inv, P.Inv, L.Next, P.Next, AllOf, RequestsIn, ToCome;
    var r := NextRequest(w, i, talk);
    L.StepRecords(w.store, w'.store, i, r, start);
    StoreStep(w.store, w'.store, i, r, start);
    if w.store.pcs[i].Replying? { CountedOff(w.pool, w'.pool, i, Work(talk)); }
    assert HeardBy(w, talk, i);
    OneRequestHeard(w.pool.workers[i], w'.pool.workers[i], w.store.pcs[i], w'.store.pcs[i], talk);
    forall l | 0 <= l < |w'.pool.workers| ensures HeardBy(w', talk, l) { assert HeardBy(w, talk, l); }
  }

  lemma EnabledWorker(s: P.Pool, t: P.Pool, i: nat, work: nat -> nat)
    requires P.Next(s, t, P.Nth(i), work)
    ensures i < |s.workers|
  {
  }

  lemma HeardKept(w: Server, w': Server, a: P.Actor, talk: Talk, start: Holdings)
    requires Inv(w, start) && Next(w, w', a, talk) && Heard(w, talk)
    ensures Heard(w', talk)
  {
    hide P.Inv, L.Inv, L.Next, P.Next, Heard;
    match a
    case Main(fd) => MainHears(w, w', fd, talk);
    case Nth(i) =>
      if Busy(w.pool, i) {
        StoreHears(w, w', i, talk, start);
      } else {
        EnabledWorker(w.pool, w'.pool, i, Work(talk));
        PoolHears(w, w', i, talk);
      }
  }

  // ---------- whole runs ----------

  ghost predicate Steps(states: seq<Server>, turns: seq<P.Actor>, talk: Talk) {
    && |states| == |turns| + 1
    && forall n :: 0 <= n < |turns| ==> Next(states[n], states[n + 1], turns[n], talk)
  }

  ghost predicate ValidDoing(pc: L.Pc) { forall q :: q in L.Doing(pc) ==> q.Valid() }

  /** All requests under way or logged are ones that validate_request lets through. */
  ghost predicate AllValid(s: L.Machine) {
    && (forall e :: e in s.log ==> e.r.Valid())
    && (forall i :: 0 <= i < |s.pcs| ==> ValidDoing(s.pcs[i]))
  }

  lemma NextRequestValid(w: Server, i: nat, talk: Talk)
    ensures NextRequest(w, i, talk).Valid()
  {
    hide RequestsIn;
    if i < |w.pool.workers| && i < |w.store.pcs| {
      var worker := w.pool.workers[i];
      if P.HasTaken(worker) { RequestsInValid(talk(worker.j)); }
    }
  }

  lemma AllValidKept(w: Server, w': Server, a: P.Actor, talk: Talk, start: Holdings)
    requires Inv(w, start) && Next(w, w', a, talk) && AllValid(w.store)
    ensures AllValid(w'.store)
  {
    hide P.Inv, L.Inv, L.Next, P.Next, L.Doing, NextRequest;
    if a.Nth? && Busy(w.pool, a.i) {
      NextRequestValid(w, a.i, talk);
      StoreStep(w.store, w'.store, a.i, NextRequest(w, a.i, talk), start);
      assert ValidDoing(w.store.pcs[a.i]);
    }
  }

  lemma {:induction false} RunKeeps(states: seq<Server>, turns: seq<P.Actor>, start: Holdings, k: nat,
                                    talk: Talk, n: nat)
    requires Steps(states, turns, talk) && Init(states[0], start, k) && n < |states|
    ensures Inv(states[n], start) && |states[n].pool.workers| == k
    ensures Heard(states[n], talk) && AllValid(states[n].store)
  {
    hide Inv, Next, Heard, P.Inv, L.Inv;
    if n == 0 {
      InitInv(states[0], start, k);
      InitHeard(states[0], start, k, talk);
    } else {
      RunKeeps(states, turns, start, k, talk, n - 1);
      var w, w', a := states[n - 1], states[n], turns[n - 1];
      InvKept(w, w', a, talk, start);
      HeardKept(w, w', a, talk, start);
      AllValidKept(w, w', a, talk, start);
    }
  }

  /** No sell of the log passed INT_MAX. */
  ghost predicate SellsFit(start: Holdings, log: seq<L.Entry>) {
    forall j :: 0 <= j < |log| ==> RequestFits(L.Committed(start, log[..j]), log[j].r)
  }

  lemma {:induction false} RequestsPrefix(log: seq<L.Entry>, j: nat)
    requires j <= |log|
    ensures L.Requests(log[..j]) == L.Requests(log)[..j]
  {
    forall i | 0 <= i < j ensures L.Requests(log[..j])[i] == L.Requests(log)[i] { }
  }

  lemma LogFits(start: Holdings, s: L.Machine)
    requires SellsFit(start, s.log) && AllValid(s)
    ensures AllFit(start, L.Requests(s.log))
  {
    hide RequestFits, ServeAll, ValidDoing;
    var log, rs := s.log, L.Requests(s.log);
    forall j | 0 <= j < |rs| ensures rs[j].Valid() && RequestFits(ServeAll(start, rs[..j]), rs[j]) {
      RequestsPrefix(log, j);
      assert log[j] in log;
    }
  }

  // ---------- what a session leaves ----------

  /** Where stop_workers has returned. */
  lemma Rested(w: Server, start: Holdings)
    requires Inv(w, start) && w.pool.main.Done?
    ensures P.Closed(w.pool) && |w.store.pcs| == |w.pool.workers| && w.store.mutex == None
    ensures forall i :: 0 <= i < |w.store.pcs| ==> w.store.pcs[i].Idle?
    ensures |w.store.asked| == |w.store.got| == |w.store.pcs|
    ensures forall i :: 0 <= i < |w.store.pcs| ==> w.store.asked[i] == L.RequestsOf(w.store.log, i)
    ensures forall i :: 0 <= i < |w.store.pcs| ==> w.store.got[i] == L.RepliesTo(w.store.log, i)
    ensures w.store.memory == ServeAll(start, L.Requests(w.store.log))
    ensures L.Sequential(start, w.store.log)
  {
    hide P.Inv, L.RequestsOf, L.RepliesTo, L.Sequential, L.Agrees, ServeAll;
    P.DoneIsClosed(w.pool);
    forall i | 0 <= i < |w.store.pcs| ensures w.store.pcs[i].Idle? {
      assert w.pool.workers[i].Exited?;
    }
  }

  /** Where the replies for the j-th connection begin among those of the worker that took it. */
  ghost function Offset(w: Server, talk: Talk, j: nat): nat
    requires j < |w.pool.took| == |w.pool.takers|
  {
    |AllOf(w.pool.took[..j], w.pool.takers[..j], talk, w.pool.takers[j])|
  }

  /** The j-th connection was served by the worker that took it: the requests logged for that worker
      have, in one piece, exactly the requests among the connection's lines, and the replies logged
      for these are what the worker wrote. */
  ghost predicate ConnectionServed(w: Server, talk: Talk, j: nat) {
    && j < |w.pool.took| == |w.pool.takers|
    && var i, from, n := w.pool.takers[j], Offset(w, talk, j), |RequestsIn(talk(j))|;
    && i < |w.store.got| && from + n <= |w.store.got[i]| == |L.RequestsOf(w.store.log, i)|
    && L.RequestsOf(w.store.log, i)[from..from + n] == RequestsIn(talk(j))
    && w.store.got[i] == L.RepliesTo(w.store.log, i)
  }

  /** What the j-th connection is sent. */
  ghost function SentTo(w: Server, talk: Talk, j: nat): string
    requires ConnectionServed(w, talk, j)
  {
    var i, from := w.pool.takers[j], Offset(w, talk, j);
    Transcript(talk(j), w.store.got[i][from..from + |RequestsIn(talk(j))|])
  }

  lemma {:induction false} AllOfPart(took: seq<int>, takers: seq<nat>, talk: Talk, j: nat)
    requires j < |took| == |takers| && took[j] != P.STOP
    ensures var i := takers[j]; var from, n := |AllOf(took[..j], takers[..j], talk, i)|, |RequestsIn(talk(j))|;
      && from + n <= |AllOf(took, takers, talk, i)|
      && AllOf(took, takers, talk, i)[from..from + n] == RequestsIn(talk(j))
  {
    hide RequestsIn;
    var n, i := |took| - 1, takers[j];
    var early := AllOf(took[..n], takers[..n], talk, i);
    if j < n {
      assert took[..n][..j] == took[..j] && takers[..n][..j] == takers[..j];
      AllOfPart(took[..n], takers[..n], talk, j);
      var from, k := |AllOf(took[..j], takers[..j], talk, i)|, |RequestsIn(talk(j))|;
      assert AllOf(took, takers, talk, i)[..|early|] == early;
      assert AllOf(took, takers, talk, i)[from..from + k] == early[from..from + k];
    } else {
      assert AllOf(took, takers, talk, i) == early + RequestsIn(talk(j));
    }
  }

  lemma {:induction false} SameLength(log: seq<L.Entry>, i: nat)
    ensures |L.RequestsOf(log, i)| == |L.RepliesTo(log, i)|
  {
    if log != [] { SameLength(log[..|log| - 1], i); }
  }

  lemma AllHeard(w: Server, talk: Talk, i: nat)
    requires Heard(w, talk) && i < |w.pool.workers| && w.pool.workers[i].Exited?
    ensures i < |w.store.asked| && |w.pool.took| == |w.pool.takers|
    ensures w.store.asked[i] == AllOf(w.pool.took, w.pool.takers, talk, i)
  {
    hide AllOf;
    assert HeardBy(w, talk, i);
  }

  lemma TakenByWorker(s: P.Pool, j: nat)
    requires P.Inv(s) && P.Closed(s) && s.main.Done? && j < |s.accepted|
    ensures j < |s.took| == |s.takers| && s.takers[j] < |s.workers| && s.took[j] != P.STOP
  {
  }

  lemma PieceServed(w: Server, talk: Talk, j: nat)
    requires j < |w.pool.took| == |w.pool.takers| && w.pool.took[j] != P.STOP && w.pool.takers[j] < |w.store.got|
    requires var i := w.pool.takers[j];
      && L.RequestsOf(w.store.log, i) == AllOf(w.pool.took, w.pool.takers, talk, i)
      && w.store.got[i] == L.RepliesTo(w.store.log, i)
    ensures ConnectionServed(w, talk, j)
  {
    hide L.RequestsOf, L.RepliesTo, AllOf, RequestsIn;
    AllOfPart(w.pool.took, w.pool.takers, talk, j);
    SameLength(w.store.log, w.pool.takers[j]);
  }

  lemma OneServed(w: Server, start: Holdings, talk: Talk, j: nat)
    requires Inv(w, start) && Heard(w, talk) && w.pool.main.Done? && j < |w.pool.accepted|
    ensures ConnectionServed(w, talk, j)
  {
    Rested(w, start);
    TakenByWorker(w.pool, j);
    var i := w.pool.takers[j];
    assert w.pool.workers[i].Exited?;
    hide P.Inv, L.Inv, L.RequestsOf, L.RepliesTo, AllOf, RequestsIn, L.Sequential, P.Closed, ServeAll;
    hide ConnectionServed, Heard;
    AllHeard(w, talk, i);
    PieceServed(w, talk, j);
  }

  ghost predicate EveryConnectionServed(w: Server, talk: Talk) {
    forall j: nat :: j < |w.pool.accepted| ==> ConnectionServed(w, talk, j)
  }

  lemma AllServed(w: Server, start: Holdings, talk: Talk)
    requires Inv(w, start) && Heard(w, talk) && w.pool.main.Done?
    ensures EveryConnectionServed(w, talk)
  {
    hide Inv, Heard, ConnectionServed;
    forall j: nat | j < |w.pool.accepted| ensures ConnectionServed(w, talk, j) { OneServed(w, start, talk, j); }
  }

  /** The descriptors that accept has returned in the first n steps. */
  ghost function Got(states: seq<Server>, turns: seq<P.Actor>, n: nat): seq<int>
    requires |states| == |turns| + 1 && n < |states|
  {
    if n == 0 then [] else
      var a := turns[n - 1];
      Got(states, turns, n - 1) +
        if a.Main? && a.fd >= 0 && states[n - 1].pool.main.Accepting? then [a.fd] else []
  }

  lemma AcceptedGrows(w: Server, w': Server, a: P.Actor, talk: Talk, start: Holdings)
    requires Inv(w, start) && Next(w, w', a, talk)
    ensures w'.pool.accepted ==
      w.pool.accepted + if a.Main? && a.fd >= 0 && w.pool.main.Accepting? then [a.fd] else []
  {
    hide P.Inv, L.Inv, L.Next, P.Next;
    if w'.pool != w.pool || !(a.Nth? && Busy(w.pool, a.i)) {
      P.AcceptedGrows(w.pool, w'.pool, a, Work(talk));
    }
  }

  lemma {:induction false} AcceptedIsGot(states: seq<Server>, turns: seq<P.Actor>, start: Holdings, k: nat,
                                         talk: Talk, n: nat)
    requires Steps(states, turns, talk) && Init(states[0], start, k) && n < |states|
    ensures states[n].pool.accepted == Got(states, turns, n)
  {
    hide Inv, Next, Heard, AllValid;
    if n > 0 {
      AcceptedIsGot(states, turns, start, k, talk, n - 1);
      RunKeeps(states, turns, start, k, talk, n - 1);
      AcceptedGrows(states[n - 1], states[n], turns[n - 1], talk, start);
    }
  }

  /** What a session is, from the creation of the workers to the return of stop_workers. The pool is
      closed and every worker at rest, which is what materialize needs. Every connection that accept
      returned was served: it got the replies logged for exactly the requests among its own lines. These replies
      are the sequential ones in lock order, and the store is what those requests make of it, as
      Sessions.ServeSession assumes. */
  lemma SessionServed(states: seq<Server>, turns: seq<P.Actor>, start: Holdings, k: nat, talk: Talk)
    requires Steps(states, turns, talk) && Init(states[0], start, k)
    requires states[|turns|].pool.main.Done?
    ensures var w := states[|turns|]; var rs := L.Requests(w.store.log);
      && P.Closed(w.pool) && |w.pool.workers| == k == |w.store.pcs| && w.store.mutex == None
      && (forall i :: 0 <= i < k ==> w.store.pcs[i].Idle?)
      && w.pool.accepted == Got(states, turns, |turns|) && EveryConnectionServed(w, talk)
      && L.Sequential(start, w.store.log) && w.store.memory == ServeAll(start, rs)
    ensures var w := states[|turns|]; var rs := L.Requests(w.store.log);
      SellsFit(start, w.store.log) ==>
        AllFit(start, rs) && w.store.memory == ServeAll(start, Fitting(start, rs))
  {
    hide P.Closed, Init, Next, Heard, Inv, Got, EveryConnectionServed, SellsFit, AllValid, L.Sequential, ServeAll;
    RunKeeps(states, turns, start, k, talk, |turns|);
    var w := states[|turns|];
    Rested(w, start);
    AllServed(w, start, talk);
    AcceptedIsGot(states, turns, start, k, talk, |turns|);
    if SellsFit(start, w.store.log) {
      LogFits(start, w.store);
      FittingAll(start, L.Requests(w.store.log));
    }
  }

  // ---------- progress ----------

  predicate Enabled(w: Server, a: P.Actor) {
    if a.Nth? && Busy(w.pool, a.i) then L.Enabled(w.store, a.i) else P.Enabled(w.pool, a)
  }

  /** The mutex and the pool's semaphores together do not deadlock either. */
  lemma DeadlockFree(w: Server, start: Holdings) returns (a: P.Actor)
    requires Inv(w, start) && !w.pool.main.Done?
    ensures Enabled(w, a)
  {
    hide P.Inv, L.MemoryOk, L.Sequential;
    a := P.DeadlockFree(w.pool);
    if !Enabled(w, a) {
      a := P.Nth(w.store.mutex.value);
    }
  }

  // ---------- shutdown ends ----------

  /** The steps left in the requests under way, with n items in the store. */
  function StoreWeight(pcs: seq<L.Pc>, n: nat): nat {
    if pcs == [] then 0 else StoreWeight(pcs[..|pcs| - 1], n) + L.StepsLeft(n, pcs[|pcs| - 1])
  }

  lemma {:induction false} StoreWeightUpdate(pcs: seq<L.Pc>, i: nat, pc: L.Pc, n: nat)
    requires i < |pcs|
    ensures StoreWeight(pcs[i := pc], n) + L.StepsLeft(n, pcs[i]) == StoreWeight(pcs, n) + L.StepsLeft(n, pc)
  {
    var k := |pcs| - 1;
    if i == k {
      assert pcs[i := pc][..k] == pcs[..k];
    } else {
      assert pcs[i := pc][..k] == pcs[..k][i := pc];
      StoreWeightUpdate(pcs[..k], i, pc, n);
    }
  }

  /** How many steps the shutdown can still take at most: for each step of the pool, one whole request
      of the store. */
  ghost function Remaining(w: Server, talk: Talk): int
    requires P.Closing(w.pool.main)
  {
    var n := |w.store.memory|;
    (n + 9) * P.Remaining(w.pool, Work(talk)) + StoreWeight(w.store.pcs, n)
  }

  lemma {:induction false} Product(k: nat, a: int, b: int)
    requires a < b
    ensures k * a + k <= k * b
  {
    if k > 0 { Product(k - 1, a, b); }
  }

  lemma ClosingNotAccepting(m: P.MainPc)
    requires P.Closing(m)
    ensures !m.Accepting?
  {
  }

  lemma IdleIsFull(n: nat, pc: L.Pc)
    requires pc.Idle?
    ensures L.StepsLeft(n, pc) == n + 8
  {
  }

  lemma ShutdownShrinks(w: Server, w': Server, a: P.Actor, talk: Talk, start: Holdings)
    requires Inv(w, start) && Next(w, w', a, talk) && P.Closing(w.pool.main)
    ensures P.Closing(w'.pool.main)
    ensures Remaining(w', talk) < Remaining(w, talk)
  {
    hide P.Inv, L.Inv, L.Next, P.Next, P.Closing, P.Remaining, StoreWeight, L.StepsLeft, NextRequest;
    ClosingNotAccepting(w.pool.main);
    var n, work := |w.store.memory|, Work(talk);
    if !(a.Nth? && Busy(w.pool, a.i)) {
      P.ShutdownShrinks(w.pool, w'.pool, a, work);
      ClosingNotAccepting(w'.pool.main);
      Product(n + 9, P.Remaining(w'.pool, work), P.Remaining(w.pool, work));
    } else {
      var r := NextRequest(w, a.i, talk);
      L.StepShrinks(w.store, w'.store, a.i, r, start);
      StoreWeightUpdate(w.store.pcs, a.i, w'.store.pcs[a.i], n);
      if w.store.pcs[a.i].Replying? {
        P.ShutdownShrinks(w.pool, w'.pool, a, work);
        ClosingNotAccepting(w'.pool.main);
        Product(n + 9, P.Remaining(w'.pool, work), P.Remaining(w.pool, work));
        IdleIsFull(n, w'.store.pcs[a.i]);
      }
    }
  }

  lemma RemainingIsNatural(w: Server, talk: Talk)
    requires P.Inv(w.pool) && P.Closing(w.pool.main)
    ensures Remaining(w, talk) >= 0
  {
    hide P.Closing, P.Remaining;
    ClosingNotAccepting(w.pool.main);
    P.RemainingIsNatural(w.pool, Work(talk));
    assert (|w.store.memory| + 9) * P.Remaining(w.pool, Work(talk)) >= 0;
  }

  lemma {:induction false} RunShrinks(states: seq<Server>, turns: seq<P.Actor>, talk: Talk, start: Holdings, n: nat)
    requires Steps(states, turns, talk) && Inv(states[0], start) && P.Closing(states[0].pool.main) && n < |states|
    ensures Inv(states[n], start) && P.Closing(states[n].pool.main)
    ensures Remaining(states[n], talk) <= Remaining(states[0], talk) - n
  {
    hide Inv, Next, Remaining, P.Closing;
    if n > 0 {
      RunShrinks(states, turns, talk, start, n - 1);
      InvKept(states[n - 1], states[n], turns[n - 1], talk, start);
      ShutdownShrinks(states[n - 1], states[n], turns[n - 1], talk, start);
    }
  }

  lemma DoneStops(w: Server)
    requires P.Inv(w.pool) && w.pool.main.Done?
    ensures forall a :: !Enabled(w, a)
  {
    hide P.Counts, P.Places, P.CellsHold, P.PillsLast, P.AcceptedPut, P.PillEach, P.LeftByPill, P.LiveCount, P.Carries;
    forall a ensures !Enabled(w, a) { }
  }

  /** However the threads are scheduled, a closing server stops within the bound, waiting for the mutex
      and the walks of full shows included, and it stops only where stop_workers has returned. */
  lemma ShutdownEnds(states: seq<Server>, turns: seq<P.Actor>, talk: Talk, start: Holdings)
    requires Steps(states, turns, talk) && Inv(states[0], start) && P.Closing(states[0].pool.main)
    ensures |turns| <= Remaining(states[0], talk)
    ensures (forall a :: !Enabled(states[|turns|], a)) <==> states[|turns|].pool.main.Done?
  {
    hide Next, Remaining, P.Closing, P.Inv, L.Inv;
    RunShrinks(states, turns, talk, start, |turns|);
    var w := states[|turns|];
    RemainingIsNatural(w, talk);
    if w.pool.main.Done? {
      DoneStops(w);
    } else {
      var a := DeadlockFree(w, start);
    }
  }
}
