/** The store as the workers share it: every worker's request runs in many small steps, those that
    touch the store between lock and unlock of one mutex. */
module LockedStore {
  import opened Text
  import opened Stock
  import Visitors

  /** Where one worker stands in its request: waiting for the mutex; about to look the item up; with
      the item found; past the check; with the stock loaded; `next` rows into the inorder walk; about
      to unlock; about to write the reply. */
  datatype Pc =
    | Idle
    | AwaitLock(r: Request)
    | Finding(r: Request)
    | Found(r: Request)
    | Checked(r: Request)
    | Loaded(r: Request, stock: int)
    | Walking(next: nat, text: string)
    | Unlocking(r: Request, text: string)
    | Replying(text: string)

  datatype Entry = Entry(worker: nat, r: Request, reply: string)

  /** `memory` is what the tree holds right now, half-done updates included. `asked` is what the clients
      of each worker have sent, `got` what they have been sent. `log` records the requests in the
      order in which they left the critical section (exit, which needs none, where it was answered). */
  datatype Machine = Machine(
    memory: Holdings, mutex: Option<nat>, pcs: seq<Pc>,
    asked: seq<seq<Request>>, got: seq<seq<string>>, log: seq<Entry>)

  function IdOf(r: Request): int {
    match r
    case ShowOne(id) => id
    case Buy(id, _) => id
    case Sell(id, _) => id
    case _ => 0
  }

  function DeltaOf(r: Request): int {
    match r
    case Buy(_, count) => -count
    case Sell(_, count) => count
    case _ => 0
  }

  predicate Enabled(s: Machine, i: nat) {
    i < |s.pcs| && i < |s.asked| && i < |s.got| && (s.pcs[i].AwaitLock? ==> s.mutex == None)
  }

  /** A step inside the critical section, before the unlock. */
  predicate Working(pc: Pc) { pc.Finding? || pc.Found? || pc.Checked? || pc.Loaded? || pc.Walking? }

  /** Steps that follow a pointer to an item need the item to be there. */
  predicate Safe(memory: Holdings, pc: Pc) {
    pc.Found? || pc.Checked? || pc.Loaded? ==> IdOf(pc.r) in memory
  }

  ghost function Work(memory: Holdings, pc: Pc): (Holdings, Pc)
    requires Working(pc) && Safe(memory, pc)
  {
    match pc
    case Finding(r) =>
      (memory, if IdOf(r) in memory then Found(r) else Unlocking(r, FailureText(NotFound)))
    case Found(r) =>
      var item := memory[IdOf(r)];
      (memory, if r.ShowOne? then Unlocking(r, RowText(Row(IdOf(r), item.stock, item.price)))
       else if DeltaOf(r) < 0 && item.stock < -DeltaOf(r) then Unlocking(r, FailureText(Insufficient))
       else Checked(r))
    case Checked(r) => (memory, Loaded(r, memory[IdOf(r)].stock))
    case Loaded(r, stock) =>
      (memory[IdOf(r) := memory[IdOf(r)].(stock := stock + DeltaOf(r))], Unlocking(r, "success\n"))
    case Walking(k, text) =>
      var rows := Listing(memory);
      (memory, if k < |rows| then Walking(k + 1, text + RowText(rows[k])) else Unlocking(ShowAll, text))
  }

  /** One step of worker i; `r` is the request that its client sends next. */
  ghost function Step(s: Machine, i: nat, r: Request): Machine
    requires Enabled(s, i) && Safe(s.memory, s.pcs[i])
  {
    match s.pcs[i]
    case Idle =>
      var heard := s.(asked := s.asked[i := s.asked[i] + [r]]);
      if r == Exit then
        heard.(pcs := s.pcs[i := Replying("success\n")], log := s.log + [Entry(i, Exit, "success\n")])
      else heard.(pcs := s.pcs[i := AwaitLock(r)])
    case AwaitLock(r) =>
      s.(mutex := Some(i), pcs := s.pcs[i := if r == ShowAll then Walking(0, "") else Finding(r)])
    case Unlocking(r, text) =>
      s.(mutex := None, pcs := s.pcs[i := Replying(text)], log := s.log + [Entry(i, r, text)])
    case Replying(text) =>
      s.(pcs := s.pcs[i := Idle], got := s.got[i := s.got[i] + [text]])
    case pc =>
      var (memory', pc') := Work(s.memory, pc);
      s.(memory := memory', pcs := s.pcs[i := pc'])
  }

  ghost predicate Next(s: Machine, t: Machine, i: nat, r: Request) {
    Enabled(s, i) && (Safe(s.memory, s.pcs[i]) ==> t == Step(s, i, r))
  }

  ghost predicate Init(s: Machine, start: Holdings) {
    && s.memory == start && s.mutex == None && s.log == [] && |s.got| == |s.asked| == |s.pcs|
    && (forall i :: 0 <= i < |s.pcs| ==> s.pcs[i] == Idle && s.asked[i] == [] && s.got[i] == [])
  }

  // ---------- the atomic machine ----------

  function Requests(log: seq<Entry>): (rs: seq<Request>)
    ensures |rs| == |log|
    ensures forall n :: 0 <= n < |log| ==> rs[n] == log[n].r
  {
    if log == [] then [] else Requests(log[..|log| - 1]) + [log[|log| - 1].r]
  }

  /** The map after the logged requests, one after the other. */
  ghost function Committed(start: Holdings, log: seq<Entry>): Holdings {
    ServeAll(start, Requests(log))
  }

  lemma CommittedStep(start: Holdings, log: seq<Entry>, e: Entry)
    ensures Committed(start, log + [e]) == Serve(Committed(start, log), e.r).0
  {
    assert (log + [e])[..|log|] == log;
    var rs := Requests(log + [e]);
    assert rs[..|log|] == Requests(log);
  }

  /** Entry n was answered as the sequential run answers it. */
  ghost predicate Sequential(start: Holdings, log: seq<Entry>) {
    forall n :: 0 <= n < |log| ==> log[n].reply == Serve(Committed(start, log[..n]), log[n].r).1
  }

  /** The replies in the log that belong to worker i. */
  function RepliesTo(log: seq<Entry>, i: nat): seq<string> {
    if log == [] then [] else
      var e := log[|log| - 1];
      RepliesTo(log[..|log| - 1], i) + if e.worker == i then [e.reply] else []
  }

  lemma RepliesToStep(log: seq<Entry>, e: Entry, i: nat)
    ensures RepliesTo(log + [e], i) == RepliesTo(log, i) + if e.worker == i then [e.reply] else []
  {
    assert (log + [e])[..|log|] == log;
  }

  /** The requests in the log that belong to worker i. */
  function RequestsOf(log: seq<Entry>, i: nat): seq<Request> {
    if log == [] then [] else
      var e := log[|log| - 1];
      RequestsOf(log[..|log| - 1], i) + if e.worker == i then [e.r] else []
  }

  lemma RequestsOfStep(log: seq<Entry>, e: Entry, i: nat)
    ensures RequestsOf(log + [e], i) == RequestsOf(log, i) + if e.worker == i then [e.r] else []
  {
    assert (log + [e])[..|log|] == log;
  }

  /** The request that a worker is on, until it is logged. */
  function Doing(pc: Pc): seq<Request> {
    match pc
    case Idle => []
    case Replying(_) => []
    case Walking(_, _) => [ShowAll]
    case _ => [pc.r]
  }

  // ---------- the invariant ----------

  predicate Inside(pc: Pc) { !pc.Idle? && !pc.AwaitLock? && !pc.Replying? }

  ghost predicate Exclusive(s: Machine) {
    && (s.mutex.Some? ==> s.mutex.value < |s.pcs|)
    && forall i :: 0 <= i < |s.pcs| ==> (Inside(s.pcs[i]) <==> s.mutex == Some(i))
  }

  predicate CanApply(m: Holdings, r: Request) {
    && (r.Buy? || r.Sell?) && IdOf(r) in m
    && !(DeltaOf(r) < 0 && m[IdOf(r)].stock < -DeltaOf(r))
  }

  /** What the worker inside has seen and done agrees with the committed map m. */
  ghost predicate Agrees(pc: Pc, memory: Holdings, m: Holdings) {
    match pc
    case Unlocking(r, text) => (memory, text) == Serve(m, r)
    case Walking(k, text) => memory == m && k <= |Listing(m)| && text == RowsText(Listing(m)[..k])
    case Finding(r) => memory == m && r != ShowAll && r != Exit
    case Found(r) => memory == m && r != ShowAll && r != Exit && IdOf(r) in m
    case Checked(r) => memory == m && CanApply(m, r)
    case Loaded(r, stock) => memory == m && CanApply(m, r) && stock == m[IdOf(r)].stock
    case AwaitLock(r) => r != Exit
    case _ => true
  }

  /** Outside the critical section the memory is the committed map, and inside it the one worker
      there is on the way from that map to the next. */
  ghost predicate MemoryOk(s: Machine, start: Holdings) {
    var m := Committed(start, s.log);
    && (s.mutex == None ==> s.memory == m)
    && forall i :: 0 <= i < |s.pcs| ==> Agrees(s.pcs[i], s.memory, m)
  }

  /** Each client gets the replies logged for it, in that order, the last one perhaps still to be written. */
  ghost predicate Delivered(s: Machine) {
    && |s.got| == |s.pcs|
    && forall i :: 0 <= i < |s.pcs| ==>
      RepliesTo(s.log, i) == s.got[i] + if s.pcs[i].Replying? then [s.pcs[i].text] else []
  }

  /** What a worker's clients asked is what is logged for it, in that order, and then the request it
      is on. */
  ghost predicate Heard(s: Machine) {
    && |s.asked| == |s.pcs|
    && forall i :: 0 <= i < |s.pcs| ==> s.asked[i] == RequestsOf(s.log, i) + Doing(s.pcs[i])
  }

  ghost predicate Inv(s: Machine, start: Holdings) {
    Exclusive(s) && MemoryOk(s, start) && Sequential(start, s.log) && Delivered(s) && Heard(s)
  }

  lemma InitInv(s: Machine, start: Holdings)
    requires Init(s, start)
    ensures Inv(s, start)
  {
  }

  lemma AgreesIsSafe(pc: Pc, memory: Holdings, m: Holdings)
    requires Agrees(pc, memory, m)
    ensures Safe(memory, pc)
  {
  }

  lemma OneRow(r: Row)
    ensures RowsText([r]) == RowText(r)
  {
    hide RowText;
    assert [r][1..] == [];
    assert RowText(r) + "" == RowText(r);
  }

  lemma WalkOn(rows: seq<Row>, k: nat)
    requires k < |rows|
    ensures RowsText(rows[..k + 1]) == RowsText(rows[..k]) + RowText(rows[k])
  {
    hide RowsText, RowText;
    Visitors.RowsTextSplit(rows[..k], [rows[k]]);
    assert rows[..k + 1] == rows[..k] + [rows[k]];
    OneRow(rows[k]);
  }

  lemma WalkBegins(m: Holdings)
    ensures Agrees(Walking(0, ""), m, m)
  {
    assert Listing(m)[..0] == [];
  }

  lemma WalkAgrees(memory: Holdings, pc: Pc, m: Holdings)
    requires pc.Walking? && Agrees(pc, memory, m)
    ensures Agrees(Work(memory, pc).1, Work(memory, pc).0, m) && Inside(Work(memory, pc).1)
  {
    hide RowsText, RowText, FailureText;
    assert Serve(m, ShowAll) == (m, RowsText(Listing(m)));
    hide Serve, Listing, Ascending, MapOf;
    var rows := Listing(m);
    if pc.next < |rows| {
      WalkOn(rows, pc.next);
    } else {
      assert rows[..pc.next] == rows;
    }
  }

  lemma UpdateAgrees(memory: Holdings, pc: Pc, m: Holdings)
    requires Working(pc) && !pc.Walking? && Agrees(pc, memory, m)
    ensures Safe(memory, pc)
    ensures Agrees(Work(memory, pc).1, Work(memory, pc).0, m) && Inside(Work(memory, pc).1)
  {
    hide RowsText, RowText, FailureText, Listing;
  }

  /** Every step inside keeps the worker on its way from m to what Serve makes of it. */
  lemma WorkAgrees(memory: Holdings, pc: Pc, m: Holdings)
    requires Working(pc) && Agrees(pc, memory, m)
    ensures Safe(memory, pc)
    ensures Agrees(Work(memory, pc).1, Work(memory, pc).0, m)
    ensures Inside(Work(memory, pc).1)
  {
    hide Work, Agrees, Inside;
    if pc.Walking? { WalkAgrees(memory, pc, m); } else { UpdateAgrees(memory, pc, m); }
  }

  /** Outside the critical section nothing is promised about the memory, so it may change. */
  lemma AgreesOutside(pc: Pc, memory: Holdings, m: Holdings, memory': Holdings, m': Holdings)
    requires Agrees(pc, memory, m) && !Inside(pc)
    ensures Agrees(pc, memory', m')
  {
  }

  lemma ExitAnswer(m: Holdings)
    ensures Serve(m, Exit) == (m, "success\n")
  {
  }

  /** The request that a step of a worker is about: the one it is on, or the next of its client. */
  function Current(pc: Pc, r: Request): Request {
    if Doing(pc) == [] then r else Doing(pc)[0]
  }

  /** The atomic machine's step: nothing, or the whole request r of worker i, carried out on the
      committed map and answered as Serve answers. */
  ghost predicate AtomicStep(start: Holdings, log: seq<Entry>, log': seq<Entry>, i: nat, r: Request) {
    log' == log ||
    (|log'| == |log| + 1 && log' == log + [log'[|log|]] && log'[|log|].worker == i && log'[|log|].r == r
     && (Committed(start, log'), log'[|log|].reply) == Serve(Committed(start, log), r))
  }

  /** Each step of the workers is a step of the atomic machine. */
  lemma StepRefines(s: Machine, t: Machine, i: nat, r: Request, start: Holdings)
    requires Inv(s, start) && Next(s, t, i, r)
    ensures AtomicStep(start, s.log, t.log, i, Current(s.pcs[i], r))
  {
    hide Serve, Work, Committed;
    AgreesIsSafe(s.pcs[i], s.memory, Committed(start, s.log));
    if s.pcs[i].Unlocking? || (s.pcs[i].Idle? && r == Exit) {
      var e := t.log[|s.log|];
      CommittedStep(start, s.log, e);
      ExitAnswer(Committed(start, s.log));
    }
  }

  lemma KeepsExclusive(s: Machine, t: Machine, i: nat, r: Request, start: Holdings)
    requires Inv(s, start) && Next(s, t, i, r)
    ensures Exclusive(t)
  {
    hide Serve, Committed;
    AgreesIsSafe(s.pcs[i], s.memory, Committed(start, s.log));
  }

  lemma KeepsMemory(s: Machine, t: Machine, i: nat, r: Request, start: Holdings)
    requires Inv(s, start) && Next(s, t, i, r)
    ensures MemoryOk(t, start)
  {
    hide Serve, Committed, Work, Sequential, Delivered, Heard, Listing, RowsText, FailureText, RowText;
    var m, m' := Committed(start, s.log), Committed(start, t.log);
    AgreesIsSafe(s.pcs[i], s.memory, m);
    StepRefines(s, t, i, r, start);
    WalkBegins(m);
    if Working(s.pcs[i]) { WorkAgrees(s.memory, s.pcs[i], m); }
    KeepsExclusive(s, t, i, r, start);
    ExitAnswer(m);
    assert Agrees(t.pcs[i], t.memory, m');
    hide Agrees;
    forall l | 0 <= l < |t.pcs| ensures Agrees(t.pcs[l], t.memory, m') {
      if l != i && (t.memory, m') != (s.memory, m) { AgreesOutside(s.pcs[l], s.memory, m, t.memory, m'); }
    }
  }

  lemma KeepsLog(start: Holdings, log: seq<Entry>, log': seq<Entry>, i: nat, r: Request)
    requires Sequential(start, log) && AtomicStep(start, log, log', i, r)
    ensures Sequential(start, log')
  {
    hide Serve, Committed;
    assert log' != log ==> log'[..|log|] == log;
    forall n | 0 <= n < |log'| ensures log'[n].reply == Serve(Committed(start, log'[..n]), log'[n].r).1 {
      if n < |log| { assert log'[..n] == log[..n] && log'[n] == log[n]; }
    }
  }

  lemma KeepsDelivered(s: Machine, t: Machine, i: nat, r: Request, start: Holdings)
    requires Inv(s, start) && Next(s, t, i, r)
    ensures Delivered(t)
  {
    hide Serve, Committed, Work, RepliesTo, Sequential;
    assert Agrees(s.pcs[i], s.memory, Committed(start, s.log));
    hide MemoryOk;
    AgreesIsSafe(s.pcs[i], s.memory, Committed(start, s.log));
    if Working(s.pcs[i]) {
      WorkAgrees(s.memory, s.pcs[i], Committed(start, s.log));
    }
    forall l: nat | l < |t.pcs|
      ensures RepliesTo(t.log, l) == t.got[l] + if t.pcs[l].Replying? then [t.pcs[l].text] else []
    {
      if |t.log| > |s.log| { RepliesToStep(s.log, t.log[|s.log|], l); }
    }
  }

  lemma WorkSameRequest(memory: Holdings, pc: Pc)
    requires Working(pc) && Safe(memory, pc)
    ensures Doing(Work(memory, pc).1) == Doing(pc)
  {
  }

  lemma KeepsHeard(s: Machine, t: Machine, i: nat, r: Request, start: Holdings)
    requires Inv(s, start) && Next(s, t, i, r)
    ensures Heard(t)
  {
    hide Serve, Committed, Work, RequestsOf, Sequential;
    assert Agrees(s.pcs[i], s.memory, Committed(start, s.log));
    hide MemoryOk;
    AgreesIsSafe(s.pcs[i], s.memory, Committed(start, s.log));
    if Working(s.pcs[i]) { WorkSameRequest(s.memory, s.pcs[i]); }
    forall l: nat | l < |t.pcs| ensures t.asked[l] == RequestsOf(t.log, l) + Doing(t.pcs[l]) {
      if |t.log| > |s.log| { RequestsOfStep(s.log, t.log[|s.log|], l); }
    }
  }

  lemma InvKept(s: Machine, t: Machine, i: nat, r: Request, start: Holdings)
    requires Inv(s, start) && Next(s, t, i, r)
    ensures Inv(t, start)
  {
    KeepsExclusive(s, t, i, r, start);
    KeepsMemory(s, t, i, r, start);
    StepRefines(s, t, i, r, start);
    KeepsLog(start, s.log, t.log, i, Current(s.pcs[i], r));
    KeepsDelivered(s, t, i, r, start);
    KeepsHeard(s, t, i, r, start);
  }

  // ---------- whole runs ----------

  datatype Turn = Turn(i: nat, r: Request)

  ghost predicate Steps(states: seq<Machine>, turns: seq<Turn>) {
    && |states| == |turns| + 1
    && forall n :: 0 <= n < |turns| ==> Next(states[n], states[n + 1], turns[n].i, turns[n].r)
  }

  lemma {:induction false} RunKeepsInv(states: seq<Machine>, turns: seq<Turn>, start: Holdings, n: nat)
    requires Steps(states, turns) && Init(states[0], start) && n < |states|
    ensures Inv(states[n], start)
  {
    hide Inv, Init, Next;
    if n == 0 {
      InitInv(states[0], start);
    } else {
      RunKeepsInv(states, turns, start, n - 1);
      InvKept(states[n - 1], states[n], turns[n - 1].i, turns[n - 1].r, start);
    }
  }

  /** What the clients of worker i have sent in the first n steps. */
  ghost function AskedBy(states: seq<Machine>, turns: seq<Turn>, i: nat, n: nat): seq<Request>
    requires |states| == |turns| + 1 && n < |states|
  {
    if n == 0 then [] else
      var t := turns[n - 1];
      AskedBy(states, turns, i, n - 1) +
        if t.i == i && i < |states[n - 1].pcs| && states[n - 1].pcs[i].Idle? then [t.r] else []
  }

  lemma StepRecords(s: Machine, t: Machine, i: nat, r: Request, start: Holdings)
    requires Inv(s, start) && Next(s, t, i, r)
    ensures |t.pcs| == |s.pcs| == |t.asked| == |t.got| && i < |s.pcs|
    ensures t.asked == if s.pcs[i].Idle? then s.asked[i := s.asked[i] + [r]] else s.asked
  {
    hide Serve, Work, Sequential;
    assert Agrees(s.pcs[i], s.memory, Committed(start, s.log));
    AgreesIsSafe(s.pcs[i], s.memory, Committed(start, s.log));
  }

  lemma {:induction false} SameCount(states: seq<Machine>, turns: seq<Turn>, start: Holdings, n: nat)
    requires Steps(states, turns) && Init(states[0], start) && n < |states|
    ensures |states[n].pcs| == |states[n].asked| == |states[n].got| == |states[0].pcs|
  {
    hide Inv, Next;
    if n > 0 {
      SameCount(states, turns, start, n - 1);
      RunKeepsInv(states, turns, start, n - 1);
      StepRecords(states[n - 1], states[n], turns[n - 1].i, turns[n - 1].r, start);
    }
  }

  lemma {:induction false} AskedIsRecorded(states: seq<Machine>, turns: seq<Turn>, start: Holdings, i: nat, n: nat)
    requires Steps(states, turns) && Init(states[0], start) && n < |states| && i < |states[0].pcs|
    ensures i < |states[n].asked| && states[n].asked[i] == AskedBy(states, turns, i, n)
  {
    hide Inv, Next;
    SameCount(states, turns, start, n);
    if n > 0 {
      AskedIsRecorded(states, turns, start, i, n - 1);
      SameCount(states, turns, start, n - 1);
      RunKeepsInv(states, turns, start, n - 1);
      StepRecords(states[n - 1], states[n], turns[n - 1].i, turns[n - 1].r, start);
    }
  }

  /** Every interleaving is the sequential run in lock order. The replies are the ones that run gives,
      and when nobody is inside the memory is that run's map. The log holds for each worker exactly
      what its clients asked, in that order, but for the request it is on; and they get exactly the
      replies logged for it, in that order, but for the one it is writing. */
  lemma EveryRunIsSequential(states: seq<Machine>, turns: seq<Turn>, start: Holdings, n: nat)
    requires Steps(states, turns) && Init(states[0], start) && n < |states|
    ensures var s := states[n];
      && (s.mutex == None ==> s.memory == ServeAll(start, Requests(s.log)))
      && (forall j :: 0 <= j < |s.log| ==> s.log[j].reply == Serve(Committed(start, s.log[..j]), s.log[j].r).1)
      && |s.got| == |s.pcs| == |states[0].pcs|
      && (forall i :: 0 <= i < |s.pcs| ==> AskedBy(states, turns, i, n) == RequestsOf(s.log, i) + Doing(s.pcs[i]))
      && (forall i :: 0 <= i < |s.pcs| ==>
           RepliesTo(s.log, i) == s.got[i] + if s.pcs[i].Replying? then [s.pcs[i].text] else [])
  {
    RunKeepsInv(states, turns, start, n);
    hide Serve, RepliesTo, Agrees, RequestsOf, AskedBy, Doing;
    SameCount(states, turns, start, n);
    forall i | 0 <= i < |states[n].pcs|
      ensures AskedBy(states, turns, i, n) == RequestsOf(states[n].log, i) + Doing(states[n].pcs[i])
    {
      AskedIsRecorded(states, turns, start, i, n);
    }
  }

  /** A full show lists one committed map, although its walk takes a step for every item. */
  lemma ShowSeesOneState(states: seq<Machine>, turns: seq<Turn>, start: Holdings, n: nat, j: nat)
    requires Steps(states, turns) && Init(states[0], start) && n < |states|
    requires j < |states[n].log| && states[n].log[j].r == ShowAll
    ensures states[n].log[j].reply == RowsText(Listing(Committed(start, states[n].log[..j])))
  {
    EveryRunIsSequential(states, turns, start, n);
  }

  /** Same items and prices, and no negative stock. */
  ghost predicate Sane(start: Holdings, m: Holdings) {
    && m.Keys == start.Keys
    && forall id :: id in m ==> m[id].stock >= 0 && m[id].price == start[id].price
  }

  lemma ServeSane(start: Holdings, m: Holdings, r: Request)
    requires Sane(start, m)
    ensures Sane(start, Serve(m, r).0)
  {
  }

  lemma {:induction false} CommittedSane(start: Holdings, rs: seq<Request>)
    requires Sane(start, start)
    ensures Sane(start, ServeAll(start, rs))
  {
    if rs != [] {
      CommittedSane(start, rs[..|rs| - 1]);
      ServeSane(start, ServeAll(start, rs[..|rs| - 1]), rs[|rs| - 1]);
    }
  }

  /** No stock is ever negative in memory, not even between two steps of one request. */
  lemma StocksNeverNegative(states: seq<Machine>, turns: seq<Turn>, start: Holdings, n: nat)
    requires Steps(states, turns) && Init(states[0], start) && n < |states| && Sane(start, start)
    ensures Sane(start, states[n].memory)
  {
    RunKeepsInv(states, turns, start, n);
    hide Serve, Steps, Init, Sane;
    var s := states[n];
    CommittedSane(start, Requests(s.log));
    if s.mutex.Some? {
      var pc := s.pcs[s.mutex.value];
      assert Inside(pc) && Agrees(pc, s.memory, Committed(start, s.log));
      if pc.Unlocking? { ServeSane(start, Committed(start, s.log), pc.r); }
    }
  }

  // ---------- progress ----------

  /** How many steps a worker is away from the end of its request at most, not counting the steps in
      which it waits for the mutex; n is the number of items. */
  function StepsLeft(n: nat, pc: Pc): nat {
    match pc
    case Idle => n + 8
    case AwaitLock(_) => n + 7
    case Finding(_) => 6
    case Found(_) => 5
    case Checked(_) => 4
    case Loaded(_, _) => 3
    case Walking(k, _) => if k <= n then n - k + 3 else 0
    case Unlocking(_, _) => 2
    case Replying(_) => 1
  }

  lemma ListingLength(m: Holdings)
    ensures |Listing(m)| == |m|
  {
    MapOfValues(Listing(m));
  }

  lemma SameSize(m: Holdings, m': Holdings)
    requires m.Keys == m'.Keys
    ensures |m| == |m'|
  {
    assert |m| == |m.Keys| && |m'| == |m'.Keys|;
  }

  lemma WorkShrinks(memory: Holdings, pc: Pc)
    requires Working(pc) && Safe(memory, pc) && (pc.Walking? ==> pc.next <= |Listing(memory)|)
    ensures Work(memory, pc).0.Keys == memory.Keys
    ensures StepsLeft(|memory|, Work(memory, pc).1) < StepsLeft(|memory|, pc)
  {
    hide RowText, FailureText, Listing;
    ListingLength(memory);
  }

  /** Every step of a worker but the writing of a reply brings its request closer to the end, and none
      changes the number of items. */
  lemma StepShrinks(s: Machine, t: Machine, i: nat, r: Request, start: Holdings)
    requires Inv(s, start) && Next(s, t, i, r)
    ensures |t.memory| == |s.memory|
    ensures i < |t.pcs| == |s.pcs| && t.pcs == s.pcs[i := t.pcs[i]]
    ensures !s.pcs[i].Replying? ==> StepsLeft(|s.memory|, t.pcs[i]) < StepsLeft(|s.memory|, s.pcs[i])
    ensures s.pcs[i].Replying? ==> t.pcs[i].Idle?
  {
    hide Serve, Listing, Work, Committed, Sequential, RowsText;
    assert Agrees(s.pcs[i], s.memory, Committed(start, s.log));
    if Working(s.pcs[i]) {
      WorkShrinks(s.memory, s.pcs[i]);
      SameSize(s.memory, t.memory);
    }
  }

  /** Some worker can always go on. When one is inside the critical section it is that one, and its
      step is the unlock or brings the unlock closer: no critical section goes on for ever. */
  lemma SomeWorkerCanRun(s: Machine, start: Holdings) returns (i: nat)
    requires Inv(s, start) && |s.pcs| > 0
    ensures Enabled(s, i)
    ensures s.mutex.Some? ==> s.mutex == Some(i) && (s.pcs[i].Unlocking? || Working(s.pcs[i]))
    ensures Working(s.pcs[i]) ==> Safe(s.memory, s.pcs[i])
    ensures Working(s.pcs[i]) ==>
      StepsLeft(|s.memory|, Work(s.memory, s.pcs[i]).1) < StepsLeft(|s.memory|, s.pcs[i])
  {
    hide Serve, Listing, Work, Committed, Sequential, StepsLeft, RowsText;
    i := if s.mutex.Some? then s.mutex.value else 0;
    if Working(s.pcs[i]) {
      assert Agrees(s.pcs[i], s.memory, Committed(start, s.log));
      WorkShrinks(s.memory, s.pcs[i]);
    }
  }
}
