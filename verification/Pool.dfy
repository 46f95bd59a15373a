/** The worker pool: one accepting thread and k workers around a ring of 64 descriptors and three
    semaphores, one step per semaphore operation, cell access and index update. */
module Pool {

  const QUEUE_SIZE: nat := 64
  const STOP: int := -1

  /** The main thread: the accept loop, conn_queue_insert, stop_workers and join_workers. `v` is the
      value being inserted and `pills` the number of pills inserted before it. */
  datatype MainPc =
    | Accepting
    | AwaitSlot(v: int, pills: nat)
    | AwaitRing(v: int, pills: nat)
    | PutCell(v: int, pills: nat)
    | PutRear(v: int, pills: nat)
    | LeaveRing(v: int, pills: nat)
    | PostItem(v: int, pills: nat)
    | Stopping(pills: nat)
    | Joining(joined: nat)
    | Done

  /** A worker: conn_queue_remove and worker_main. `v` is the value it took and `j` its place in the
      order of takes. */
  datatype Worker =
    | AwaitItem
    | EnterRing
    | TakeCell
    | TakeFront(v: int, j: nat)
    | ExitRing(v: int, j: nat)
    | PostSlot(v: int, j: nat)
    | Decide(v: int, j: nat)
    | Serving(v: int, j: nat, left: nat)
    | Exited

  /** The last four fields record history: the descriptors accepted, every value stored in the ring,
      every value loaded from it and the workers that loaded them. */
  datatype Pool = Pool(
    cells: seq<int>, front: nat, rear: nat,
    ring: nat, slots: nat, items: nat,
    main: MainPc, workers: seq<Worker>,
    accepted: seq<int>, put: seq<int>, took: seq<int>, takers: seq<nat>)

  /** Whose step it is; for the main thread, with what accept returns if it is in the accept loop. */
  datatype Actor = Main(fd: int) | Nth(i: nat)

  // ---------- the steps ----------

  predicate MainEnabled(s: Pool) {
    match s.main
    case AwaitSlot(_, _) => s.slots > 0
    case AwaitRing(_, _) => s.ring > 0
    case Joining(j) => j >= |s.workers| || s.workers[j].Exited?
    case Done => false
    case _ => true
  }

  /** `fd` is what the accept loop gets: a descriptor, or -1 when the loop ends. */
  function MainStep(s: Pool, fd: int): Pool
    requires MainEnabled(s) && (s.main.PutCell? ==> s.rear < |s.cells|)
  {
    match s.main
    case Accepting =>
      if fd >= 0 then s.(accepted := s.accepted + [fd], main := AwaitSlot(fd, 0)) else s.(main := Stopping(0))
    case AwaitSlot(v, p) => s.(slots := s.slots - 1, main := AwaitRing(v, p))
    case AwaitRing(v, p) => s.(ring := s.ring - 1, main := PutCell(v, p))
    case PutCell(v, p) => s.(cells := s.cells[s.rear := v], put := s.put + [v], main := PutRear(v, p))
    case PutRear(v, p) => s.(rear := (s.rear + 1) % QUEUE_SIZE, main := LeaveRing(v, p))
    case LeaveRing(v, p) => s.(ring := s.ring + 1, main := PostItem(v, p))
    case PostItem(v, p) => s.(items := s.items + 1, main := if v == STOP then Stopping(p + 1) else Accepting)
    case Stopping(p) => s.(main := if p < |s.workers| then AwaitSlot(STOP, p) else Joining(0))
    case Joining(j) => s.(main := if j < |s.workers| then Joining(j + 1) else Done)
  }

  predicate WorkerEnabled(s: Pool, i: nat) {
    i < |s.workers| &&
    match s.workers[i]
    case AwaitItem => s.items > 0
    case EnterRing => s.ring > 0
    case Exited => false
    case _ => true
  }

  /** `work(j)` is the number of requests on the connection that was taken j-th; it is finite. */
  function WorkerStep(s: Pool, i: nat, work: nat -> nat): Pool
    requires WorkerEnabled(s, i) && (s.workers[i].TakeCell? ==> s.front < |s.cells|)
  {
    match s.workers[i]
    case AwaitItem => s.(items := s.items - 1, workers := s.workers[i := EnterRing])
    case EnterRing => s.(ring := s.ring - 1, workers := s.workers[i := TakeCell])
    case TakeCell =>
      var v := s.cells[s.front];
      s.(took := s.took + [v], takers := s.takers + [i], workers := s.workers[i := TakeFront(v, |s.takers|)])
    case TakeFront(v, j) => s.(front := (s.front + 1) % QUEUE_SIZE, workers := s.workers[i := ExitRing(v, j)])
    case ExitRing(v, j) => s.(ring := s.ring + 1, workers := s.workers[i := PostSlot(v, j)])
    case PostSlot(v, j) => s.(slots := s.slots + 1, workers := s.workers[i := Decide(v, j)])
    case Decide(v, j) => s.(workers := s.workers[i := if v == STOP then Exited else Serving(v, j, work(j))])
    case Serving(v, j, left) => s.(workers := s.workers[i := if left == 0 then AwaitItem else Serving(v, j, left - 1)])
  }

  /** k workers, all waiting; the accept loop only starts when all of them were created. */
  ghost predicate Init(s: Pool, k: nat) {
    && |s.cells| == QUEUE_SIZE && s.front == s.rear == 0
    && s.ring == 1 && s.slots == QUEUE_SIZE && s.items == 0
    && |s.workers| == k && (forall i :: 0 <= i < k ==> s.workers[i] == AwaitItem)
    && (s.main == Stopping(0) || (s.main == Accepting && k > 0))
    && s.accepted == [] && s.put == [] && s.took == [] && s.takers == []
  }

  // ---------- tallies ----------

  datatype Kind = InRing | HoldsItem | HoldsCell | AtFront | Swallowed

  predicate Is(w: Worker, kind: Kind) {
    match kind
    case InRing => w.TakeCell? || w.TakeFront? || w.ExitRing?
    case HoldsItem => w.EnterRing? || w.TakeCell?
    case HoldsCell => w.TakeFront? || w.ExitRing? || w.PostSlot?
    case AtFront => w.TakeFront?
    case Swallowed => w.Exited? || ((w.TakeFront? || w.ExitRing? || w.PostSlot? || w.Decide?) && w.v == STOP)
  }

  function One(b: bool): nat { if b then 1 else 0 }

  function Tally(ws: seq<Worker>, kind: Kind): (n: nat)
    ensures n <= |ws|
  {
    if ws == [] then 0 else Tally(ws[..|ws| - 1], kind) + One(Is(ws[|ws| - 1], kind))
  }

  lemma {:induction false} TallyUpdate(ws: seq<Worker>, i: nat, w: Worker, kind: Kind)
    requires i < |ws|
    ensures Tally(ws[i := w], kind) + One(Is(ws[i], kind)) == Tally(ws, kind) + One(Is(w, kind))
  {
    var n := |ws| - 1;
    if i == n {
      assert ws[i := w][..n] == ws[..n];
    } else {
      assert ws[i := w][..n] == ws[..n][i := w];
      TallyUpdate(ws[..n], i, w, kind);
    }
  }

  lemma TalliesUpdate(ws: seq<Worker>, i: nat, w: Worker)
    requires i < |ws|
    ensures forall kind ::
      Tally(ws[i := w], kind) + One(Is(ws[i], kind)) == Tally(ws, kind) + One(Is(w, kind))
  {
    forall kind
      ensures Tally(ws[i := w], kind) + One(Is(ws[i], kind)) == Tally(ws, kind) + One(Is(w, kind))
    {
      TallyUpdate(ws, i, w, kind);
    }
  }

  lemma {:induction false} TallyWitness(ws: seq<Worker>, kind: Kind) returns (i: nat)
    requires Tally(ws, kind) > 0
    ensures i < |ws| && Is(ws[i], kind)
  {
    var n := |ws| - 1;
    if Is(ws[n], kind) { i := n; } else { i := TallyWitness(ws[..n], kind); }
  }

  lemma {:induction false} TallyHas(ws: seq<Worker>, i: nat, kind: Kind)
    requires i < |ws| && Is(ws[i], kind)
    ensures Tally(ws, kind) > 0
  {
    if i < |ws| - 1 { TallyHas(ws[..|ws| - 1], i, kind); }
  }

  lemma {:induction false} TallyTwo(ws: seq<Worker>, i: nat, j: nat, kind: Kind)
    requires i < j < |ws| && Is(ws[i], kind) && Is(ws[j], kind)
    ensures Tally(ws, kind) >= 2
  {
    if j == |ws| - 1 { TallyHas(ws[..j], i, kind); } else { TallyTwo(ws[..|ws| - 1], i, j, kind); }
  }

  lemma {:induction false} TallyNone(ws: seq<Worker>, kind: Kind)
    ensures (forall i :: 0 <= i < |ws| ==> !Is(ws[i], kind)) ==> Tally(ws, kind) == 0
    ensures (forall i :: 0 <= i < |ws| ==> Is(ws[i], kind)) ==> Tally(ws, kind) == |ws|
    ensures (exists i :: 0 <= i < |ws| && !Is(ws[i], kind)) ==> Tally(ws, kind) < |ws|
  {
    if ws != [] {
      var n := |ws| - 1;
      TallyNone(ws[..n], kind);
      assert forall i :: 0 <= i < n ==> ws[..n][i] == ws[i];
    }
  }

  // ---------- the invariant ----------

  predicate MainIn(m: MainPc) { m.PutCell? || m.PutRear? || m.LeaveRing? }

  predicate MainHasSlot(m: MainPc) { m.AwaitRing? || m.PutCell? }

  predicate MainHasItem(m: MainPc) { m.PutRear? || m.LeaveRing? || m.PostItem? }

  predicate Inserting(m: MainPc) {
    m.AwaitSlot? || m.AwaitRing? || m.PutCell? || m.PutRear? || m.LeaveRing? || m.PostItem?
  }

  /** How many pills are in the ring's history. */
  function PillsPut(s: Pool): nat {
    match s.main
    case Accepting => 0
    case Stopping(p) => p
    case Joining(_) => |s.workers|
    case Done => |s.workers|
    case m => m.pills + One(m.v == STOP && MainHasItem(m))
  }

  ghost predicate MainOk(s: Pool) {
    match s.main
    case Accepting => |s.workers| > 0
    case Stopping(p) => p <= |s.workers|
    case Joining(j) => j <= |s.workers| && forall i :: 0 <= i < j ==> s.workers[i].Exited?
    case Done => forall i :: 0 <= i < |s.workers| ==> s.workers[i].Exited?
    case m => |s.workers| > 0 && (if m.v == STOP then m.pills < |s.workers| else m.v >= 0 && m.pills == 0)
  }

  /** The cell of the n-th value put. */
  function Slot(n: nat): (c: nat)
    ensures c < QUEUE_SIZE
  {
    n % QUEUE_SIZE
  }

  lemma SlotsApart(a: nat, b: nat)
    requires b < a < b + QUEUE_SIZE
    ensures Slot(a) != Slot(b)
  {
  }

  lemma SlotNext(n: nat)
    ensures (Slot(n) + 1) % QUEUE_SIZE == Slot(n + 1)
  {
  }

  /** The semaphores: the ring is held by one thread at most, and the cells that are full, about to
      be filled, about to be emptied or free account for all 64. */
  ghost predicate Counts(s: Pool) {
    && |s.takers| <= |s.put|
    && s.ring + One(MainIn(s.main)) + Tally(s.workers, InRing) == 1
    && s.items + One(MainHasItem(s.main)) + Tally(s.workers, HoldsItem) == |s.put| - |s.takers|
    && s.slots + One(MainHasSlot(s.main)) + Tally(s.workers, HoldsCell) + (|s.put| - |s.takers|) == QUEUE_SIZE
    && Tally(s.workers, AtFront) <= |s.takers|
  }

  /** The indexes follow the counts. */
  ghost predicate Places(s: Pool)
    requires Counts(s)
  {
    && One(s.main.PutRear?) <= |s.put|
    && s.rear == Slot(|s.put| - One(s.main.PutRear?))
    && s.front == Slot(|s.takers| - Tally(s.workers, AtFront))
  }

  /** The full cells hold what was put and not yet taken, in order. */
  ghost predicate CellsHold(s: Pool) {
    && |s.cells| == QUEUE_SIZE
    && forall j :: |s.takers| <= j < |s.put| ==> s.cells[Slot(j)] == s.put[j]
  }

  /** The pills come last. */
  ghost predicate PillsLast(s: Pool) {
    && PillsPut(s) <= |s.put| && (s.workers == [] ==> s.put == [])
    && forall j :: 0 <= j < |s.put| ==> (s.put[j] == STOP <==> j >= |s.put| - PillsPut(s))
  }

  predicate HasTaken(w: Worker) { w.TakeFront? || w.ExitRing? || w.PostSlot? || w.Decide? || w.Serving? }

  /** Everything stored, less the pills, is what was accepted, but for a descriptor on its way in. */
  ghost predicate AcceptedPut(s: Pool) {
    && PillsPut(s) <= |s.put|
    && s.accepted == s.put[..|s.put| - PillsPut(s)] +
         (if Inserting(s.main) && s.main.v != STOP && !MainHasItem(s.main) then [s.main.v] else [])
  }

  /** Values leave in the order they came in, and what a worker carries is what it took. */
  ghost predicate Carries(s: Pool) {
    && s.took <= s.put && |s.took| == |s.takers|
    && (forall j :: 0 <= j < |s.takers| ==> s.takers[j] < |s.workers|)
    && (forall i :: 0 <= i < |s.workers| && HasTaken(s.workers[i]) ==>
         s.workers[i].j < |s.takers| && s.put[s.workers[i].j] == s.workers[i].v && s.takers[s.workers[i].j] == i)
  }

  ghost predicate TookPill(s: Pool, i: nat) {
    exists j :: 0 <= j < |s.takers| && j < |s.put| && s.put[j] == STOP && s.takers[j] == i
  }

  /** Nobody leaves without a pill. */
  ghost predicate LeftByPill(s: Pool) {
    forall i :: 0 <= i < |s.workers| && Is(s.workers[i], Swallowed) ==> TookPill(s, i)
  }

  /** Each pill taken was taken by a worker of its own, which is on its way out. */
  ghost predicate PillEach(s: Pool)
    requires Carries(s)
  {
    && (forall j :: 0 <= j < |s.takers| && s.put[j] == STOP ==> Is(s.workers[s.takers[j]], Swallowed))
    && (forall j, l :: 0 <= j < l < |s.takers| && s.put[j] == STOP && s.put[l] == STOP ==> s.takers[j] != s.takers[l])
  }

  /** Live workers = pills queued + pills still to be inserted. */
  ghost predicate LiveCount(s: Pool) {
    var queued := |s.put| - |s.takers|;
    |s.workers| - Tally(s.workers, Swallowed)
      == (if queued < PillsPut(s) then queued else PillsPut(s)) + (|s.workers| - PillsPut(s))
  }

  ghost predicate Inv(s: Pool) {
    MainOk(s) && Counts(s) && Places(s) && CellsHold(s)
    && PillsLast(s) && AcceptedPut(s) && Carries(s) && PillEach(s) && LeftByPill(s) && LiveCount(s)
  }

  lemma InitInv(s: Pool, k: nat)
    requires Init(s, k)
    ensures Inv(s)
  {
    TallyNone(s.workers, InRing);
    TallyNone(s.workers, HoldsItem);
    TallyNone(s.workers, HoldsCell);
    TallyNone(s.workers, AtFront);
    TallyNone(s.workers, Swallowed);
  }

  lemma AtFrontInRing(ws: seq<Worker>)
    ensures Tally(ws, AtFront) <= Tally(ws, InRing)
  {
  }

  /** No full cell is overwritten: when the main thread stores, the cell at rear is not among the
      cells that hold values still to be taken. */
  lemma StoresIntoFreeCell(s: Pool)
    requires Counts(s) && Places(s) && s.main.PutCell?
    ensures s.rear == Slot(|s.put|) && |s.put| - |s.takers| < QUEUE_SIZE
    ensures forall j :: |s.takers| <= j < |s.put| ==> Slot(j) != s.rear
  {
    hide Slot;
    forall j | |s.takers| <= j < |s.put| ensures Slot(j) != s.rear { SlotsApart(|s.put|, j); }
  }

  /** No empty cell is read: when a worker loads, the cell at front holds the oldest value that was
      put and not yet taken. */
  lemma LoadsOldest(s: Pool, i: nat)
    requires Counts(s) && Places(s) && CellsHold(s) && i < |s.workers| && s.workers[i].TakeCell?
    ensures |s.takers| < |s.put| && s.front == Slot(|s.takers|)
    ensures s.cells[s.front] == s.put[|s.takers|]
  {
    hide Slot;
    TallyHas(s.workers, i, HoldsItem);
    TallyHas(s.workers, i, InRing);
    if Tally(s.workers, AtFront) > 0 {
      var l := TallyWitness(s.workers, AtFront);
      TallyTwo(s.workers, if l < i then l else i, if l < i then i else l, InRing);
    }
  }

  // ---------- every step keeps it ----------

  lemma MainKeepsCounts(s: Pool, fd: int)
    requires Counts(s) && CellsHold(s) && Places(s) && MainEnabled(s)
    ensures s.main.PutCell? ==> s.rear < |s.cells|
    ensures Counts(MainStep(s, fd))
  {
    hide Tally;
    hide Slot;
  }

  lemma MainKeepsPlaces(s: Pool, fd: int)
    requires Counts(s) && CellsHold(s) && Places(s) && MainEnabled(s) && Counts(MainStep(s, fd))
    ensures Places(MainStep(s, fd))
  {
    hide Tally;
    hide Slot;
    if s.main.PutRear? { SlotNext(|s.put| - 1); }
  }

  lemma MainKeepsCells(s: Pool, fd: int)
    requires Counts(s) && CellsHold(s) && Places(s) && MainEnabled(s)
    ensures CellsHold(MainStep(s, fd))
  {
    hide Tally;
    hide Slot;
    if s.main.PutCell? { StoresIntoFreeCell(s); }
  }

  lemma MainKeepsPills(s: Pool, fd: int)
    requires MainOk(s) && PillsLast(s) && MainEnabled(s) && s.rear < |s.cells|
    ensures PillsLast(MainStep(s, fd)) && MainOk(MainStep(s, fd))
  {
  }

  lemma MainKeepsCarries(s: Pool, fd: int)
    requires Carries(s) && PillEach(s) && LeftByPill(s) && MainEnabled(s) && s.rear < |s.cells|
    ensures Carries(MainStep(s, fd)) && PillEach(MainStep(s, fd)) && LeftByPill(MainStep(s, fd))
  {
    hide Is;
    var s' := MainStep(s, fd);
    assert s'.takers == s.takers && s'.workers == s.workers && s.put <= s'.put;
    forall i | 0 <= i < |s'.workers| && Is(s'.workers[i], Swallowed) ensures TookPill(s', i) {
      assert TookPill(s, i);
      var j :| 0 <= j < |s.takers| && j < |s.put| && s.put[j] == STOP && s.takers[j] == i;
      assert s'.put[j] == STOP;
    }
  }

  lemma MainKeepsLive(s: Pool, fd: int)
    requires MainOk(s) && Counts(s) && PillsLast(s) && LiveCount(s) && MainEnabled(s) && s.rear < |s.cells|
    ensures LiveCount(MainStep(s, fd))
  {
    hide Tally;
  }

  lemma MainKeepsAccepted(s: Pool, fd: int)
    requires MainOk(s) && PillsLast(s) && AcceptedPut(s) && MainEnabled(s) && s.rear < |s.cells|
    ensures AcceptedPut(MainStep(s, fd))
  {
    if s.main.PutCell? {
      assert (s.put + [s.main.v])[..|s.put|] == s.put;
    }
  }

  lemma WorkerKeepsCounts(s: Pool, i: nat, work: nat -> nat)
    requires Counts(s) && CellsHold(s) && Places(s) && WorkerEnabled(s, i)
    ensures s.workers[i].TakeCell? ==> s.front < |s.cells|
    ensures Counts(WorkerStep(s, i, work))
  {
    hide Tally;
    hide Slot;
    if s.workers[i].TakeCell? { LoadsOldest(s, i); }
    TalliesUpdate(s.workers, i, WorkerStep(s, i, work).workers[i]);
  }

  lemma WorkerKeepsPlaces(s: Pool, i: nat, work: nat -> nat)
    requires Counts(s) && CellsHold(s) && Places(s) && WorkerEnabled(s, i)
    requires s.front < |s.cells| && Counts(WorkerStep(s, i, work))
    ensures Places(WorkerStep(s, i, work))
  {
    hide Tally;
    hide Slot;
    var t := WorkerStep(s, i, work);
    if s.workers[i].TakeFront? {
      TallyHas(s.workers, i, AtFront);
      TallyHas(s.workers, i, InRing);
      AtFrontInRing(s.workers);
      SlotNext(|s.takers| - 1);
    }
    TallyUpdate(s.workers, i, t.workers[i], AtFront);
  }

  lemma WorkerKeepsCells(s: Pool, i: nat, work: nat -> nat)
    requires CellsHold(s) && WorkerEnabled(s, i) && s.front < |s.cells|
    ensures CellsHold(WorkerStep(s, i, work))
  {
    hide Slot;
  }

  lemma WorkerKeepsMain(s: Pool, i: nat, work: nat -> nat)
    requires MainOk(s) && PillsLast(s) && AcceptedPut(s) && WorkerEnabled(s, i) && s.front < |s.cells|
    ensures var t := WorkerStep(s, i, work); MainOk(t) && PillsLast(t) && AcceptedPut(t)
  {
  }

  lemma WorkerKeepsCarries(s: Pool, i: nat, work: nat -> nat)
    requires Counts(s) && Places(s) && CellsHold(s) && Carries(s) && WorkerEnabled(s, i) && s.front < |s.cells|
    ensures Carries(WorkerStep(s, i, work))
  {
    hide Tally;
    hide Slot;
    hide Counts;
    hide Places;
    if s.workers[i].TakeCell? { LoadsOldest(s, i); }
  }

  lemma SwallowedStays(s: Pool, i: nat, work: nat -> nat, l: nat)
    requires WorkerEnabled(s, i) && s.front < |s.cells| && l < |s.workers| && Is(s.workers[l], Swallowed)
    ensures Is(WorkerStep(s, i, work).workers[l], Swallowed)
  {
  }

  lemma WorkerKeepsPillEach(s: Pool, i: nat, work: nat -> nat)
    requires Counts(s) && Places(s) && CellsHold(s) && Carries(s) && PillEach(s) && LeftByPill(s)
    requires WorkerEnabled(s, i) && s.front < |s.cells| && Carries(WorkerStep(s, i, work))
    ensures PillEach(WorkerStep(s, i, work))
  {
    hide Tally;
    hide Slot;
    hide Counts;
    hide Places;
    var t := WorkerStep(s, i, work);
    if s.workers[i].TakeCell? {
      LoadsOldest(s, i);
      assert !Is(s.workers[i], Swallowed);
      assert Is(t.workers[i], Swallowed) || s.put[|s.takers|] != STOP;
    }
    assert s.takers <= t.takers && t.put == s.put && |t.takers| <= |s.takers| + 1;
    hide WorkerStep;
    hide WorkerEnabled;
    hide CellsHold;
    forall j | 0 <= j < |s.takers| && s.put[j] == STOP ensures Is(t.workers[s.takers[j]], Swallowed) {
      SwallowedStays(s, i, work, s.takers[j]);
    }
  }

  lemma WorkerKeepsLeft(s: Pool, i: nat, work: nat -> nat)
    requires Counts(s) && Places(s) && CellsHold(s) && Carries(s) && LeftByPill(s)
    requires WorkerEnabled(s, i) && s.front < |s.cells|
    ensures LeftByPill(WorkerStep(s, i, work))
  {
    hide Tally;
    hide Slot;
    hide Counts;
    hide Places;
    var t := WorkerStep(s, i, work);
    if s.workers[i].TakeCell? { LoadsOldest(s, i); }
    forall l | 0 <= l < |t.workers| && Is(t.workers[l], Swallowed) ensures TookPill(t, l) {
      if l == i && s.workers[i].TakeCell? {
        assert t.put[|s.takers|] == STOP && t.takers[|s.takers|] == i;
      } else {
        assert Is(s.workers[l], Swallowed) && TookPill(s, l);
        var j :| 0 <= j < |s.takers| && j < |s.put| && s.put[j] == STOP && s.takers[j] == l;
        assert t.takers[j] == l;
      }
    }
  }

  lemma WorkerKeepsLive(s: Pool, i: nat, work: nat -> nat)
    requires Counts(s) && Places(s) && CellsHold(s) && PillsLast(s) && LiveCount(s)
    requires WorkerEnabled(s, i) && s.front < |s.cells|
    ensures LiveCount(WorkerStep(s, i, work))
  {
    hide Tally;
    hide Slot;
    if s.workers[i].TakeCell? { LoadsOldest(s, i); }
    TallyUpdate(s.workers, i, WorkerStep(s, i, work).workers[i], Swallowed);
  }

  /** A step of the whole pool. An access outside the ring would leave any state at all. */
  ghost predicate Next(s: Pool, t: Pool, a: Actor, work: nat -> nat) {
    match a
    case Main(fd) =>
      MainEnabled(s) && ((s.main.PutCell? ==> s.rear < |s.cells|) ==> t == MainStep(s, fd))
    case Nth(i) =>
      WorkerEnabled(s, i) && ((s.workers[i].TakeCell? ==> s.front < |s.cells|) ==> t == WorkerStep(s, i, work))
  }

  lemma IndexesInRange(s: Pool)
    requires Counts(s) && CellsHold(s) && Places(s)
    ensures s.rear < |s.cells| && s.front < |s.cells|
  {
  }

  lemma InvKept(s: Pool, t: Pool, a: Actor, work: nat -> nat)
    requires Inv(s) && Next(s, t, a, work)
    ensures Inv(t)
  {
    hide Tally, Slot, Is, MainOk, Counts, CellsHold, PillsPut, PillsLast, AcceptedPut;
    hide Carries, LeftByPill, LiveCount, TookPill;
    assert s.rear < |s.cells| && s.front < |s.cells| by { IndexesInRange(s); }
    match a
    case Main(fd) =>
      MainKeepsCounts(s, fd);
      MainKeepsPlaces(s, fd);
      MainKeepsCells(s, fd);
      MainKeepsPills(s, fd);
      MainKeepsAccepted(s, fd);
      MainKeepsCarries(s, fd);
      MainKeepsLive(s, fd);
    case Nth(i) =>
      WorkerKeepsCounts(s, i, work);
      WorkerKeepsPlaces(s, i, work);
      WorkerKeepsCells(s, i, work);
      WorkerKeepsMain(s, i, work);
      WorkerKeepsCarries(s, i, work);
      WorkerKeepsPillEach(s, i, work);
      WorkerKeepsLeft(s, i, work);
      WorkerKeepsLive(s, i, work);
  }

  // ---------- whole runs ----------

  ghost predicate Steps(states: seq<Pool>, actors: seq<Actor>, work: nat -> nat) {
    && |states| == |actors| + 1
    && forall n :: 0 <= n < |actors| ==> Next(states[n], states[n + 1], actors[n], work)
  }

  lemma SameWorkers(s: Pool, t: Pool, a: Actor, work: nat -> nat)
    requires Inv(s) && Next(s, t, a, work)
    ensures |t.workers| == |s.workers|
  {
    IndexesInRange(s);
  }

  lemma {:induction false} RunKeepsInv(states: seq<Pool>, actors: seq<Actor>, work: nat -> nat, n: nat)
    requires Steps(states, actors, work) && Inv(states[0]) && n < |states|
    ensures Inv(states[n]) && |states[n].workers| == |states[0].workers|
  {
    hide Inv;
    if n > 0 {
      RunKeepsInv(states, actors, work, n - 1);
      InvKept(states[n - 1], states[n], actors[n - 1], work);
      SameWorkers(states[n - 1], states[n], actors[n - 1], work);
    }
  }

  /** The bounded buffer, over every run: at most one thread is in the ring; free slots, the slot the
      main thread holds, values waiting and cells being emptied account for all 64 cells, and the
      items for the values waiting; the value about to be overwritten is one already taken, the value
      about to be read is the oldest one not taken, and values leave in the order they came in. */
  lemma BoundedBuffer(states: seq<Pool>, actors: seq<Actor>, k: nat, work: nat -> nat, n: nat)
    requires Steps(states, actors, work) && Init(states[0], k) && n < |states|
    ensures var s := states[n];
      && |s.cells| == 64 && s.took <= s.put && |s.put| <= |s.took| + 64
      && One(MainIn(s.main)) + Tally(s.workers, InRing) <= 1
      && s.slots + One(MainHasSlot(s.main)) + (|s.put| - |s.took|) + Tally(s.workers, HoldsCell) == 64
      && s.items + One(MainHasItem(s.main)) + Tally(s.workers, HoldsItem) == |s.put| - |s.took|
      && (s.main.PutCell? ==> s.rear < 64)
      && (forall j :: |s.took| <= j < |s.put| ==> s.cells[Slot(j)] == s.put[j])
      && (forall j :: |s.took| <= j < |s.put| && s.main.PutCell? ==> Slot(j) != s.rear)
      && (forall i :: 0 <= i < |s.workers| && s.workers[i].TakeCell? ==>
           |s.took| < |s.put| && s.front < 64 && s.cells[s.front] == s.put[|s.took|])
  {
    InitInv(states[0], k);
    hide Slot, MainOk, PillsLast, AcceptedPut, PillEach, LeftByPill, LiveCount;
    RunKeepsInv(states, actors, work, n);
    var s := states[n];
    if s.main.PutCell? { StoresIntoFreeCell(s); }
    forall i | 0 <= i < |s.workers| && s.workers[i].TakeCell?
      ensures |s.took| < |s.put| && s.front < QUEUE_SIZE && s.cells[s.front] == s.put[|s.took|]
    {
      LoadsOldest(s, i);
    }
  }

  function Pills(k: nat): (p: seq<int>) { seq(k, i => STOP) }

  lemma QuietAtDone(s: Pool)
    requires MainOk(s) && Counts(s) && Places(s) && s.main.Done? && |s.put| == |s.takers|
    ensures s.slots == QUEUE_SIZE && s.items == 0 && s.ring == 1 && s.front == s.rear
  {
    hide Slot;
    TallyNone(s.workers, InRing);
    TallyNone(s.workers, HoldsItem);
    TallyNone(s.workers, HoldsCell);
    TallyNone(s.workers, AtFront);
  }

  lemma PillTail(put: seq<int>, n: nat, k: nat)
    requires |put| == n + k && forall j :: n <= j < |put| ==> put[j] == STOP
    ensures put == put[..n] + Pills(k)
  {
  }

  lemma NothingWaiting(s: Pool)
    requires MainOk(s) && Counts(s) && PillsLast(s) && LiveCount(s) && s.main.Done?
    ensures |s.put| == |s.takers|
  {
    TallyNone(s.workers, Swallowed);
  }

  lemma AllTakenAtDone(s: Pool)
    requires MainOk(s) && Counts(s) && PillsLast(s) && AcceptedPut(s) && Carries(s) && LiveCount(s) && s.main.Done?
    ensures |s.put| == |s.takers|
    ensures s.took == s.accepted + Pills(|s.workers|)
  {
    NothingWaiting(s);
    PillTail(s.put, |s.put| - |s.workers|, |s.workers|);
    hide MainOk, Counts, LiveCount, Tally, Pills;
    assert s.took == s.put;
  }

  /** Worker i made the j-th take and got a pill. */
  predicate PillOf(s: Pool, i: nat, j: nat) {
    |s.accepted| <= j < |s.took| && j < |s.takers| && s.took[j] == STOP && s.takers[j] == i
  }

  ghost predicate TookOnePill(s: Pool, i: nat) {
    exists j: nat :: PillOf(s, i, j) && forall l: nat :: PillOf(s, i, l) ==> l == j
  }

  lemma OnePillEach(s: Pool, i: nat)
    requires Carries(s) && PillEach(s) && LeftByPill(s) && i < |s.workers| && Is(s.workers[i], Swallowed)
    requires PillsLast(s) && s.took == s.put && |s.accepted| == |s.put| - PillsPut(s)
    ensures TookOnePill(s, i)
  {
    hide PillsPut, Is;
    assert TookPill(s, i);
    var j :| 0 <= j < |s.takers| && j < |s.put| && s.put[j] == STOP && s.takers[j] == i;
    assert PillOf(s, i, j);
    forall l: nat | PillOf(s, i, l) ensures l == j {
      assert !(l < j) && !(j < l);
    }
  }

  ghost predicate Closed(s: Pool) {
    && (forall i :: 0 <= i < |s.workers| ==> s.workers[i].Exited? && TookOnePill(s, i))
    && s.took == s.put == s.accepted + Pills(|s.workers|) && |s.takers| == |s.took|
    && s.slots == 64 && s.items == 0 && s.ring == 1 && s.front == s.rear
  }

  lemma DoneIsClosed(s: Pool)
    requires Inv(s) && s.main.Done?
    ensures Closed(s)
  {
    hide PillOf, TookOnePill, PillEach, LeftByPill, LiveCount, AcceptedPut, PillsLast, Counts, Places, CellsHold;
    AllTakenAtDone(s);
    QuietAtDone(s);
    forall i | 0 <= i < |s.workers| ensures TookOnePill(s, i) { OnePillEach(s, i); }
  }

  /** The descriptors that accept has returned in the first n steps. */
  ghost function Got(states: seq<Pool>, actors: seq<Actor>, n: nat): seq<int>
    requires |states| == |actors| + 1 && n < |states|
  {
    if n == 0 then [] else
      var a := actors[n - 1];
      Got(states, actors, n - 1) + if a.Main? && a.fd >= 0 && states[n - 1].main.Accepting? then [a.fd] else []
  }

  lemma AcceptedGrows(s: Pool, t: Pool, a: Actor, work: nat -> nat)
    requires Inv(s) && Next(s, t, a, work)
    ensures t.accepted == s.accepted + if a.Main? && a.fd >= 0 && s.main.Accepting? then [a.fd] else []
  {
    IndexesInRange(s);
  }

  lemma {:induction false} AcceptedIsGot(states: seq<Pool>, actors: seq<Actor>, k: nat, work: nat -> nat, n: nat)
    requires Steps(states, actors, work) && Init(states[0], k) && n < |states|
    ensures states[n].accepted == Got(states, actors, n)
  {
    hide Inv, Next;
    if n > 0 {
      AcceptedIsGot(states, actors, k, work, n - 1);
      InitInv(states[0], k);
      RunKeepsInv(states, actors, work, n - 1);
      AcceptedGrows(states[n - 1], states[n], actors[n - 1], work);
    }
  }

  /** When stop_workers has returned, every descriptor that accept returned was taken exactly once, in
      that order and before any pill; every worker took exactly one pill and has exited; the queue is
      back to its initial state. */
  lemma GracefulShutdown(states: seq<Pool>, actors: seq<Actor>, k: nat, work: nat -> nat)
    requires Steps(states, actors, work) && Init(states[0], k) && states[|actors|].main.Done?
    ensures Closed(states[|actors|]) && |states[|actors|].workers| == k
    ensures states[|actors|].took == Got(states, actors, |actors|) + Pills(k)
  {
    hide Next, Inv, Got, Pills;
    InitInv(states[0], k);
    RunKeepsInv(states, actors, work, |actors|);
    DoneIsClosed(states[|actors|]);
    AcceptedIsGot(states, actors, k, work, |actors|);
  }

  // ---------- progress ----------

  predicate Enabled(s: Pool, a: Actor) {
    match a
    case Main(_) => MainEnabled(s)
    case Nth(i) => WorkerEnabled(s, i)
  }

  /** Whoever holds the ring can go on; when nobody does, a worker that holds or can get an item can. */
  lemma WorkerCanRun(s: Pool) returns (a: Actor)
    requires Counts(s) && LiveCount(s) && PillsPut(s) <= |s.put| && PillsPut(s) <= |s.workers|
    requires !MainIn(s.main) && (s.ring == 0 || (!MainHasItem(s.main) && |s.put| > |s.takers|))
    requires |s.workers| > Tally(s.workers, Swallowed)
    ensures Enabled(s, a)
  {
    if s.ring == 0 {
      var i := TallyWitness(s.workers, InRing);
      a := Nth(i);
    } else if s.items == 0 {
      var i := TallyWitness(s.workers, HoldsItem);
      a := Nth(i);
    } else {
      TallyNone(s.workers, Swallowed);
      var i :| 0 <= i < |s.workers| && !Is(s.workers[i], Swallowed);
      a := Nth(i);
    }
  }

  lemma DeadlockFree(s: Pool) returns (a: Actor)
    requires Inv(s) && !s.main.Done?
    ensures Enabled(s, a)
  {
    hide PillEach, LeftByPill, Carries, AcceptedPut, CellsHold, Places, Tally;
    if MainEnabled(s) {
      a := Main(-1);
    } else if s.main.AwaitSlot? && Tally(s.workers, HoldsCell) > 0 {
      var i := TallyWitness(s.workers, HoldsCell);
      a := Nth(i);
    } else if s.main.Joining? && Enabled(s, Nth(s.main.joined)) {
      a := Nth(s.main.joined);
    } else {
      TallyNone(s.workers, Swallowed);
      if s.main.Joining? { assert !Is(s.workers[s.main.joined], Swallowed); }
      a := WorkerCanRun(s);
    }
  }

  // ---------- shutdown ends ----------

  /** The accept loop is over. */
  predicate Closing(m: MainPc) {
    m.Stopping? || m.Joining? || m.Done? || (Inserting(m) && m.v == STOP)
  }

  function Left(v: int, j: nat, work: nat -> nat): nat { if v == STOP then 0 else work(j) }

  function MainWeight(m: MainPc, k: nat): int
    requires !m.Accepting?
  {
    match m
    case Done => 0
    case Joining(j) => k - j + 1
    case Stopping(p) => 16 * (k - p) + k + 2
    case AwaitSlot(_, p) => 16 * (k - p) + k + 1
    case AwaitRing(_, p) => 16 * (k - p) + k
    case PutCell(_, p) => 16 * (k - p) + k - 1
    case PutRear(_, p) => 16 * (k - p) + k - 10
    case LeaveRing(_, p) => 16 * (k - p) + k - 11
    case PostItem(_, p) => 16 * (k - p) + k - 12
  }

  function Weight(w: Worker, work: nat -> nat): nat {
    match w
    case AwaitItem => 2
    case EnterRing => 1
    case TakeCell => 0
    case TakeFront(v, j) => Left(v, j, work) + 7
    case ExitRing(v, j) => Left(v, j, work) + 6
    case PostSlot(v, j) => Left(v, j, work) + 5
    case Decide(v, j) => Left(v, j, work) + 4
    case Serving(_, _, left) => left + 3
    case Exited => 0
  }

  function PoolWeight(ws: seq<Worker>, work: nat -> nat): nat {
    if ws == [] then 0 else PoolWeight(ws[..|ws| - 1], work) + Weight(ws[|ws| - 1], work)
  }

  /** The values put from place `a` on. */
  function QueueWeight(put: seq<int>, a: nat, work: nat -> nat): nat
    decreases |put|
  {
    if |put| <= a then 0
    else QueueWeight(put[..|put| - 1], a, work) + 8 + Left(put[|put| - 1], |put| - 1, work)
  }

  /** How many steps the shutdown can still take at most. */
  function Remaining(s: Pool, work: nat -> nat): int
    requires !s.main.Accepting?
  {
    MainWeight(s.main, |s.workers|) + QueueWeight(s.put, |s.takers|, work) + PoolWeight(s.workers, work)
  }

  lemma {:induction false} PoolWeightUpdate(ws: seq<Worker>, i: nat, w: Worker, work: nat -> nat)
    requires i < |ws|
    ensures PoolWeight(ws[i := w], work) + Weight(ws[i], work) == PoolWeight(ws, work) + Weight(w, work)
  {
    var n := |ws| - 1;
    if i == n {
      assert ws[i := w][..n] == ws[..n];
    } else {
      assert ws[i := w][..n] == ws[..n][i := w];
      PoolWeightUpdate(ws[..n], i, w, work);
    }
  }

  lemma {:induction false} QueueWeightTake(put: seq<int>, a: nat, work: nat -> nat)
    requires a < |put|
    ensures QueueWeight(put, a, work) == 8 + Left(put[a], a, work) + QueueWeight(put, a + 1, work)
  {
    if a < |put| - 1 { QueueWeightTake(put[..|put| - 1], a, work); }
  }

  lemma RemainingIsNatural(s: Pool, work: nat -> nat)
    requires MainOk(s) && Closing(s.main)
    ensures Remaining(s, work) >= 0
  {
  }

  lemma QueueWeightPut(put: seq<int>, a: nat, work: nat -> nat)
    requires a <= |put|
    ensures QueueWeight(put + [STOP], a, work) == QueueWeight(put, a, work) + 8
  {
    assert (put + [STOP])[..|put|] == put;
  }

  lemma ShutdownShrinks(s: Pool, t: Pool, a: Actor, work: nat -> nat)
    requires Inv(s) && Closing(s.main) && Next(s, t, a, work)
    ensures Closing(t.main) && Remaining(t, work) < Remaining(s, work)
  {
    hide PillEach, LeftByPill, AcceptedPut, LiveCount, PoolWeight, QueueWeight, Tally, Slot;
    IndexesInRange(s);
    match a
    case Main(_) =>
      if s.main.PutCell? {
        assert QueueWeight(s.put + [STOP], |s.takers|, work) == QueueWeight(s.put, |s.takers|, work) + 8 by {
          QueueWeightPut(s.put, |s.takers|, work);
        }
      }
    case Nth(i) =>
      PoolWeightUpdate(s.workers, i, t.workers[i], work);
      if s.workers[i].TakeCell? {
        LoadsOldest(s, i);
        QueueWeightTake(s.put, |s.takers|, work);
      }
  }

  lemma {:induction false} RunShrinks(states: seq<Pool>, actors: seq<Actor>, work: nat -> nat, n: nat)
    requires Steps(states, actors, work) && Inv(states[0]) && Closing(states[0].main) && n < |states|
    ensures Closing(states[n].main) && Remaining(states[n], work) <= Remaining(states[0], work) - n
  {
    hide Inv, Next, Remaining, Closing;
    if n > 0 {
      RunShrinks(states, actors, work, n - 1);
      RunKeepsInv(states, actors, work, n - 1);
      ShutdownShrinks(states[n - 1], states[n], actors[n - 1], work);
    }
  }

  /** However the threads are scheduled, a closing pool stops within the bound, and it stops only
      where stop_workers has returned. */
  lemma ShutdownEnds(states: seq<Pool>, actors: seq<Actor>, work: nat -> nat)
    requires Steps(states, actors, work) && Inv(states[0]) && Closing(states[0].main)
    ensures |actors| <= Remaining(states[0], work)
    ensures (forall a :: !Enabled(states[|actors|], a)) <==> states[|actors|].main.Done?
  {
    RunShrinks(states, actors, work, |actors|);
    RunKeepsInv(states, actors, work, |actors|);
    var s := states[|actors|];
    RemainingIsNatural(s, work);
    if s.main.Done? {
      forall a ensures !Enabled(s, a) { }
    } else {
      var a := DeadlockFree(s);
    }
  }

  // ---------- the ring in place ----------

  /** The array and the indexes of conn_queue_t. What slots and items guarantee at the two accesses
      (StoresIntoFreeCell, LoadsOldest) is what the methods require. */
  class ConnQueue {
    const fds: array<int>
    var front: nat
    var rear: nat
    ghost var put: seq<int>
    ghost var taken: nat

    ghost predicate Valid()
      reads this, fds
    {
      && fds.Length == QUEUE_SIZE && taken <= |put| <= taken + QUEUE_SIZE
      && rear == Slot(|put|) && front == Slot(taken)
      && forall j :: taken <= j < |put| ==> fds[Slot(j)] == put[j]
    }

    ghost function Contents(): seq<int>
      requires Valid()
      reads this, fds
    {
      put[taken..]
    }

    /** conn_queue_init. */
    constructor ()
      ensures Valid() && Contents() == [] && fresh(fds)
    {
      fds := new int[QUEUE_SIZE](_ => 0);
      front, rear, put, taken := 0, 0, [], 0;
    }

    /** The critical section of conn_queue_insert. */
    method Insert(connfd: int)
      requires Valid() && |Contents()| < QUEUE_SIZE
      modifies this, fds
      ensures Valid() && Contents() == old(Contents()) + [connfd]
    {
      hide Slot;
      forall j | taken <= j < |put| ensures Slot(j) != rear { SlotsApart(|put|, j); }
      SlotNext(|put|);
      fds[rear] := connfd;
      rear := (rear + 1) % QUEUE_SIZE;
      put := put + [connfd];
    }

    /** The critical section of conn_queue_remove. */
    method Remove() returns (connfd: int)
      requires Valid() && Contents() != []
      modifies this
      ensures Valid() && [connfd] + Contents() == old(Contents())
    {
      hide Slot;
      SlotNext(taken);
      connfd := fds[front];
      front := (front + 1) % QUEUE_SIZE;
      taken := taken + 1;
    }
  }
}
