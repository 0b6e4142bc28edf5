/** The socket queue between the acceptor and the workers: threadpool.c, the accepting loop
    of server.c and the waiting loop of worker.c. */
module ThreadPool {
  const THREAD_POOL_MAX_QUEUE_SIZE := 100

  /** The circular queue as a value. */
  datatype Ring = Ring(sockets: seq<int>, head: nat, waiting: nat)

  predicate RingOk(r: Ring) {
    |r.sockets| == THREAD_POOL_MAX_QUEUE_SIZE && r.head < THREAD_POOL_MAX_QUEUE_SIZE
  }

  /** The waiting sockets, first come first. */
  function Queued(r: Ring): seq<int>
    requires RingOk(r)
  {
    seq(r.waiting, k requires 0 <= k < r.waiting => r.sockets[(r.head + k) % THREAD_POOL_MAX_QUEUE_SIZE])
  }

  function Added(r: Ring, socket: int): Ring
    requires RingOk(r)
  {
    Ring(r.sockets[(r.head + r.waiting) % THREAD_POOL_MAX_QUEUE_SIZE := socket], r.head, r.waiting + 1)
  }

  function Taken(r: Ring): Ring
    requires RingOk(r) && r.waiting > 0
  {
    Ring(r.sockets, (r.head + 1) % THREAD_POOL_MAX_QUEUE_SIZE, r.waiting - 1)
  }

  /** A socket joins the end of the queue exactly when fewer than 100 are waiting (or it
      overwrites its own number). */
  lemma AddedExact(r: Ring, socket: int)
    requires RingOk(r)
    ensures RingOk(Added(r, socket))
    ensures Queued(Added(r, socket)) == Queued(r) + [socket]
       <==> r.waiting < THREAD_POOL_MAX_QUEUE_SIZE
            || r.sockets[(r.head + r.waiting) % THREAD_POOL_MAX_QUEUE_SIZE] == socket
  {
    var q, q' := Queued(r), Queued(Added(r, socket));
    var pos := (r.head + r.waiting) % THREAD_POOL_MAX_QUEUE_SIZE;
    if r.waiting < THREAD_POOL_MAX_QUEUE_SIZE || r.sockets[pos] == socket {
      forall k | 0 <= k < r.waiting
        ensures q'[k] == q[k]
      {
        if r.waiting < THREAD_POOL_MAX_QUEUE_SIZE {
          PlacesApart(r.head, k, r.waiting);
        }
      }
      assert q' == q + [socket];
    } else {
      var k := r.waiting - THREAD_POOL_MAX_QUEUE_SIZE;
      assert (r.head + k) % THREAD_POOL_MAX_QUEUE_SIZE == pos;
      assert q'[k] == socket && (q + [socket])[k] == r.sockets[pos];
    }
  }

  lemma PlacesApart(head: nat, k: nat, waiting: nat)
    requires k < waiting < THREAD_POOL_MAX_QUEUE_SIZE
    ensures (head + k) % THREAD_POOL_MAX_QUEUE_SIZE != (head + waiting) % THREAD_POOL_MAX_QUEUE_SIZE
  {
  }

  lemma TakenExact(r: Ring)
    requires RingOk(r) && r.waiting > 0
    ensures RingOk(Taken(r)) && Queued(r) == [r.sockets[r.head]] + Queued(Taken(r))
  {
    var q, rest := Queued(r), Queued(Taken(r));
    forall k | 0 <= k < |rest|
      ensures q[k + 1] == rest[k]
    {
      NextPlace(r.head, k);
    }
    assert q[0] == r.sockets[r.head];
    assert q == [q[0]] + q[1..] && q[1..] == rest;
  }

  lemma NextPlace(head: nat, k: nat)
    ensures ((head + 1) % THREAD_POOL_MAX_QUEUE_SIZE + k) % THREAD_POOL_MAX_QUEUE_SIZE == (head + (k + 1)) % THREAD_POOL_MAX_QUEUE_SIZE
  {
  }

  class Pool {
    const sockets: array<int>
    var qHead: nat
    var qWaiting: nat

    ghost predicate Valid()
      reads this
    {
      sockets.Length == THREAD_POOL_MAX_QUEUE_SIZE && qHead < THREAD_POOL_MAX_QUEUE_SIZE
    }

    ghost function Contents(): (r: Ring)
      requires Valid()
      reads this, sockets
    {
      Ring(sockets[..], qHead, qWaiting)
    }

    constructor ()
      ensures Valid() && fresh(sockets) && Queued(Contents()) == []
    {
      sockets := new int[THREAD_POOL_MAX_QUEUE_SIZE](_ => 0);
      qHead, qWaiting := 0, 0;
    }

    method AddNewSocket(socket: int)
      requires Valid()
      modifies this`qWaiting, sockets
      ensures Valid() && Contents() == Added(old(Contents()), socket)
      ensures old(qWaiting) < THREAD_POOL_MAX_QUEUE_SIZE ==> Queued(Contents()) == old(Queued(Contents())) + [socket]
    {
      AddedExact(Contents(), socket);
      var pos := (qHead + qWaiting) % THREAD_POOL_MAX_QUEUE_SIZE;
      ghost var before := sockets[..];
      sockets[pos] := socket;
      assert sockets[..] == before[pos := socket];
      qWaiting := qWaiting + 1;
    }

    method GetSocket() returns (socket: int)
      requires Valid() && qWaiting > 0
      modifies this`qHead, this`qWaiting
      ensures Valid() && Contents() == Taken(old(Contents()))
      ensures old(Queued(Contents())) == [socket] + Queued(Contents())
    {
      TakenExact(Contents());
      socket := sockets[qHead];
      qHead := (qHead + 1) % THREAD_POOL_MAX_QUEUE_SIZE;
      qWaiting := qWaiting - 1;
    }
  }

  // ----- acceptor and workers -----

  datatype Owner = Nobody | TheAcceptor | Worker(id: nat)

  /** The acceptor: waiting for a connection, then the lock, then computing the place,
      writing the cell, loading and storing the count, signalling, unlocking. */
  datatype Acceptor = Accepting | WantsLock(socket: int) | Locked(socket: int) | Located(socket: int, place: nat)
                    | Written(socket: int) | Loaded(socket: int, count: nat) | HasAdded | HasSignalled

  /** A worker: about to lock; testing the count under the lock; about to sleep; asleep;
      about to take; having read the cell, moved the head, wrapped it, loaded the count;
      about to unlock; serving.  A ticket says which of the sockets handed out it holds. */
  datatype WorkerState = Wanting | Deciding | Retiring | Sleeping | Taking | HasRead(ticket: nat) | HasMoved(ticket: nat)
                       | HasWrapped(ticket: nat) | HasLoaded(ticket: nat, count: nat) | Leaving(ticket: nat) | Serving(ticket: nat)

  /** A socket handed to a worker. */
  datatype Handed = Handed(socket: int, worker: nat)

  /** The shared memory (the ring, whose fields change one at a time), who holds the lock,
      where everybody is, and the history. */
  datatype State = State(ring: Ring, mutex: Owner, acceptor: Acceptor, workers: seq<WorkerState>,
                         accepted: seq<int>, handed: seq<Handed>)

  datatype Step = Accept(socket: int) | AcceptorLocks | AcceptorLocates | AcceptorWrites | AcceptorLoads | AcceptorAdds
                | AcceptorSignals(woken: set<nat>) | AcceptorUnlocks
                | WorkerLocks(w: nat) | WorkerTests(w: nat) | WorkerWaits(w: nat) | WorkerReads(w: nat) | WorkerMoves(w: nat)
                | WorkerWraps(w: nat) | WorkerLoads(w: nat) | WorkerCounts(w: nat) | WorkerUnlocks(w: nat)
                | WorkerReturns(w: nat) | WorkerWakes(w: nat)

  predicate Init(s: State) {
    && RingOk(s.ring) && s.ring.waiting == 0 && s.mutex == Nobody && s.acceptor == Accepting
    && (forall w :: 0 <= w < |s.workers| ==> s.workers[w] == Wanting)
    && s.accepted == [] && s.handed == []
  }

  predicate Asleep(s: State, w: nat) {
    w < |s.workers| && s.workers[w] == Sleeping
  }

  predicate At(s: State, w: nat, x: WorkerState) {
    w < |s.workers| && s.workers[w] == x
  }

  /** When a step can be taken: only taking the lock waits for anybody.  Adding is only
      considered with fewer than 100 waiting. */
  ghost predicate Enabled(s: State, step: Step) {
    match step
    case Accept(_) => s.acceptor == Accepting
    case AcceptorLocks => s.acceptor.WantsLock? && s.mutex == Nobody
    case AcceptorLocates => s.acceptor.Locked? && s.ring.waiting < THREAD_POOL_MAX_QUEUE_SIZE
    case AcceptorWrites => s.acceptor.Located?
    case AcceptorLoads => s.acceptor.Written?
    case AcceptorAdds => s.acceptor.Loaded?
    case AcceptorSignals(woken) =>
      // at least one of the sleeping workers wakes up, if there is one
      && s.acceptor.HasAdded?
      && (forall w :: w in woken ==> Asleep(s, w))
      && ((exists w :: Asleep(s, w)) ==> woken != {})
    case AcceptorUnlocks => s.acceptor.HasSignalled?
    case WorkerLocks(w) => At(s, w, Wanting) && s.mutex == Nobody
    case WorkerTests(w) => At(s, w, Deciding)
    case WorkerWaits(w) => At(s, w, Retiring)
    case WorkerReads(w) => At(s, w, Taking)
    case WorkerMoves(w) => w < |s.workers| && s.workers[w].HasRead?
    case WorkerWraps(w) => w < |s.workers| && s.workers[w].HasMoved?
    case WorkerLoads(w) => w < |s.workers| && s.workers[w].HasWrapped?
    case WorkerCounts(w) => w < |s.workers| && s.workers[w].HasLoaded?
    case WorkerUnlocks(w) => w < |s.workers| && s.workers[w].Leaving?
    case WorkerReturns(w) => w < |s.workers| && s.workers[w].Serving?
    case WorkerWakes(w) => Asleep(s, w)
  }

  function Woken(workers: seq<WorkerState>, woken: set<nat>): seq<WorkerState> {
    seq(|workers|, w requires 0 <= w < |workers| => if w in woken then Wanting else workers[w])
  }

  function Cell(sockets: seq<int>, place: nat): int {
    if place < |sockets| then sockets[place] else 0
  }

  function WithCell(sockets: seq<int>, place: nat, socket: int): seq<int> {
    if place < |sockets| then sockets[place := socket] else sockets
  }

  /** One less; in no reachable state does a worker store the count of an empty queue. */
  function Less(count: nat): nat {
    if count > 0 then count - 1 else 0
  }

  /** Worker w goes on to x. */
  function Moved(s: State, w: nat, x: WorkerState): State
    requires w < |s.workers|
  {
    s.(workers := s.workers[w := x])
  }

  ghost function Next(s: State, step: Step): State
    requires Enabled(s, step)
  {
    match step
    case Accept(socket) => s.(acceptor := WantsLock(socket), accepted := s.accepted + [socket])
    case AcceptorLocks => s.(acceptor := Locked(s.acceptor.socket), mutex := TheAcceptor)
    case AcceptorLocates =>
      s.(acceptor := Located(s.acceptor.socket, (s.ring.head + s.ring.waiting) % THREAD_POOL_MAX_QUEUE_SIZE))
    case AcceptorWrites =>
      s.(acceptor := Written(s.acceptor.socket),
         ring := s.ring.(sockets := WithCell(s.ring.sockets, s.acceptor.place, s.acceptor.socket)))
    case AcceptorLoads => s.(acceptor := Loaded(s.acceptor.socket, s.ring.waiting))
    case AcceptorAdds => s.(acceptor := HasAdded, ring := s.ring.(waiting := s.acceptor.count + 1))
    case AcceptorSignals(woken) => s.(acceptor := HasSignalled, workers := Woken(s.workers, woken))
    case AcceptorUnlocks => s.(acceptor := Accepting, mutex := Nobody)
    case WorkerLocks(w) => Moved(s, w, Deciding).(mutex := Worker(w))
    case WorkerTests(w) => Moved(s, w, if s.ring.waiting == 0 then Retiring else Taking)
    case WorkerWaits(w) => Moved(s, w, Sleeping).(mutex := Nobody)
    case WorkerReads(w) =>
      Moved(s, w, HasRead(|s.handed|)).(handed := s.handed + [Handed(Cell(s.ring.sockets, s.ring.head), w)])
    case WorkerMoves(w) => Moved(s, w, HasMoved(s.workers[w].ticket)).(ring := s.ring.(head := s.ring.head + 1))
    case WorkerWraps(w) =>
      Moved(s, w, HasWrapped(s.workers[w].ticket)).(ring := s.ring.(head := s.ring.head % THREAD_POOL_MAX_QUEUE_SIZE))
    case WorkerLoads(w) => Moved(s, w, HasLoaded(s.workers[w].ticket, s.ring.waiting))
    case WorkerCounts(w) =>
      Moved(s, w, Leaving(s.workers[w].ticket)).(ring := s.ring.(waiting := Less(s.workers[w].count)))
    case WorkerUnlocks(w) => Moved(s, w, Serving(s.workers[w].ticket)).(mutex := Nobody)
    case WorkerReturns(w) => Moved(s, w, Wanting)
    case WorkerWakes(w) => Moved(s, w, Wanting)
  }

  // ----- what every step keeps -----

  predicate AcceptorInside(a: Acceptor) {
    a.Locked? || a.Located? || a.Written? || a.Loaded? || a.HasAdded? || a.HasSignalled?
  }

  predicate WorkerInside(x: WorkerState) {
    !x.Wanting? && !x.Sleeping? && !x.Serving?
  }

  /** The lock has exactly the owner whose position in the program says so. */
  ghost predicate Exclusive(s: State) {
    && (s.mutex == TheAcceptor <==> AcceptorInside(s.acceptor))
    && (s.mutex.Worker? ==> s.mutex.id < |s.workers|)
    && (forall w :: 0 <= w < |s.workers| ==> (s.mutex == Worker(w) <==> WorkerInside(s.workers[w])))
  }

  function Sockets(handed: seq<Handed>): seq<int> {
    seq(|handed|, k requires 0 <= k < |handed| => handed[k].socket)
  }

  function InHand(a: Acceptor): seq<int> {
    if a.WantsLock? || a.Locked? || a.Located? || a.Written? || a.Loaded? then [a.socket] else []
  }

  /** The queue that a half-finished removal is about to leave in the ring. */
  function Finished(r: Ring, x: WorkerState): Ring {
    match x
    case HasRead(_) => Ring(r.sockets, (r.head + 1) % THREAD_POOL_MAX_QUEUE_SIZE, Less(r.waiting))
    case HasMoved(_) => Ring(r.sockets, r.head % THREAD_POOL_MAX_QUEUE_SIZE, Less(r.waiting))
    case HasWrapped(_) => Ring(r.sockets, r.head, Less(r.waiting))
    case HasLoaded(_, _) => Ring(r.sockets, r.head, Less(r.waiting))
    case _ => r
  }

  /** The queue as the owner of the lock will leave it. */
  function View(s: State): Ring {
    if s.mutex.Worker? && s.mutex.id < |s.workers| then Finished(s.ring, s.workers[s.mutex.id]) else s.ring
  }

  /** What the acceptor has found out still holds. */
  ghost predicate AcceptorKnows(r: Ring, a: Acceptor) {
    match a
    case Located(_, place) => r.waiting < THREAD_POOL_MAX_QUEUE_SIZE && place == (r.head + r.waiting) % THREAD_POOL_MAX_QUEUE_SIZE
    case Written(socket) =>
      && r.waiting < THREAD_POOL_MAX_QUEUE_SIZE
      && Cell(r.sockets, (r.head + r.waiting) % THREAD_POOL_MAX_QUEUE_SIZE) == socket
    case Loaded(socket, count) =>
      && count == r.waiting < THREAD_POOL_MAX_QUEUE_SIZE
      && Cell(r.sockets, (r.head + r.waiting) % THREAD_POOL_MAX_QUEUE_SIZE) == socket
    case _ => true
  }

  /** What a worker has found out still holds. */
  ghost predicate WorkerKnows(r: Ring, x: WorkerState) {
    match x
    case Retiring => r.waiting == 0
    case Taking => r.waiting > 0
    case HasRead(_) => r.waiting > 0
    case HasMoved(_) => r.waiting > 0
    case HasWrapped(_) => r.waiting > 0
    case HasLoaded(_, count) => count == r.waiting > 0
    case _ => true
  }

  /** Nobody's knowledge of the shared memory is out of date. */
  ghost predicate Informed(s: State) {
    && AcceptorKnows(s.ring, s.acceptor)
    && (forall w :: 0 <= w < |s.workers| ==> WorkerKnows(s.ring, s.workers[w]))
  }

  /** Handed out, waiting, and in the acceptor's hand: together what was accepted, in order. */
  ghost predicate InOrder(s: State) {
    RingOk(View(s)) && s.accepted == Sockets(s.handed) + Queued(View(s)) + InHand(s.acceptor)
  }

  ghost predicate HasTicket(handed: seq<Handed>, w: nat, x: WorkerState) {
    x.HasRead? || x.HasMoved? || x.HasWrapped? || x.HasLoaded? || x.Leaving? || x.Serving? ==>
      x.ticket < |handed| && handed[x.ticket].worker == w
  }

  /** Every worker serves a socket that was handed to it. */
  ghost predicate TicketsOk(s: State) {
    forall w :: 0 <= w < |s.workers| ==> HasTicket(s.handed, w, s.workers[w])
  }

  /** On the way to taking a socket, or in the middle of it. */
  predicate IsComing(x: WorkerState) {
    x.Wanting? || x.Deciding? || x.Taking? || x.HasRead? || x.HasMoved? || x.HasWrapped? || x.HasLoaded?
  }

  function Coming(workers: seq<WorkerState>): nat {
    if workers == [] then 0
    else Coming(workers[..|workers| - 1]) + if IsComing(workers[|workers| - 1]) then 1 else 0
  }

  /** While a worker sleeps, every waiting socket has a worker on its way to it, or the
      acceptor is about to signal for it. */
  ghost predicate NoneForgotten(s: State) {
    (exists w :: Asleep(s, w)) ==>
      s.ring.waiting <= Coming(s.workers) + if s.acceptor.HasAdded? then 1 else 0
  }

  ghost predicate Inv(s: State) {
    Exclusive(s) && Informed(s) && InOrder(s) && TicketsOk(s) && NoneForgotten(s)
  }

  // ----- proofs -----

  lemma {:induction false} ComingUpdate(workers: seq<WorkerState>, w: nat, x: WorkerState)
    requires w < |workers|
    ensures Coming(workers[w := x]) == Coming(workers)
      - (if IsComing(workers[w]) then 1 else 0) + (if IsComing(x) then 1 else 0)
  {
    var n := |workers| - 1;
    if w < n {
      assert workers[w := x][..n] == workers[..n][w := x];
      ComingUpdate(workers[..n], w, x);
    } else {
      assert workers[w := x][..n] == workers[..n];
    }
  }

  /** Waking workers up brings them on their way. */
  lemma {:induction false} ComingWoken(workers: seq<WorkerState>, woken: set<nat>)
    requires forall w :: w in woken ==> w < |workers| && workers[w] == Sleeping
    ensures Coming(Woken(workers, woken)) >= Coming(workers) + (if woken == {} then 0 else 1)
  {
    if workers == [] {
      assert woken == {};
    } else {
      var n := |workers| - 1;
      var rest := woken - {n};
      assert Woken(workers, woken)[..n] == Woken(workers[..n], rest);
      ComingWoken(workers[..n], rest);
      if n !in woken {
        assert rest == woken;
      }
    }
  }

  predicate OfAcceptor(step: Step) {
    step.Accept? || step.AcceptorLocks? || step.AcceptorLocates? || step.AcceptorWrites? || step.AcceptorLoads?
    || step.AcceptorAdds? || step.AcceptorSignals? || step.AcceptorUnlocks?
  }

  lemma StepExclusive(s: State, step: Step)
    requires Enabled(s, step) && Exclusive(s)
    ensures Exclusive(Next(s, step))
  {
    hide Enabled, Next, Exclusive;
    if OfAcceptor(step) {
      AcceptorExclusive(s, step);
    } else {
      WorkerExclusive(s, step);
    }
  }

  lemma AcceptorExclusive(s: State, step: Step)
    requires Enabled(s, step) && OfAcceptor(step) && Exclusive(s)
    ensures Exclusive(Next(s, step))
  {
  }

  lemma WorkerExclusive(s: State, step: Step)
    requires Enabled(s, step) && !OfAcceptor(step) && Exclusive(s)
    ensures Exclusive(Next(s, step))
  {
  }

  /** A step of the acceptor leaves everybody's knowledge up to date. */
  lemma AcceptorInforms(s: State, step: Step)
    requires Enabled(s, step) && OfAcceptor(step) && Exclusive(s) && Informed(s) && InOrder(s)
    ensures Informed(Next(s, step))
  {
  }

  /** So does a step of a worker. */
  lemma WorkerInforms(s: State, step: Step)
    requires Enabled(s, step) && !OfAcceptor(step) && Exclusive(s) && Informed(s)
    ensures Informed(Next(s, step))
  {
  }

  lemma StepInformed(s: State, step: Step)
    requires Enabled(s, step) && Exclusive(s) && Informed(s) && InOrder(s)
    ensures Informed(Next(s, step))
  {
    hide Enabled, Next, Exclusive, Informed, InOrder;
    if OfAcceptor(step) {
      AcceptorInforms(s, step);
    } else {
      WorkerInforms(s, step);
    }
  }

  lemma AcceptorInOrder(s: State, step: Step)
    requires Enabled(s, step) && OfAcceptor(step) && Exclusive(s) && Informed(s) && InOrder(s)
    ensures InOrder(Next(s, step))
  {
    hide Queued;
    if step.AcceptorWrites? {
      CellWritten(s.ring, s.acceptor.place, s.acceptor.socket);
    } else if step.AcceptorAdds? {
      CellCounted(s.ring);
    }
  }

  /** Writing behind the queue leaves it as it is. */
  lemma CellWritten(r: Ring, place: nat, socket: int)
    requires RingOk(r) && r.waiting < THREAD_POOL_MAX_QUEUE_SIZE && place == (r.head + r.waiting) % THREAD_POOL_MAX_QUEUE_SIZE
    ensures RingOk(r.(sockets := WithCell(r.sockets, place, socket)))
    ensures Queued(r.(sockets := WithCell(r.sockets, place, socket))) == Queued(r)
  {
    var q, q' := Queued(r), Queued(r.(sockets := WithCell(r.sockets, place, socket)));
    forall k | 0 <= k < r.waiting
      ensures q'[k] == q[k]
    {
      PlacesApart(r.head, k, r.waiting);
    }
  }

  /** Counting one more makes the cell behind the queue part of it. */
  lemma CellCounted(r: Ring)
    requires RingOk(r) && r.waiting < THREAD_POOL_MAX_QUEUE_SIZE
    ensures Queued(r.(waiting := r.waiting + 1))
         == Queued(r) + [Cell(r.sockets, (r.head + r.waiting) % THREAD_POOL_MAX_QUEUE_SIZE)]
  {
  }

  /** All of a removal but the reading of the cell leaves the queue as it is to be. */
  lemma WorkerKeepsView(s: State, step: Step)
    requires Enabled(s, step) && !OfAcceptor(step) && !step.WorkerReads?
    requires Exclusive(s) && Informed(s) && RingOk(View(s))
    ensures View(Next(s, step)) == View(s)
  {
  }

  /** Reading the cell takes the first socket of the queue. */
  lemma ReadTakes(s: State, w: nat)
    requires Enabled(s, WorkerReads(w)) && Exclusive(s) && Informed(s) && InOrder(s)
    ensures InOrder(Next(s, WorkerReads(w)))
  {
    hide Queued;
    assert WorkerKnows(s.ring, s.workers[w]);
    TakenExact(s.ring);
  }

  lemma WorkerInOrder(s: State, step: Step)
    requires Enabled(s, step) && !OfAcceptor(step) && Exclusive(s) && Informed(s) && InOrder(s)
    ensures InOrder(Next(s, step))
  {
    hide Exclusive, Informed, View, Queued;
    if step.WorkerReads? {
      ReadTakes(s, step.w);
    } else {
      WorkerKeepsView(s, step);
    }
  }

  lemma StepInOrder(s: State, step: Step)
    requires Enabled(s, step) && Exclusive(s) && Informed(s) && InOrder(s)
    ensures InOrder(Next(s, step))
  {
    hide Enabled, Next, Exclusive, Informed, InOrder;
    if OfAcceptor(step) {
      AcceptorInOrder(s, step);
    } else {
      WorkerInOrder(s, step);
    }
  }

  lemma StepTickets(s: State, step: Step)
    requires Enabled(s, step) && TicketsOk(s)
    ensures TicketsOk(Next(s, step))
  {
  }

  lemma AcceptorForgetsNone(s: State, step: Step)
    requires Enabled(s, step) && OfAcceptor(step) && AcceptorKnows(s.ring, s.acceptor) && NoneForgotten(s)
    ensures NoneForgotten(Next(s, step))
  {
    var t := Next(s, step);
    if v :| Asleep(t, v) {
      assert Asleep(s, v);
      if step.AcceptorSignals? {
        ComingWoken(s.workers, step.woken);
      }
    }
  }

  lemma WorkerForgetsNone(s: State, step: Step)
    requires Enabled(s, step) && !OfAcceptor(step) && Informed(s) && NoneForgotten(s)
    ensures NoneForgotten(Next(s, step))
  {
    hide Coming;
    var t, w := Next(s, step), step.w;
    assert WorkerKnows(s.ring, s.workers[w]);
    ComingUpdate(s.workers, w, t.workers[w]);
    if v :| Asleep(t, v) {
      assert v != w ==> Asleep(s, v);
    }
  }

  lemma StepNoneForgotten(s: State, step: Step)
    requires Enabled(s, step) && Informed(s) && NoneForgotten(s)
    ensures NoneForgotten(Next(s, step))
  {
    hide Enabled, Next, NoneForgotten;
    if OfAcceptor(step) {
      AcceptorForgetsNone(s, step);
    } else {
      WorkerForgetsNone(s, step);
    }
  }

  lemma StepKeeps(s: State, step: Step)
    requires Enabled(s, step) && Inv(s)
    ensures Inv(Next(s, step))
  {
    hide Enabled, Next, Exclusive, Informed, InOrder, TicketsOk, NoneForgotten;
    StepExclusive(s, step);
    StepInformed(s, step);
    StepInOrder(s, step);
    StepTickets(s, step);
    StepNoneForgotten(s, step);
  }

  /** A run: every state follows from the one before by an enabled step. */
  ghost predicate Run(run: seq<State>, steps: seq<Step>) {
    && |run| == |steps| + 1 && Init(run[0])
    && forall k :: 0 <= k < |steps| ==> Enabled(run[k], steps[k]) && run[k + 1] == Next(run[k], steps[k])
  }

  /** In every interleaving of single reads and writes, at every moment: the lock is
      exclusive, nobody acts on out-of-date knowledge, the sockets handed out are a prefix of
      those accepted, each went to one worker, the ring holds the rest, and no waiting socket
      is forgotten. */
  lemma {:induction false} EveryRun(run: seq<State>, steps: seq<Step>, k: nat)
    requires Run(run, steps) && k < |run|
    ensures Inv(run[k])
    ensures Sockets(run[k].handed) <= run[k].accepted
  {
    hide Enabled, Next, Exclusive, Informed, TicketsOk, NoneForgotten;
    if k == 0 {
      InitInv(run[0]);
    } else {
      EveryRun(run, steps, k - 1);
      assert Enabled(run[k - 1], steps[k - 1]) && run[k - 1 + 1] == Next(run[k - 1], steps[k - 1]);
      StepKeeps(run[k - 1], steps[k - 1]);
    }
    var t := run[k];
    assert t.accepted == Sockets(t.handed) + (Queued(View(t)) + InHand(t.acceptor));
  }

  lemma InitInv(s: State)
    requires Init(s)
    ensures Inv(s)
  {
  }

  // ----- nobody gets stuck -----

  /** From s the steps lead to t, without a new connection. */
  ghost predicate LeadsTo(s: State, steps: seq<Step>, t: State)
    decreases |steps|
  {
    if steps == [] then s == t
    else Enabled(s, steps[0]) && !steps[0].Accept? && LeadsTo(Next(s, steps[0]), steps[1..], t)
  }

  /** How far the acceptor is from waiting for the next connection. */
  function AcceptorToDo(a: Acceptor): nat {
    match a
    case Accepting => 0
    case WantsLock(_) => 8
    case Locked(_) => 7
    case Located(_, _) => 6
    case Written(_) => 5
    case Loaded(_, _) => 4
    case HasAdded => 3
    case HasSignalled => 2
  }

  /** How far the owner of the lock is from giving it back or taking a socket, or worker 0 from
      getting the lock. */
  function LockToDo(s: State): nat
    requires s.workers != []
  {
    if s.mutex == TheAcceptor then 0
    else if s.mutex.Worker? && s.mutex.id < |s.workers| then
      match s.workers[s.mutex.id]
      case Deciding => if s.ring.waiting > 0 then 9 else 39
      case Taking => 8
      case HasRead(_) => 37
      case HasMoved(_) => 36
      case HasWrapped(_) => 35
      case HasLoaded(_, _) => 34
      case Leaving(_) => 33
      case _ => 32
    else if s.workers[0].Wanting? then 20 else 21
  }

  function ToDo(s: State): nat
    requires s.workers != []
  {
    100 * AcceptorToDo(s.acceptor) + LockToDo(s)
  }

  /** The next accepted socket has been handed to a worker. */
  ghost predicate HandsOut(s: State, t: State) {
    |s.handed| < |s.accepted| && exists w: nat :: t.handed == s.handed + [Handed(s.accepted[|s.handed|], w)]
  }

  /** A step that brings the next socket closer to a worker. */
  lemma NextStep(s: State) returns (step: Step)
    requires Inv(s) && s.workers != [] && |s.handed| < |s.accepted|
    requires s.acceptor.Locked? ==> s.ring.waiting < THREAD_POOL_MAX_QUEUE_SIZE
    ensures Enabled(s, step) && !step.Accept?
    ensures var t := Next(s, step);
            && |t.workers| == |s.workers| && t.accepted == s.accepted
            && (t.acceptor.Locked? ==> t.ring.waiting < THREAD_POOL_MAX_QUEUE_SIZE)
            && ((t.handed == s.handed && ToDo(t) < ToDo(s)) || HandsOut(s, t))
  {
    if s.mutex == TheAcceptor {
      step := StepOfAcceptor(s);
    } else if s.mutex.Worker? && s.mutex.id < |s.workers| {
      step := StepOfOwner(s, s.mutex.id);
    } else {
      FreeLock(s);
      if s.ring.waiting == 0 {
        step := AcceptorLocks;
      } else {
        match s.workers[0]
        case Wanting => step := WorkerLocks(0);
        case Serving(_) => step := WorkerReturns(0);
        case _ => step := WorkerWakes(0);
      }
    }
  }

  /** Nobody has the lock. */
  lemma FreeLock(s: State)
    requires Inv(s) && s.workers != [] && |s.handed| < |s.accepted|
    requires s.mutex != TheAcceptor && (s.mutex.Worker? ==> s.mutex.id >= |s.workers|)
    ensures s.mutex == Nobody
    ensures s.workers[0].Wanting? || s.workers[0].Sleeping? || s.workers[0].Serving?
    ensures s.ring.waiting == 0 ==> s.acceptor.WantsLock?
  {
  }

  lemma StepOfAcceptor(s: State) returns (step: Step)
    requires Inv(s) && s.workers != [] && s.mutex == TheAcceptor
    requires s.acceptor.Locked? ==> s.ring.waiting < THREAD_POOL_MAX_QUEUE_SIZE
    ensures Enabled(s, step) && !step.Accept?
    ensures var t := Next(s, step);
            && |t.workers| == |s.workers| && t.accepted == s.accepted && !t.acceptor.Locked?
            && t.handed == s.handed && ToDo(t) < ToDo(s)
  {
    match s.acceptor
    case Locked(_) => step := AcceptorLocates;
    case Located(_, _) => step := AcceptorWrites;
    case Written(_) => step := AcceptorLoads;
    case Loaded(_, _) => step := AcceptorAdds;
    case HasAdded =>
      var woken := set w | 0 <= w < |s.workers| && Asleep(s, w);
      step := AcceptorSignals(woken);
      if w :| Asleep(s, w) {
        assert w in woken;
      }
    case _ => step := AcceptorUnlocks;
  }

  lemma StepOfOwner(s: State, w: nat) returns (step: Step)
    requires Inv(s) && s.workers != [] && w < |s.workers| && s.mutex == Worker(w)
    ensures Enabled(s, step) && !step.Accept?
    ensures var t := Next(s, step);
            && |t.workers| == |s.workers| && t.accepted == s.accepted && t.acceptor == s.acceptor
            && (t.acceptor.Locked? ==> t.ring.waiting < THREAD_POOL_MAX_QUEUE_SIZE)
            && ((t.handed == s.handed && ToDo(t) < ToDo(s)) || HandsOut(s, t))
  {
    match s.workers[w]
    case Deciding => step := WorkerTests(w);
    case Retiring => step := WorkerWaits(w);
    case Taking =>
      step := WorkerReads(w);
      assert WorkerKnows(s.ring, s.workers[w]);
      assert Queued(s.ring)[0] == s.ring.sockets[s.ring.head] == s.accepted[|s.handed|];
      assert Next(s, step).handed == s.handed + [Handed(s.accepted[|s.handed|], w)];
    case HasRead(_) => step := WorkerMoves(w);
    case HasMoved(_) => step := WorkerWraps(w);
    case HasWrapped(_) => step := WorkerLoads(w);
    case HasLoaded(_, _) => step := WorkerCounts(w);
    case _ => step := WorkerUnlocks(w);
  }

  /** From every state of a run with fewer than 100 sockets waiting there is a way on, without any new
      connection, to hand the next accepted socket to a worker: no lock is kept, nobody waits in
      vain. */
  lemma {:induction false} NobodyStuck(s: State) returns (steps: seq<Step>, t: State)
    requires Inv(s) && s.workers != [] && |s.handed| < |s.accepted|
    requires s.acceptor.Locked? ==> s.ring.waiting < THREAD_POOL_MAX_QUEUE_SIZE
    ensures LeadsTo(s, steps, t) && Inv(t) && t.accepted == s.accepted
    ensures HandsOut(s, t)
    decreases ToDo(s)
  {
    hide Enabled, Next, Inv, ToDo;
    var step := NextStep(s);
    StepKeeps(s, step);
    var u := Next(s, step);
    if u.handed == s.handed {
      var rest;
      rest, t := NobodyStuck(u);
      steps := [step] + rest;
      assert steps[1..] == rest;
    } else {
      steps, t := [step], u;
      assert steps[1..] == [] && LeadsTo(u, [], u);
    }
  }
}
