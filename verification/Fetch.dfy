/**
  The DAG fetch pipeline as interleaved steps: a pool of workers reading a bounded
  queue, one detached sender per discovered block, an in-flight counter, and a
  closer that closes the queue when the counter reaches zero.
*/
module Fetch {
  import opened Options

  type Cid = nat
  type Wid = nat
  /** The children of a block; a block whose links cannot be decoded has none. */
  type Links = Cid -> seq<Cid>

  const QUEUE_CAPACITY: nat := 64

  /** Where a visited block is: with the worker that found it, its sender, the queue, a worker, or finished. */
  datatype Place = Marked(w: Wid) | Added(w: Wid) | Sending | Queued | Active(w: Wid) | Done

  datatype Worker =
    | Waiting
    | Took(item: Cid)
    | Checking(item: Cid)
    | Putting(item: Cid)
    | Linking(item: Cid, todo: seq<Cid>)
    | Adding(item: Cid, child: Cid, todo: seq<Cid>)
    | Spawning(item: Cid, child: Cid, todo: seq<Cid>)
    | Failed(item: Cid)
    | Cancelling(item: Cid)
    | Finishing(item: Cid)
    | Exited

  datatype Closer = Waits | Woken | Closed

  /** The visited set is place.Keys; `returned` holds whether the pipeline returned without error. */
  datatype State = State(
    place: map<Cid, Place>, queue: seq<Cid>, workers: map<Wid, Worker>, inflight: int, stored: set<Cid>,
    closer: Closer, failed: bool, cancelled: bool, outside: bool, returned: Option<bool>)

  /** `ok` is the outcome of the I/O a worker does in the step, if it does any. */
  datatype Step = Work(w: Wid, ok: bool) | Send(c: Cid) | GiveUp(c: Cid) | Close | Return | CancelOutside

  predicate IsSending(s: State, c: Cid) {
    c in s.place && s.place[c].Sending?
  }

  predicate AllExited(s: State) {
    forall w :: w in s.workers ==> s.workers[w].Exited?
  }

  predicate CanWork(s: State, w: Wid) {
    && w in s.workers && !s.workers[w].Exited?
    && (s.workers[w].Waiting? ==> s.queue != [] || s.closer.Closed?)
  }

  predicate Enabled(s: State, step: Step) {
    match step
    case Work(w, _) => CanWork(s, w)
    case Send(c) => IsSending(s, c) && |s.queue| < QUEUE_CAPACITY
    case GiveUp(c) => IsSending(s, c) && s.cancelled
    case Close => s.closer.Woken? || (s.closer.Waits? && s.inflight == 0)
    case Return => s.returned.None? && AllExited(s)
    case CancelOutside => !s.outside
  }

  // ---------------------------------------------------------------- steps

  function With(s: State, w: Wid, p: Worker): State {
    s.(workers := s.workers[w := p])
  }

  /** Receives the head of the queue. */
  function Take(s: State, w: Wid): State
    requires s.queue != []
  {
    var c := s.queue[0];
    s.(queue := s.queue[1..], place := s.place[c := Active(w)], workers := s.workers[w := Took(c)])
  }

  /** Gives the block's in-flight unit back. */
  function Finish(s: State, w: Wid, c: Cid): State {
    s.(inflight := s.inflight - 1, place := s.place[c := Done], workers := s.workers[w := Waiting])
  }

  function Stored(s: State, w: Wid, c: Cid, links: Links): State {
    s.(stored := s.stored + {c}, workers := s.workers[w := Linking(c, links(c))])
  }

  /** Marks an unvisited child. */
  function Mark(s: State, w: Wid, c: Cid, todo: seq<Cid>): State
    requires todo != []
  {
    s.(place := s.place[todo[0] := Marked(w)], workers := s.workers[w := Adding(c, todo[0], todo[1..])])
  }

  function Add(s: State, w: Wid, c: Cid, child: Cid, todo: seq<Cid>): State {
    s.(inflight := s.inflight + 1, place := s.place[child := Added(w)], workers := s.workers[w := Spawning(c, child, todo)])
  }

  function Spawn(s: State, w: Wid, c: Cid, child: Cid, todo: seq<Cid>): State {
    s.(place := s.place[child := Sending], workers := s.workers[w := Linking(c, todo)])
  }

  /** Steps in which a worker only goes on with its own block. */
  predicate PhaseOnly(s: State, w: Wid, ok: bool) {
    && w in s.workers
    && match s.workers[w]
       case Took(_) => !s.cancelled
       case Checking(_) => true
       case Putting(_) => !ok
       case Linking(_, todo) => todo == [] || todo[0] in s.place
       case Failed(_) => true
       case Cancelling(_) => true
       case _ => false
  }

  function NextPhase(s: State, w: Wid, ok: bool, links: Links): Worker
    requires PhaseOnly(s, w, ok)
  {
    match s.workers[w]
    case Took(c) => Checking(c)
    case Checking(c) => if !ok then Failed(c) else if c in s.stored then Linking(c, links(c)) else Putting(c)
    case Putting(c) => Failed(c)
    case Linking(c, todo) => if todo == [] then Finishing(c) else Linking(c, todo[1..])
    case Failed(c) => if s.failed then Finishing(c) else Cancelling(c)
    case Cancelling(c) => Finishing(c)
  }

  /** The first failure is recorded, and cancels the pipeline one step later. */
  function GoOn(s: State, w: Wid, p: Worker): State
    requires w in s.workers
  {
    s.(workers := s.workers[w := p], failed := s.failed || s.workers[w].Failed?,
       cancelled := s.cancelled || s.workers[w].Cancelling?)
  }

  /** One atomic step of a worker. */
  function Worked(s: State, w: Wid, ok: bool, links: Links): State
    requires CanWork(s, w)
  {
    if PhaseOnly(s, w, ok) then GoOn(s, w, NextPhase(s, w, ok, links))
    else
      match s.workers[w]
      case Waiting => if s.queue == [] then With(s, w, Exited) else Take(s, w)
      case Took(c) => Finish(s, w, c)
      case Putting(c) => Stored(s, w, c, links)
      case Linking(c, todo) => Mark(s, w, c, todo)
      case Adding(c, child, todo) => Add(s, w, c, child, todo)
      case Spawning(c, child, todo) => Spawn(s, w, c, child, todo)
      case Finishing(c) => Finish(s, w, c)
  }

  function Next(s: State, step: Step, links: Links): State
    requires Enabled(s, step)
  {
    match step
    case Work(w, ok) => Worked(s, w, ok, links)
    case Send(c) => s.(place := s.place[c := Queued], queue := s.queue + [c])
    case GiveUp(c) => s.(place := s.place[c := Done], inflight := s.inflight - 1)
    case Close => s.(closer := if s.closer.Waits? then Woken else Closed)
    case Return => s.(returned := Some(!s.failed))
    case CancelOutside => s.(outside := true, cancelled := true)
  }

  /** The root is enqueued before the closer starts; every worker waits. */
  predicate Starts(s: State, root: Cid, initial: set<Cid>) {
    && s.place == map[root := Sending] && s.queue == [] && s.inflight == 1 && s.stored == initial
    && s.workers != map[] && (forall w :: w in s.workers ==> s.workers[w].Waiting?)
    && s.closer.Waits? && !s.failed && !s.cancelled && !s.outside && s.returned.None?
  }

  // ---------------------------------------------------------------- invariant

  predicate InFlight(p: Place) {
    !p.Marked? && !p.Done?
  }

  function Flying(place: map<Cid, Place>): set<Cid> {
    set c | c in place && InFlight(place[c])
  }

  predicate NoRepeats(q: seq<Cid>) {
    forall i, j :: 0 <= i < j < |q| ==> q[i] != q[j]
  }

  predicate InQueue(s: State, c: Cid) {
    c in s.queue <==> c in s.place && s.place[c].Queued?
  }

  ghost predicate QueueOk(s: State) {
    NoRepeats(s.queue) && forall c {:trigger InQueue(s, c)} :: InQueue(s, c)
  }

  /** The block is stored and all its children are visited. */
  predicate Complete(s: State, c: Cid, links: Links) {
    c in s.stored && forall x :: x in links(c) ==> x in s.place
  }

  /** All children are visited or still to be looked at. */
  predicate LinksLeft(s: State, c: Cid, todo: seq<Cid>, links: Links) {
    && c in s.stored
    && (forall x :: x in links(c) ==> x in s.place || x in todo)
    && (forall x :: x in todo ==> x in links(c))
  }

  predicate At(s: State, c: Cid, p: Place) {
    c in s.place && s.place[c] == p
  }

  predicate WorkerOk(s: State, w: Wid, links: Links) {
    w in s.workers ==>
      match s.workers[w]
      case Waiting => true
      case Exited => s.closer.Closed?
      case Linking(c, todo) => At(s, c, Active(w)) && LinksLeft(s, c, todo, links)
      case Adding(c, child, todo) => At(s, c, Active(w)) && At(s, child, Marked(w)) && LinksLeft(s, c, todo, links)
      case Spawning(c, child, todo) => At(s, c, Active(w)) && At(s, child, Added(w)) && LinksLeft(s, c, todo, links)
      case Cancelling(c) => At(s, c, Active(w)) && s.failed
      case Finishing(c) => At(s, c, Active(w)) && (s.failed || Complete(s, c, links))
      case p => At(s, p.item, Active(w))
  }

  predicate CidOk(s: State, c: Cid, links: Links) {
    c in s.place ==>
      match s.place[c]
      case Marked(w) => w in s.workers && s.workers[w].Adding? && s.workers[w].child == c
      case Added(w) => w in s.workers && s.workers[w].Spawning? && s.workers[w].child == c
      case Active(w) =>
        w in s.workers && !s.workers[w].Waiting? && !s.workers[w].Exited? && s.workers[w].item == c
      case Done => s.failed || s.cancelled || Complete(s, c, links)
      case _ => true
  }

  ghost predicate Inv(s: State, links: Links) {
    && QueueOk(s)
    && s.inflight == |Flying(s.place)|
    && (!s.closer.Waits? ==> s.inflight == 0)
    && (s.cancelled ==> s.failed || s.outside)
    && (s.returned.Some? ==> AllExited(s) && s.returned.value == !s.failed)
    && (forall w {:trigger WorkerOk(s, w, links)} :: WorkerOk(s, w, links))
    && (forall c {:trigger CidOk(s, c, links)} :: CidOk(s, c, links))
  }

  // ---------------------------------------------------------------- every step keeps it

  lemma FlyingMoves(place: map<Cid, Place>, c: Cid, to: Place)
    ensures |Flying(place[c := to])|
         == |Flying(place)| + (if InFlight(to) then 1 else 0) - (if c in place && InFlight(place[c]) then 1 else 0)
  {
    var a, b := Flying(place), Flying(place[c := to]);
    assert a - {c} == b - {c};
    assert |a - {c}| == |a| - if c in a then 1 else 0;
    assert |b - {c}| == |b| - if c in b then 1 else 0;
  }

  /** While something is in flight the queue is open. */
  lemma StillOpen(s: State, c: Cid, links: Links)
    requires Inv(s, links) && c in s.place && InFlight(s.place[c])
    ensures s.inflight >= 1 && s.closer.Waits?
  {
    assert c in Flying(s.place);
  }

  lemma TakeKeepsInv(s: State, w: Wid, links: Links)
    requires Inv(s, links) && w in s.workers && s.workers[w].Waiting? && s.queue != []
    ensures Inv(Take(s, w), links)
  {
    var c, n := s.queue[0], Take(s, w);
    assert c in s.queue && InQueue(s, c);
    FlyingMoves(s.place, c, Active(w));
    forall x ensures InQueue(n, x) {
      assert InQueue(s, x);
      if x in n.queue {
        var i :| 0 <= i < |n.queue| && n.queue[i] == x;
        assert s.queue[i + 1] == x;
      }
    }
    forall u ensures WorkerOk(n, u, links) { assert WorkerOk(s, u, links); }
    forall x ensures CidOk(n, x, links) { assert CidOk(s, x, links); }
  }

  lemma FinishKeepsInv(s: State, w: Wid, links: Links)
    requires Inv(s, links) && w in s.workers
    requires s.workers[w].Finishing? || (s.workers[w].Took? && s.cancelled)
    ensures Inv(Finish(s, w, s.workers[w].item), links)
  {
    var c := s.workers[w].item;
    var n := Finish(s, w, c);
    assert WorkerOk(s, w, links);
    StillOpen(s, c, links);
    FlyingMoves(s.place, c, Done);
    forall x ensures InQueue(n, x) { assert InQueue(s, x); }
    forall u ensures WorkerOk(n, u, links) { assert WorkerOk(s, u, links); }
    forall x ensures CidOk(n, x, links) { assert CidOk(s, x, links); }
  }

  predicate Busy(p: Worker) {
    !p.Waiting? && !p.Exited? && !p.Adding? && !p.Spawning?
  }

  /** A bound on the steps a worker still makes for its block. */
  function PhaseRank(p: Worker, links: Links): nat {
    match p
    case Waiting => 0
    case Exited => 0
    case Took(c) => 6 + |links(c)|
    case Checking(c) => 5 + |links(c)|
    case Putting(c) => 4 + |links(c)|
    case Linking(_, todo) => 3 + |todo|
    case Adding(_, _, todo) => 3 + |todo|
    case Spawning(_, _, todo) => 3 + |todo|
    case Failed(_) => 3
    case Cancelling(_) => 2
    case Finishing(_) => 1
  }

  lemma NextPhaseOk(s: State, w: Wid, ok: bool, links: Links)
    requires WorkerOk(s, w, links) && PhaseOnly(s, w, ok)
    ensures var p := NextPhase(s, w, ok, links);
            && Busy(s.workers[w]) && Busy(p) && p.item == s.workers[w].item
            && WorkerOk(GoOn(s, w, p), w, links) && PhaseRank(p, links) < PhaseRank(s.workers[w], links)
  {
  }

  /** A worker goes on with its block; nothing else moves. */
  lemma PhaseKeepsInv(s: State, w: Wid, p: Worker, links: Links)
    requires Inv(s, links) && w in s.workers && s.returned.None?
    requires Busy(s.workers[w]) && Busy(p) && p.item == s.workers[w].item && WorkerOk(GoOn(s, w, p), w, links)
    ensures Inv(GoOn(s, w, p), links)
  {
    var n := GoOn(s, w, p);
    assert WorkerOk(s, w, links);
    forall x ensures InQueue(n, x) { assert InQueue(s, x); }
    forall u ensures WorkerOk(n, u, links) { assert WorkerOk(s, u, links); }
    forall x ensures CidOk(n, x, links) { assert CidOk(s, x, links); }
  }

  lemma ExitKeepsInv(s: State, w: Wid, links: Links)
    requires Inv(s, links) && w in s.workers && s.workers[w].Waiting? && s.closer.Closed?
    ensures Inv(With(s, w, Exited), links)
  {
    var n := With(s, w, Exited);
    forall x ensures InQueue(n, x) { assert InQueue(s, x); }
    forall u ensures WorkerOk(n, u, links) { assert WorkerOk(s, u, links); }
    forall x ensures CidOk(n, x, links) { assert CidOk(s, x, links); }
  }

  lemma StoredKeepsInv(s: State, w: Wid, links: Links)
    requires Inv(s, links) && w in s.workers && s.workers[w].Putting?
    ensures Inv(Stored(s, w, s.workers[w].item, links), links)
  {
    var n := Stored(s, w, s.workers[w].item, links);
    assert WorkerOk(s, w, links);
    forall x ensures InQueue(n, x) { assert InQueue(s, x); }
    forall u ensures WorkerOk(n, u, links) { assert WorkerOk(s, u, links); }
    forall x ensures CidOk(n, x, links) { assert CidOk(s, x, links); }
  }

  lemma MarkKeepsInv(s: State, w: Wid, links: Links)
    requires Inv(s, links) && w in s.workers && s.workers[w].Linking?
    requires s.workers[w].todo != [] && s.workers[w].todo[0] !in s.place
    ensures Inv(Mark(s, w, s.workers[w].item, s.workers[w].todo), links)
  {
    var c, todo := s.workers[w].item, s.workers[w].todo;
    var n := Mark(s, w, c, todo);
    assert WorkerOk(s, w, links);
    assert forall x :: x in todo ==> x == todo[0] || x in todo[1..];
    FlyingMoves(s.place, todo[0], Marked(w));
    forall x ensures InQueue(n, x) { assert InQueue(s, x); }
    forall u ensures WorkerOk(n, u, links) { assert WorkerOk(s, u, links); }
    forall x ensures CidOk(n, x, links) { assert CidOk(s, x, links); }
  }

  lemma AddKeepsInv(s: State, w: Wid, links: Links)
    requires Inv(s, links) && w in s.workers && s.workers[w].Adding?
    ensures Inv(Add(s, w, s.workers[w].item, s.workers[w].child, s.workers[w].todo), links)
  {
    var p := s.workers[w];
    var n := Add(s, w, p.item, p.child, p.todo);
    assert WorkerOk(s, w, links);
    StillOpen(s, p.item, links);
    FlyingMoves(s.place, p.child, Added(w));
    forall x ensures InQueue(n, x) { assert InQueue(s, x); }
    forall u ensures WorkerOk(n, u, links) { assert WorkerOk(s, u, links); }
    forall x ensures CidOk(n, x, links) { assert CidOk(s, x, links); }
  }

  lemma SpawnKeepsInv(s: State, w: Wid, links: Links)
    requires Inv(s, links) && w in s.workers && s.workers[w].Spawning?
    ensures Inv(Spawn(s, w, s.workers[w].item, s.workers[w].child, s.workers[w].todo), links)
  {
    var p := s.workers[w];
    var n := Spawn(s, w, p.item, p.child, p.todo);
    assert WorkerOk(s, w, links);
    FlyingMoves(s.place, p.child, Sending);
    forall x ensures InQueue(n, x) { assert InQueue(s, x); }
    forall u ensures WorkerOk(n, u, links) { assert WorkerOk(s, u, links); }
    forall x ensures CidOk(n, x, links) { assert CidOk(s, x, links); }
  }

  lemma SendKeepsInv(s: State, c: Cid, links: Links)
    requires Inv(s, links) && Enabled(s, Send(c))
    ensures Inv(Next(s, Send(c), links), links)
  {
    var n := Next(s, Send(c), links);
    FlyingMoves(s.place, c, Queued);
    forall x ensures InQueue(n, x) { assert InQueue(s, x); }
    assert InQueue(s, c);
    forall u ensures WorkerOk(n, u, links) { assert WorkerOk(s, u, links); }
    forall x ensures CidOk(n, x, links) { assert CidOk(s, x, links); }
  }

  lemma GiveUpKeepsInv(s: State, c: Cid, links: Links)
    requires Inv(s, links) && Enabled(s, GiveUp(c))
    ensures Inv(Next(s, GiveUp(c), links), links)
  {
    var n := Next(s, GiveUp(c), links);
    StillOpen(s, c, links);
    FlyingMoves(s.place, c, Done);
    forall x ensures InQueue(n, x) { assert InQueue(s, x); }
    forall u ensures WorkerOk(n, u, links) { assert WorkerOk(s, u, links); }
    forall x ensures CidOk(n, x, links) { assert CidOk(s, x, links); }
  }

  /** Flags, the closer and the return value: no block and no worker moves. */
  lemma FlagsKeepInv(s: State, n: State, links: Links)
    requires Inv(s, links)
    requires n.place == s.place && n.queue == s.queue && n.workers == s.workers
    requires n.inflight == s.inflight && n.stored == s.stored
    requires (s.failed ==> n.failed) && (s.cancelled ==> n.cancelled) && (n.cancelled ==> n.failed || n.outside)
    requires (s.closer.Closed? ==> n.closer.Closed?) && (!n.closer.Waits? ==> n.inflight == 0)
    requires n.returned.Some? ==> AllExited(n) && n.returned.value == !n.failed
    ensures Inv(n, links)
  {
    forall x ensures InQueue(n, x) { assert InQueue(s, x); }
    forall u ensures WorkerOk(n, u, links) { assert WorkerOk(s, u, links); }
    forall x ensures CidOk(n, x, links) { assert CidOk(s, x, links); }
  }

  lemma NotReturned(s: State, w: Wid, links: Links)
    requires Inv(s, links) && w in s.workers && !s.workers[w].Exited?
    ensures s.returned.None?
  {
  }

  lemma WorkKeepsInv(s: State, w: Wid, ok: bool, links: Links)
    requires Inv(s, links) && CanWork(s, w)
    ensures Inv(Worked(s, w, ok, links), links)
  {
    assert WorkerOk(s, w, links);
    NotReturned(s, w, links);
    if PhaseOnly(s, w, ok) {
      NextPhaseOk(s, w, ok, links);
      PhaseKeepsInv(s, w, NextPhase(s, w, ok, links), links);
    } else {
      match s.workers[w]
      case Waiting => if s.queue == [] { ExitKeepsInv(s, w, links); } else { TakeKeepsInv(s, w, links); }
      case Took(_) => FinishKeepsInv(s, w, links);
      case Putting(_) => StoredKeepsInv(s, w, links);
      case Linking(_, _) => MarkKeepsInv(s, w, links);
      case Adding(_, _, _) => AddKeepsInv(s, w, links);
      case Spawning(_, _, _) => SpawnKeepsInv(s, w, links);
      case Finishing(_) => FinishKeepsInv(s, w, links);
    }
  }

  lemma StepKeepsInv(s: State, step: Step, links: Links)
    requires Inv(s, links) && Enabled(s, step)
    ensures Inv(Next(s, step, links), links)
  {
    match step
    case Work(w, ok) => WorkKeepsInv(s, w, ok, links);
    case Send(c) => SendKeepsInv(s, c, links);
    case GiveUp(c) => GiveUpKeepsInv(s, c, links);
    case _ => FlagsKeepInv(s, Next(s, step, links), links);
  }

  lemma StartsInv(s: State, root: Cid, initial: set<Cid>, links: Links)
    requires Starts(s, root, initial)
    ensures Inv(s, links)
  {
    assert Flying(s.place) == {root};
    forall x ensures InQueue(s, x) && CidOk(s, x, links) {}
    forall u ensures WorkerOk(s, u, links) {}
  }

  // ---------------------------------------------------------------- counter and queue

  /** Blocks a sender goroutine, or the worker about to start one, still has to hand over. */
  function PendingSenders(s: State): set<Cid> {
    set c | c in s.place && (s.place[c].Sending? || s.place[c].Added?)
  }

  function ActiveBlocks(s: State): set<Cid> {
    set c | c in s.place && s.place[c].Active?
  }

  function BusyWorkers(s: State): set<Wid> {
    set w | w in s.workers && !s.workers[w].Waiting? && !s.workers[w].Exited?
  }

  function QueuedBlocks(q: seq<Cid>): set<Cid> {
    set c | c in q
  }

  lemma {:induction false} QueueSize(q: seq<Cid>)
    requires NoRepeats(q)
    ensures |QueuedBlocks(q)| == |q|
  {
    if q != [] {
      var rest := q[1..];
      QueueSize(rest);
      assert forall j :: 0 <= j < |rest| ==> rest[j] == q[j + 1] != q[0];
      assert forall c :: c in q <==> c == q[0] || c in rest;
      assert QueuedBlocks(q) == {q[0]} + QueuedBlocks(rest);
    }
  }

  /** Each active block has its own worker, so there are as many of one as of the other. */
  lemma {:induction false} OneWorkerEach(s: State, busy: set<Wid>, active: set<Cid>)
    requires busy <= BusyWorkers(s)
    requires forall w :: w in busy ==> s.workers[w].item in active && At(s, s.workers[w].item, Active(w))
    requires forall c :: c in active ==> exists w :: w in busy && s.workers[w].item == c
    ensures |busy| == |active|
    decreases |busy|
  {
    if busy == {} {
      assert active == {};
    } else {
      var w :| w in busy;
      OneWorkerEach(s, busy - {w}, active - {s.workers[w].item});
    }
  }

  lemma ActiveIsBusy(s: State, links: Links)
    requires Inv(s, links)
    ensures |ActiveBlocks(s)| == |BusyWorkers(s)|
  {
    forall w | w in BusyWorkers(s) ensures s.workers[w].item in ActiveBlocks(s) && At(s, s.workers[w].item, Active(w)) {
      assert WorkerOk(s, w, links);
    }
    forall c | c in ActiveBlocks(s) ensures exists w :: w in BusyWorkers(s) && s.workers[w].item == c {
      assert CidOk(s, c, links);
      assert s.place[c].w in BusyWorkers(s);
    }
    OneWorkerEach(s, BusyWorkers(s), ActiveBlocks(s));
  }

  function QueuedPlaces(s: State): set<Cid> {
    set c | c in s.place && s.place[c].Queued?
  }

  lemma QueuedIsPlaced(s: State)
    requires QueueOk(s)
    ensures QueuedBlocks(s.queue) == QueuedPlaces(s)
  {
    forall c ensures c in QueuedBlocks(s.queue) <==> c in QueuedPlaces(s) { assert InQueue(s, c); }
  }

  lemma FlyingParts(s: State)
    ensures |Flying(s.place)| == |PendingSenders(s)| + |QueuedPlaces(s)| + |ActiveBlocks(s)|
  {
    var a, b, c := PendingSenders(s), QueuedPlaces(s), ActiveBlocks(s);
    assert Flying(s.place) == a + (b + c);
    assert b !! c && a !! b + c;
    assert |b + c| == |b| + |c|;
  }

  /** The in-flight counter is pending senders + queued blocks + blocks with a worker, at every moment. */
  lemma CounterIsExact(s: State, links: Links)
    requires Inv(s, links)
    ensures s.inflight == |PendingSenders(s)| + |s.queue| + |BusyWorkers(s)|
  {
    QueueSize(s.queue);
    ActiveIsBusy(s, links);
    QueuedIsPlaced(s);
    FlyingParts(s);
  }

  /** Once the closer has woken nobody can send, nothing is queued and no worker is busy. */
  lemma NothingAfterClose(s: State, links: Links)
    requires Inv(s, links) && !s.closer.Waits?
    ensures forall c :: !Enabled(s, Send(c)) && !Enabled(s, GiveUp(c))
    ensures s.queue == [] && BusyWorkers(s) == {}
  {
    CounterIsExact(s, links);
    assert PendingSenders(s) == {};
    forall c ensures !IsSending(s, c) { assert c !in PendingSenders(s); }
  }

  // ---------------------------------------------------------------- runs

  ghost predicate IsRun(s: State, steps: seq<Step>, links: Links)
    decreases |steps|
  {
    steps != [] ==> Enabled(s, steps[0]) && IsRun(Next(s, steps[0], links), steps[1..], links)
  }

  ghost function RunFrom(s: State, steps: seq<Step>, links: Links): State
    requires IsRun(s, steps, links)
    decreases |steps|
  {
    if steps == [] then s else RunFrom(Next(s, steps[0], links), steps[1..], links)
  }

  lemma {:induction false} RunKeepsInv(s: State, steps: seq<Step>, links: Links)
    requires Inv(s, links) && IsRun(s, steps, links)
    ensures Inv(RunFrom(s, steps, links), links)
    decreases |steps|
  {
    if steps != [] {
      StepKeepsInv(s, steps[0], links);
      RunKeepsInv(Next(s, steps[0], links), steps[1..], links);
    }
  }

  /** How often the run closes the queue. */
  ghost function Closings(s: State, steps: seq<Step>, links: Links): nat
    requires IsRun(s, steps, links)
    decreases |steps|
  {
    if steps == [] then 0
    else (if steps[0].Close? && s.closer.Woken? then 1 else 0) + Closings(Next(s, steps[0], links), steps[1..], links)
  }

  lemma CloserStep(s: State, step: Step, links: Links)
    requires Enabled(s, step)
    ensures step.Close? ==> !s.closer.Closed? && Next(s, step, links).closer == if s.closer.Waits? then Woken else Closed
    ensures !step.Close? ==> Next(s, step, links).closer == s.closer
  {
  }

  /** The queue is closed at most once in any run. */
  lemma {:induction false} ClosedOnce(s: State, steps: seq<Step>, links: Links)
    requires IsRun(s, steps, links)
    ensures Closings(s, steps, links) <= if s.closer.Closed? then 0 else 1
    decreases |steps|
  {
    if steps != [] {
      CloserStep(s, steps[0], links);
      ClosedOnce(Next(s, steps[0], links), steps[1..], links);
    }
  }

  /** The step in which a worker receives c from the queue. */
  predicate Takes(s: State, step: Step, c: Cid) {
    && step.Work? && step.w in s.workers && s.workers[step.w].Waiting?
    && s.queue != [] && s.queue[0] == c
  }

  predicate Received(s: State, c: Cid) {
    c in s.place && (s.place[c].Active? || s.place[c].Done?)
  }

  /** A block a worker has received, or that was given up, never returns to the queue. */
  lemma ReceivedStays(s: State, step: Step, links: Links, c: Cid)
    requires Inv(s, links) && Enabled(s, step)
    ensures Received(s, c) ==> Received(Next(s, step, links), c) && !Takes(s, step, c)
    ensures Takes(s, step, c) ==> Received(Next(s, step, links), c)
  {
    assert InQueue(s, c);
    if step.Work? { assert WorkerOk(s, step.w, links); }
    if Takes(s, step, c) { assert s.queue[0] in s.queue; }
  }

  ghost function Receipts(s: State, steps: seq<Step>, links: Links, c: Cid): nat
    requires IsRun(s, steps, links)
    decreases |steps|
  {
    if steps == [] then 0
    else (if Takes(s, steps[0], c) then 1 else 0) + Receipts(Next(s, steps[0], links), steps[1..], links, c)
  }

  /** No block is processed twice in any run. */
  lemma {:induction false} ProcessedOnce(s: State, steps: seq<Step>, links: Links, c: Cid)
    requires Inv(s, links) && IsRun(s, steps, links)
    ensures Receipts(s, steps, links, c) <= if Received(s, c) then 0 else 1
    decreases |steps|
  {
    if steps != [] {
      StepKeepsInv(s, steps[0], links);
      ReceivedStays(s, steps[0], links, c);
      ProcessedOnce(Next(s, steps[0], links), steps[1..], links, c);
    }
  }

  // ---------------------------------------------------------------- completeness

  /** p leads from root to c along links. */
  predicate IsPath(links: Links, root: Cid, p: seq<Cid>, c: Cid) {
    && p != [] && p[0] == root && p[|p| - 1] == c
    && forall i :: 0 < i < |p| ==> p[i] in links(p[i - 1])
  }

  ghost predicate Reachable(links: Links, root: Cid, c: Cid) {
    exists p :: IsPath(links, root, p, c)
  }

  lemma ReachFurther(links: Links, root: Cid, c: Cid, child: Cid)
    requires Reachable(links, root, c) && child in links(c)
    ensures Reachable(links, root, child)
  {
    var p :| IsPath(links, root, p, c);
    assert IsPath(links, root, p + [child], child);
  }

  /** A set with the root that is closed under links holds every reachable block. */
  lemma {:induction false} ClosedHoldsPath(links: Links, root: Cid, p: seq<Cid>, c: Cid, s: set<Cid>)
    requires IsPath(links, root, p, c) && root in s
    requires forall x, y :: x in s && y in links(x) ==> y in s
    ensures c in s
    decreases |p|
  {
    if |p| > 1 {
      var q := p[..|p| - 1];
      assert IsPath(links, root, q, q[|q| - 1]);
      ClosedHoldsPath(links, root, q, q[|q| - 1], s);
      assert p[|p| - 1] in links(p[|p| - 2]);
    }
  }

  /** Only reachable blocks are visited, and only visited ones are added to the store. */
  ghost predicate Sound(s: State, root: Cid, initial: set<Cid>, links: Links) {
    && root in s.place && s.workers != map[]
    && (forall c :: c in s.place ==> Reachable(links, root, c))
    && initial <= s.stored && (forall c :: c in s.stored ==> c in initial || c in s.place)
  }

  /** The block a worker's step marks visited, if any. */
  function NewlyVisited(s: State, step: Step): set<Cid> {
    if step.Work? && CanWork(s, step.w) && s.workers[step.w].Linking? && s.workers[step.w].todo != []
    then {s.workers[step.w].todo[0]} else {}
  }

  function NewlyStored(s: State, step: Step): set<Cid> {
    if step.Work? && CanWork(s, step.w) && s.workers[step.w].Putting? && step.ok then {s.workers[step.w].item} else {}
  }

  lemma PhaseAdds(s: State, w: Wid, ok: bool, links: Links)
    requires CanWork(s, w) && PhaseOnly(s, w, ok)
    ensures Worked(s, w, ok, links).place == s.place && NewlyVisited(s, Work(w, ok)) <= s.place.Keys
    ensures Worked(s, w, ok, links).stored == s.stored && NewlyStored(s, Work(w, ok)) == {}
  {
  }

  /** Waiting, given up on, or done with its block: only places of visited blocks change. */
  lemma EdgeAdds(s: State, w: Wid, ok: bool, links: Links)
    requires CanWork(s, w) && !PhaseOnly(s, w, ok) && QueueOk(s) && WorkerOk(s, w, links)
    requires s.workers[w].Waiting? || s.workers[w].Took? || s.workers[w].Finishing?
    ensures Worked(s, w, ok, links).place.Keys == s.place.Keys && NewlyVisited(s, Work(w, ok)) == {}
    ensures Worked(s, w, ok, links).stored == s.stored && NewlyStored(s, Work(w, ok)) == {}
  {
    if s.workers[w].Waiting? && s.queue != [] { assert s.queue[0] in s.queue && InQueue(s, s.queue[0]); }
  }

  /** Storing a block and marking its next unvisited child are the steps that add. */
  lemma PutAdds(s: State, w: Wid, ok: bool, links: Links)
    requires CanWork(s, w) && !PhaseOnly(s, w, ok) && s.workers[w].Putting?
    ensures Worked(s, w, ok, links).place == s.place && NewlyVisited(s, Work(w, ok)) == {}
    ensures Worked(s, w, ok, links).stored == s.stored + NewlyStored(s, Work(w, ok))
  {
  }

  lemma MarkAdds(s: State, w: Wid, ok: bool, links: Links)
    requires CanWork(s, w) && !PhaseOnly(s, w, ok) && s.workers[w].Linking?
    ensures Worked(s, w, ok, links).place.Keys == s.place.Keys + NewlyVisited(s, Work(w, ok))
    ensures Worked(s, w, ok, links).stored == s.stored && NewlyStored(s, Work(w, ok)) == {}
  {
  }

  lemma ChildAdds(s: State, w: Wid, ok: bool, links: Links)
    requires CanWork(s, w) && (s.workers[w].Adding? || s.workers[w].Spawning?) && WorkerOk(s, w, links)
    ensures Worked(s, w, ok, links).place.Keys == s.place.Keys && NewlyVisited(s, Work(w, ok)) == {}
    ensures Worked(s, w, ok, links).stored == s.stored && NewlyStored(s, Work(w, ok)) == {}
  {
  }

  lemma StepAdds(s: State, step: Step, links: Links, c: Cid)
    requires Inv(s, links) && Enabled(s, step)
    ensures c in Next(s, step, links).place <==> c in s.place || c in NewlyVisited(s, step)
    ensures c in Next(s, step, links).stored <==> c in s.stored || c in NewlyStored(s, step)
  {
    if step.Work? {
      var p := s.workers[step.w];
      if PhaseOnly(s, step.w, step.ok) {
        PhaseAdds(s, step.w, step.ok, links);
      } else if p.Waiting? || p.Took? || p.Finishing? {
        assert WorkerOk(s, step.w, links);
        EdgeAdds(s, step.w, step.ok, links);
      } else if p.Putting? {
        PutAdds(s, step.w, step.ok, links);
      } else if p.Linking? {
        MarkAdds(s, step.w, step.ok, links);
      } else {
        assert WorkerOk(s, step.w, links);
        ChildAdds(s, step.w, step.ok, links);
      }
    }
  }

  lemma WorkersStay(s: State, step: Step, links: Links, w: Wid)
    requires Enabled(s, step) && w in s.workers
    ensures w in Next(s, step, links).workers
  {
  }

  lemma SoundGrows(s: State, n: State, visited: set<Cid>, stored: set<Cid>, root: Cid, initial: set<Cid>, links: Links)
    requires Sound(s, root, initial, links) && n.workers != map[]
    requires forall c :: c in n.place <==> c in s.place || c in visited
    requires forall c :: c in n.stored <==> c in s.stored || c in stored
    requires (forall c :: c in visited ==> Reachable(links, root, c)) && stored <= s.place.Keys
    ensures Sound(n, root, initial, links)
  {
  }

  lemma StepKeepsSound(s: State, step: Step, root: Cid, initial: set<Cid>, links: Links)
    requires Inv(s, links) && Sound(s, root, initial, links) && Enabled(s, step)
    ensures Sound(Next(s, step, links), root, initial, links)
  {
    var w :| w in s.workers;
    WorkersStay(s, step, links, w);
    AddedIsReachable(s, step, root, links);
    forall c { StepAdds(s, step, links, c); }
    SoundGrows(s, Next(s, step, links), NewlyVisited(s, step), NewlyStored(s, step), root, initial, links);
  }

  lemma AddedIsReachable(s: State, step: Step, root: Cid, links: Links)
    requires Inv(s, links) && forall c :: c in s.place ==> Reachable(links, root, c)
    ensures forall c :: c in NewlyVisited(s, step) ==> Reachable(links, root, c)
    ensures NewlyStored(s, step) <= s.place.Keys
  {
    if step.Work? && CanWork(s, step.w) {
      assert WorkerOk(s, step.w, links);
      var p := s.workers[step.w];
      if p.Linking? && p.todo != [] {
        assert p.todo[0] in p.todo;
        ReachFurther(links, root, p.item, p.todo[0]);
      }
    }
  }

  /** A block that is done is complete, unless a failure is recorded. */
  predicate Whole(s: State, c: Cid, links: Links) {
    c in s.place && s.place[c].Done? ==> s.failed || Complete(s, c, links)
  }

  lemma WholeIsComplete(s: State, root: Cid, initial: set<Cid>, links: Links, c: Cid)
    requires Inv(s, links) && Sound(s, root, initial, links) && s.returned == Some(true)
    requires forall x {:trigger Whole(s, x, links)} :: Whole(s, x, links)
    ensures c in s.stored <==> c in initial || Reachable(links, root, c)
  {
    var w :| w in s.workers;
    assert WorkerOk(s, w, links);
    forall x | x in s.place ensures Complete(s, x, links) {
      assert CidOk(s, x, links) && Whole(s, x, links);
      assert x !in Flying(s.place) by { assert |Flying(s.place)| == 0; }
    }
    if Reachable(links, root, c) {
      var p :| IsPath(links, root, p, c);
      ClosedHoldsPath(links, root, p, c, s.place.Keys);
      assert Complete(s, c, links);
    }
  }

  /**
    A pipeline that returned without error, and was not cancelled from outside, leaves
    exactly the blocks it started with and every block reachable from the root.
  */
  lemma NilMeansComplete(s: State, root: Cid, initial: set<Cid>, links: Links, c: Cid)
    requires Inv(s, links) && Sound(s, root, initial, links)
    requires s.returned == Some(true) && !s.outside
    ensures c in s.stored <==> c in initial || Reachable(links, root, c)
  {
    forall x ensures Whole(s, x, links) { assert CidOk(s, x, links); }
    WholeIsComplete(s, root, initial, links, c);
  }

  lemma {:induction false} RunKeepsSound(s: State, steps: seq<Step>, root: Cid, initial: set<Cid>, links: Links)
    requires Inv(s, links) && Sound(s, root, initial, links) && IsRun(s, steps, links)
    ensures Sound(RunFrom(s, steps, links), root, initial, links)
    decreases |steps|
  {
    if steps != [] {
      StepKeepsInv(s, steps[0], links);
      StepKeepsSound(s, steps[0], root, initial, links);
      RunKeepsSound(Next(s, steps[0], links), steps[1..], root, initial, links);
    }
  }

  /** The same for whole runs: every interleaving from the start to an error-free return. */
  lemma FetchIsComplete(s: State, steps: seq<Step>, root: Cid, initial: set<Cid>, links: Links, c: Cid)
    requires Starts(s, root, initial) && IsRun(s, steps, links)
    requires RunFrom(s, steps, links).returned == Some(true) && !RunFrom(s, steps, links).outside
    ensures c in RunFrom(s, steps, links).stored <==> c in initial || Reachable(links, root, c)
  {
    StartsInv(s, root, initial, links);
    assert IsPath(links, root, [root], root);
    RunKeepsInv(s, steps, links);
    RunKeepsSound(s, steps, root, initial, links);
    NilMeansComplete(RunFrom(s, steps, links), root, initial, links, c);
  }

  // ---------------------------------------------------------------- progress

  /** Until the pipeline returns, some goroutine can make a step. */
  lemma NeverStuck(s: State, links: Links) returns (step: Step)
    requires Inv(s, links) && s.workers != map[] && s.returned.None?
    ensures Enabled(s, step) && !step.CancelOutside? && (step.Work? ==> step.ok)
  {
    if AllExited(s) { return Return; }
    var w :| w in s.workers && !s.workers[w].Exited?;
    if CanWork(s, w) { return Work(w, true); }
    CounterIsExact(s, links);
    if b :| b in BusyWorkers(s) { return Work(b, true); }
    assert BusyWorkers(s) == {};
    assert forall b :: b in s.workers && s.workers[b].Spawning? ==> b in BusyWorkers(s);
    if s.closer.Woken? || s.inflight == 0 { return Close; }
    assert PendingSenders(s) != {};
    var c :| c in PendingSenders(s);
    assert CidOk(s, c, links);
    return Send(c);
  }

  /** A bound on the steps still to be made for a block. */
  function CidRank(s: State, c: Cid, links: Links): nat {
    if c !in s.place then 11 + |links(c)|
    else
      match s.place[c]
      case Marked(_) => 10 + |links(c)|
      case Added(_) => 9 + |links(c)|
      case Sending => 8 + |links(c)|
      case Queued => 7 + |links(c)|
      case Active(w) => if w in s.workers then PhaseRank(s.workers[w], links) else 0
      case Done => 0
  }

  /** The block that a step brings forward. */
  function Mover(s: State, step: Step): Option<Cid> {
    match step
    case Send(c) => Some(c)
    case GiveUp(c) => Some(c)
    case Work(w, _) =>
      if w !in s.workers || s.workers[w].Exited? then None
      else if s.workers[w].Waiting? then (if s.queue == [] then None else Some(s.queue[0]))
      else if s.workers[w].Adding? || s.workers[w].Spawning? then Some(s.workers[w].child)
      else Some(s.workers[w].item)
    case _ => None
  }

  lemma TakeRank(s: State, w: Wid, links: Links, c: Cid)
    requires Inv(s, links) && w in s.workers && s.workers[w].Waiting? && s.queue != []
    ensures CidRank(Take(s, w), c, links) <= CidRank(s, c, links)
    ensures c == s.queue[0] ==> CidRank(Take(s, w), c, links) < CidRank(s, c, links)
  {
    assert s.queue[0] in s.queue && InQueue(s, s.queue[0]);
    assert CidOk(s, c, links);
  }

  lemma FinishRank(s: State, w: Wid, links: Links, c: Cid)
    requires Inv(s, links) && w in s.workers && (s.workers[w].Took? || s.workers[w].Finishing?)
    ensures CidRank(Finish(s, w, s.workers[w].item), c, links) <= CidRank(s, c, links)
    ensures c == s.workers[w].item ==> CidRank(Finish(s, w, s.workers[w].item), c, links) < CidRank(s, c, links)
  {
    assert WorkerOk(s, w, links);
  }

  lemma StoredRank(s: State, w: Wid, links: Links, c: Cid)
    requires Inv(s, links) && w in s.workers && s.workers[w].Putting?
    ensures CidRank(Stored(s, w, s.workers[w].item, links), c, links) <= CidRank(s, c, links)
    ensures c == s.workers[w].item ==> CidRank(Stored(s, w, c, links), c, links) < CidRank(s, c, links)
  {
    assert WorkerOk(s, w, links);
  }

  lemma MarkRank(s: State, w: Wid, links: Links, c: Cid)
    requires Inv(s, links) && w in s.workers && s.workers[w].Linking?
    requires s.workers[w].todo != [] && s.workers[w].todo[0] !in s.place
    ensures CidRank(Mark(s, w, s.workers[w].item, s.workers[w].todo), c, links) <= CidRank(s, c, links)
    ensures c == s.workers[w].item ==> CidRank(Mark(s, w, c, s.workers[w].todo), c, links) < CidRank(s, c, links)
  {
    assert WorkerOk(s, w, links) && CidOk(s, c, links);
  }

  lemma HandOverRank(s: State, w: Wid, links: Links, c: Cid)
    requires Inv(s, links) && w in s.workers && (s.workers[w].Adding? || s.workers[w].Spawning?)
    ensures CidRank(Worked(s, w, true, links), c, links) <= CidRank(s, c, links)
    ensures c == s.workers[w].child ==> CidRank(Worked(s, w, true, links), c, links) < CidRank(s, c, links)
  {
    assert WorkerOk(s, w, links) && CidOk(s, c, links);
  }

  lemma PhaseOnlyRank(s: State, w: Wid, ok: bool, links: Links, c: Cid)
    requires Inv(s, links) && PhaseOnly(s, w, ok)
    ensures CidRank(GoOn(s, w, NextPhase(s, w, ok, links)), c, links) <= CidRank(s, c, links)
    ensures c == s.workers[w].item ==> CidRank(GoOn(s, w, NextPhase(s, w, ok, links)), c, links) < CidRank(s, c, links)
  {
    assert WorkerOk(s, w, links);
    NextPhaseOk(s, w, ok, links);
  }

  lemma WorkRank(s: State, w: Wid, ok: bool, links: Links, c: Cid)
    requires Inv(s, links) && CanWork(s, w)
    ensures CidRank(Worked(s, w, ok, links), c, links) <= CidRank(s, c, links)
    ensures Mover(s, Work(w, ok)) == Some(c) ==> CidRank(Worked(s, w, ok, links), c, links) < CidRank(s, c, links)
  {
    if PhaseOnly(s, w, ok) {
      PhaseOnlyRank(s, w, ok, links, c);
    } else {
      match s.workers[w]
      case Waiting => if s.queue != [] { TakeRank(s, w, links, c); } else { assert CidOk(s, c, links); }
      case Took(_) => FinishRank(s, w, links, c);
      case Putting(_) => StoredRank(s, w, links, c);
      case Linking(_, _) => MarkRank(s, w, links, c);
      case Adding(_, _, _) => HandOverRank(s, w, links, c);
      case Spawning(_, _, _) => HandOverRank(s, w, links, c);
      case Finishing(_) => FinishRank(s, w, links, c);
    }
  }

  lemma RankStep(s: State, step: Step, links: Links, c: Cid)
    requires Inv(s, links) && Enabled(s, step)
    ensures CidRank(Next(s, step, links), c, links) <= CidRank(s, c, links)
    ensures Mover(s, step) == Some(c) ==> CidRank(Next(s, step, links), c, links) < CidRank(s, c, links)
  {
    if step.Work? { WorkRank(s, step.w, step.ok, links, c); }
  }

  ghost function RankSum(s: State, all: set<Cid>, links: Links): nat
    decreases |all|
  {
    if all == {} then 0
    else
      var c :| c in all;
      CidRank(s, c, links) + RankSum(s, all - {c}, links)
  }

  lemma {:induction false} RankSumRemove(s: State, all: set<Cid>, links: Links, c: Cid)
    requires c in all
    ensures RankSum(s, all, links) == CidRank(s, c, links) + RankSum(s, all - {c}, links)
    decreases |all|
  {
    var x :| x in all && RankSum(s, all, links) == CidRank(s, x, links) + RankSum(s, all - {x}, links);
    if x != c {
      RankSumRemove(s, all - {x}, links, c);
      RankSumRemove(s, all - {c}, links, x);
      assert all - {x} - {c} == all - {c} - {x};
    }
  }

  function Running(s: State): set<Wid> {
    set w | w in s.workers && !s.workers[w].Exited?
  }

  /** A bound on the steps left, for a finite link graph on the blocks in `all`. */
  ghost function Measure(s: State, all: set<Cid>, links: Links): int {
    RankSum(s, all, links) + |Running(s)| + (if s.closer.Waits? then 2 else if s.closer.Woken? then 1 else 0)
    + (if s.returned.None? then 1 else 0) + if s.outside then 0 else 1
  }

  /** `all` holds the visited blocks and is closed under links. */
  predicate Universe(s: State, all: set<Cid>, links: Links) {
    s.place.Keys <= all && forall c, x :: c in all && x in links(c) ==> x in all
  }

  lemma StepKeepsUniverse(s: State, step: Step, all: set<Cid>, links: Links)
    requires Inv(s, links) && Enabled(s, step) && Universe(s, all, links)
    ensures Universe(Next(s, step, links), all, links)
  {
    if step.Work? {
      assert WorkerOk(s, step.w, links);
      var p := s.workers[step.w];
      if p.Linking? && p.todo != [] { assert p.todo[0] in p.todo; }
    }
    forall c | c in Next(s, step, links).place ensures c in all { StepAdds(s, step, links, c); }
  }

  lemma RanksDrop(s: State, step: Step, all: set<Cid>, links: Links)
    requires Inv(s, links) && Enabled(s, step) && Universe(s, all, links)
    ensures RankSum(Next(s, step, links), all, links) <= RankSum(s, all, links)
    ensures Mover(s, step).Some? ==> RankSum(Next(s, step, links), all, links) < RankSum(s, all, links)
  {
    forall c: Cid ensures CidRank(Next(s, step, links), c, links) <= CidRank(s, c, links)
      && (Mover(s, step) == Some(c) ==> CidRank(Next(s, step, links), c, links) < CidRank(s, c, links))
    {
      RankStep(s, step, links, c);
    }
    if Mover(s, step).Some? { MoverIsVisited(s, step, links); }
    SumOfRanks(s, Next(s, step, links), all, links, Mover(s, step));
  }

  lemma {:induction false} SumOfRanks(s: State, n: State, all: set<Cid>, links: Links, mover: Option<Cid>)
    requires forall c :: c in all ==> CidRank(n, c, links) <= CidRank(s, c, links)
    requires mover.Some? && mover.value in all ==> CidRank(n, mover.value, links) < CidRank(s, mover.value, links)
    ensures RankSum(n, all, links) <= RankSum(s, all, links)
    ensures mover.Some? && mover.value in all ==> RankSum(n, all, links) < RankSum(s, all, links)
    decreases |all|
  {
    if all != {} {
      var c :| c in all;
      RankSumRemove(s, all, links, c);
      RankSumRemove(n, all, links, c);
      SumOfRanks(s, n, all - {c}, links, mover);
    }
  }

  lemma MoverIsVisited(s: State, step: Step, links: Links)
    requires Inv(s, links) && Enabled(s, step) && Mover(s, step).Some?
    ensures Mover(s, step).value in s.place
  {
    if step.Work? {
      assert WorkerOk(s, step.w, links);
      if s.queue != [] { assert s.queue[0] in s.queue && InQueue(s, s.queue[0]); }
    }
  }

  /** Steps of workers touch neither the closer nor the result, and no worker comes back. */
  lemma WorkRest(s: State, w: Wid, ok: bool, links: Links)
    requires CanWork(s, w)
    ensures var n := Worked(s, w, ok, links);
            && n.closer == s.closer && n.returned == s.returned && n.outside == s.outside
            && Running(n) == if Mover(s, Work(w, ok)).None? then Running(s) - {w} else Running(s)
  {
    var n := Worked(s, w, ok, links);
    forall u ensures u in Running(n) <==> u in Running(s) && (u != w || Mover(s, Work(w, ok)).Some?) {}
  }

  lemma MeasureDrops(s: State, step: Step, all: set<Cid>, links: Links)
    requires Inv(s, links) && Enabled(s, step) && Universe(s, all, links)
    ensures Measure(Next(s, step, links), all, links) < Measure(s, all, links)
  {
    RanksDrop(s, step, all, links);
    match step
    case Work(w, ok) =>
      WorkRest(s, w, ok, links);
      assert w in Running(s);
    case _ =>
      assert Running(Next(s, step, links)) == Running(s);
  }

  /** On a finite link graph every run stops: its length is bounded by the measure of its first state. */
  lemma {:induction false} FetchTerminates(s: State, steps: seq<Step>, all: set<Cid>, links: Links)
    requires Inv(s, links) && IsRun(s, steps, links) && Universe(s, all, links)
    ensures |steps| <= Measure(s, all, links)
    decreases |steps|
  {
    if steps != [] {
      StepKeepsInv(s, steps[0], links);
      StepKeepsUniverse(s, steps[0], all, links);
      MeasureDrops(s, steps[0], all, links);
      FetchTerminates(Next(s, steps[0], links), steps[1..], all, links);
    }
  }

  // ---------------------------------------------------------------- when it fails, and when it does not

  /** A step in which looking a block up, fetching it or storing it fails. */
  predicate Faults(s: State, step: Step) {
    step.Work? && !step.ok && step.w in s.workers && (s.workers[step.w].Checking? || s.workers[step.w].Putting?)
  }

  ghost predicate Faulty(s: State, steps: seq<Step>, links: Links)
    requires IsRun(s, steps, links)
    decreases |steps|
  {
    steps != [] && (Faults(s, steps[0]) || Faulty(Next(s, steps[0], links), steps[1..], links))
  }

  /** A failure is recorded, or a worker is about to record one. */
  predicate Tainted(s: State) {
    s.failed || exists w :: w in s.workers && s.workers[w].Failed?
  }

  lemma PhaseTaints(s: State, w: Wid, ok: bool, links: Links)
    requires PhaseOnly(s, w, ok)
    ensures NextPhase(s, w, ok, links).Failed? <==> Faults(s, Work(w, ok))
  {
  }

  /** A worker that moves on fails because of its own I/O or not at all, and has its failure recorded. */
  lemma WorkTaints(s: State, w: Wid, ok: bool, links: Links)
    requires CanWork(s, w)
    ensures var n := Worked(s, w, ok, links);
            && n.workers.Keys == s.workers.Keys
            && (forall u :: u in s.workers && u != w ==> n.workers[u] == s.workers[u])
            && (n.workers[w].Failed? <==> Faults(s, Work(w, ok)))
            && n.failed == (s.failed || s.workers[w].Failed?)
  {
    if PhaseOnly(s, w, ok) {
      PhaseTaints(s, w, ok, links);
      assert Worked(s, w, ok, links) == GoOn(s, w, NextPhase(s, w, ok, links));
    }
  }

  lemma StepTaints(s: State, step: Step, links: Links)
    requires Enabled(s, step)
    ensures Tainted(Next(s, step, links)) <==> Tainted(s) || Faults(s, step)
  {
    if step.Work? {
      WorkTaints(s, step.w, step.ok, links);
      var n := Next(s, step, links);
      if u :| u in s.workers && s.workers[u].Failed? {
        assert n.failed || n.workers[u].Failed?;
      }
      if Faults(s, step) { assert n.workers[step.w].Failed?; }
    } else {
      assert Next(s, step, links).workers == s.workers;
    }
  }

  lemma {:induction false} RunTaints(s: State, steps: seq<Step>, links: Links)
    requires IsRun(s, steps, links)
    ensures Tainted(RunFrom(s, steps, links)) <==> Tainted(s) || Faulty(s, steps, links)
    decreases |steps|
  {
    if steps != [] {
      StepTaints(s, steps[0], links);
      RunTaints(Next(s, steps[0], links), steps[1..], links);
    }
  }

  /** Every run that returns, in any interleaving: it returns an error exactly if some lookup, fetch or
      store of a block failed on the way. Until then only an outside caller has cancelled anything. */
  lemma ErrorIffFault(s: State, steps: seq<Step>, root: Cid, initial: set<Cid>, links: Links)
    requires Starts(s, root, initial) && IsRun(s, steps, links)
    ensures var n := RunFrom(s, steps, links);
            && (n.returned.Some? ==> n.returned == Some(!Faulty(s, steps, links)))
            && (!Faulty(s, steps, links) ==> !n.failed && (n.cancelled ==> n.outside))
  {
    StartsInv(s, root, initial, links);
    RunKeepsInv(s, steps, links);
    RunTaints(s, steps, links);
  }

  lemma {:induction false} OutsideIffCancelled(s: State, steps: seq<Step>, links: Links)
    requires IsRun(s, steps, links)
    ensures RunFrom(s, steps, links).outside <==> s.outside || CancelOutside in steps
    decreases |steps|
  {
    if steps != [] {
      OutsideIffCancelled(Next(s, steps[0], links), steps[1..], links);
      assert steps == [steps[0]] + steps[1..];
    }
  }

  lemma {:induction false} SameWorkers(s: State, steps: seq<Step>, links: Links)
    requires IsRun(s, steps, links)
    ensures RunFrom(s, steps, links).workers.Keys == s.workers.Keys
    decreases |steps|
  {
    if steps != [] {
      if steps[0].Work? { WorkTaints(s, steps[0].w, steps[0].ok, links); }
      SameWorkers(Next(s, steps[0], links), steps[1..], links);
    }
  }

  /** Nothing is left to do but a cancellation from outside. */
  ghost predicate Finished(s: State) {
    forall step :: Enabled(s, step) ==> step.CancelOutside?
  }

  /** Every interleaving that is carried to its end, without a fault and without a cancellation from
      outside, returns without error and has stored every block reachable from the root. */
  lemma FaultFreeFetch(s: State, steps: seq<Step>, root: Cid, initial: set<Cid>, links: Links, c: Cid)
    requires Starts(s, root, initial) && IsRun(s, steps, links) && Finished(RunFrom(s, steps, links))
    requires CancelOutside !in steps && !Faulty(s, steps, links)
    ensures RunFrom(s, steps, links).returned == Some(true)
    ensures c in RunFrom(s, steps, links).stored <==> c in initial || Reachable(links, root, c)
  {
    var n := RunFrom(s, steps, links);
    StartsInv(s, root, initial, links);
    RunKeepsInv(s, steps, links);
    SameWorkers(s, steps, links);
    if n.returned.None? { var step := NeverStuck(n, links); }
    ErrorIffFault(s, steps, root, initial, links);
    OutsideIffCancelled(s, steps, links);
    FetchIsComplete(s, steps, root, initial, links, c);
  }

  /** On a finite link graph there is such a run: whatever has happened so far, the pipeline can be
      carried to its return without a further fault. */
  lemma {:induction false} CanReturn(s: State, all: set<Cid>, links: Links) returns (steps: seq<Step>)
    requires Inv(s, links) && s.workers != map[] && Universe(s, all, links)
    ensures IsRun(s, steps, links) && RunFrom(s, steps, links).returned.Some?
    ensures CancelOutside !in steps && !Faulty(s, steps, links)
    decreases Measure(s, all, links)
  {
    if s.returned.Some? {
      steps := [];
    } else {
      var step := NeverStuck(s, links);
      var n := Next(s, step, links);
      StepKeepsInv(s, step, links);
      StepKeepsUniverse(s, step, all, links);
      MeasureDrops(s, step, all, links);
      SameWorkers(s, [step], links);
      var rest := CanReturn(n, all, links);
      steps := [step] + rest;
      assert steps[1..] == rest;
    }
  }

  // ---------------------------------------------------------------- after a cancellation

  /** The failure that is recorded has cancelled the pipeline, or its worker is about to. */
  predicate Alarmed(s: State) {
    s.failed ==> s.cancelled || exists w :: w in s.workers && s.workers[w].Cancelling?
  }

  lemma WorkAlarms(s: State, w: Wid, ok: bool, links: Links)
    requires CanWork(s, w)
    ensures s.workers[w].Failed? && !s.failed ==> Worked(s, w, ok, links).workers[w].Cancelling?
    ensures s.workers[w].Cancelling? ==> Worked(s, w, ok, links).cancelled
    ensures s.cancelled ==> Worked(s, w, ok, links).cancelled
  {
  }

  lemma StepAlarms(s: State, step: Step, links: Links)
    requires Enabled(s, step) && Alarmed(s)
    ensures Alarmed(Next(s, step, links))
  {
    var n := Next(s, step, links);
    if step.Work? {
      WorkTaints(s, step.w, step.ok, links);
      WorkAlarms(s, step.w, step.ok, links);
      if s.failed && !s.cancelled {
        var u :| u in s.workers && s.workers[u].Cancelling?;
        assert n.cancelled || n.workers[u].Cancelling?;
      }
    } else {
      assert n.workers == s.workers;
    }
  }

  lemma {:induction false} RunAlarms(s: State, steps: seq<Step>, links: Links)
    requires IsRun(s, steps, links) && Alarmed(s)
    ensures Alarmed(RunFrom(s, steps, links))
    decreases |steps|
  {
    if steps != [] {
      StepAlarms(s, steps[0], links);
      RunAlarms(Next(s, steps[0], links), steps[1..], links);
    }
  }

  /** A run that returns an error has cancelled what was left. */
  lemma ErrorCancels(s: State, steps: seq<Step>, root: Cid, initial: set<Cid>, links: Links)
    requires Starts(s, root, initial) && IsRun(s, steps, links)
    ensures RunFrom(s, steps, links).returned == Some(false) ==> RunFrom(s, steps, links).cancelled
  {
    StartsInv(s, root, initial, links);
    RunKeepsInv(s, steps, links);
    RunAlarms(s, steps, links);
  }

  /** Blocks a worker is already looking up, fetching or storing. */
  function InHand(s: State): set<Cid> {
    set w | w in s.workers && (s.workers[w].Checking? || s.workers[w].Putting?) :: s.workers[w].item
  }

  lemma CancelledStep(s: State, step: Step, links: Links)
    requires Enabled(s, step) && s.cancelled
    ensures var n := Next(s, step, links);
            n.cancelled && n.stored + InHand(n) <= s.stored + InHand(s)
  {
    var n := Next(s, step, links);
    if step.Work? {
      WorkTaints(s, step.w, step.ok, links);
      var w := step.w;
      assert n.workers[w].Checking? || n.workers[w].Putting? ==>
               s.workers[w].Checking? && n.workers[w].item == s.workers[w].item;
      if s.workers[w].Checking? || s.workers[w].Putting? { assert s.workers[w].item in InHand(s); }
    }
  }

  /** Once the pipeline is cancelled no worker starts another block: all that is still stored was in a
      worker's hands at that moment. */
  lemma {:induction false} CancelStopsStoring(s: State, steps: seq<Step>, links: Links)
    requires s.cancelled && IsRun(s, steps, links)
    ensures RunFrom(s, steps, links).stored <= s.stored + InHand(s)
    decreases |steps|
  {
    if steps != [] {
      CancelledStep(s, steps[0], links);
      CancelStopsStoring(Next(s, steps[0], links), steps[1..], links);
    }
  }

  /** A step that lets go of a block because of a cancellation. */
  predicate Drops(s: State, step: Step) {
    step.GiveUp? || (step.Work? && step.w in s.workers && s.workers[step.w].Took? && s.cancelled)
  }

  ghost predicate Dropping(s: State, steps: seq<Step>, links: Links)
    requires IsRun(s, steps, links)
    decreases |steps|
  {
    steps != [] && (Drops(s, steps[0]) || Dropping(Next(s, steps[0], links), steps[1..], links))
  }

  lemma DoneByWork(s: State, w: Wid, ok: bool, links: Links, c: Cid)
    requires CanWork(s, w) && !Drops(s, Work(w, ok)) && At(Worked(s, w, ok, links), c, Done) && !At(s, c, Done)
    ensures s.workers[w] == Finishing(c)
  {
  }

  lemma StepKeepsWhole(s: State, step: Step, links: Links, c: Cid)
    requires Inv(s, links) && Enabled(s, step) && !Drops(s, step) && Whole(s, c, links)
    ensures Whole(Next(s, step, links), c, links)
  {
    var n := Next(s, step, links);
    forall x { StepAdds(s, step, links, x); }
    if step.Work? && At(n, c, Done) && !At(s, c, Done) {
      DoneByWork(s, step.w, step.ok, links, c);
      assert WorkerOk(s, step.w, links);
    }
    if step.Work? { WorkTaints(s, step.w, step.ok, links); }
  }

  lemma {:induction false} RunKeepsWhole(s: State, steps: seq<Step>, links: Links, c: Cid)
    requires Inv(s, links) && IsRun(s, steps, links) && !Dropping(s, steps, links) && Whole(s, c, links)
    ensures Whole(RunFrom(s, steps, links), c, links)
    decreases |steps|
  {
    if steps != [] {
      StepKeepsInv(s, steps[0], links);
      StepKeepsWhole(s, steps[0], links, c);
      RunKeepsWhole(Next(s, steps[0], links), steps[1..], links, c);
    }
  }

  /** What decides is whether a block was let go: a run that returns without error and dropped none is
      complete, also if it was cancelled from outside on the way. */
  lemma UndroppedFetch(s: State, steps: seq<Step>, root: Cid, initial: set<Cid>, links: Links, c: Cid)
    requires Starts(s, root, initial) && IsRun(s, steps, links) && !Dropping(s, steps, links)
    requires RunFrom(s, steps, links).returned == Some(true)
    ensures c in RunFrom(s, steps, links).stored <==> c in initial || Reachable(links, root, c)
  {
    var n := RunFrom(s, steps, links);
    StartsInv(s, root, initial, links);
    assert IsPath(links, root, [root], root);
    RunKeepsInv(s, steps, links);
    RunKeepsSound(s, steps, root, initial, links);
    forall x ensures Whole(n, x, links) { RunKeepsWhole(s, steps, links, x); }
    WholeIsComplete(n, root, initial, links, c);
  }

  lemma Prepend(s: State, step: Step, rest: seq<Step>, links: Links)
    requires Enabled(s, step) && IsRun(Next(s, step, links), rest, links)
    ensures IsRun(s, [step] + rest, links) && RunFrom(s, [step] + rest, links) == RunFrom(Next(s, step, links), rest, links)
  {
    assert ([step] + rest)[1..] == rest;
  }

  /** A pipeline with one worker, cancelled before it began: it returns without error and without the
      root. */
  lemma CancelledReturnsNil(links: Links) returns (s: State, steps: seq<Step>)
    ensures Starts(s, 0, {}) && IsRun(s, steps, links)
    ensures RunFrom(s, steps, links).returned == Some(true) && 0 !in RunFrom(s, steps, links).stored
  {
    s := State(map[0 := Sending], [], map[0 := Waiting], 1, {}, Waits, false, false, false, None);
    var s1 := Next(s, CancelOutside, links);
    var s2 := Next(s1, GiveUp(0), links);
    var s3 := Next(s2, Close, links);
    var s4 := Next(s3, Close, links);
    var s5 := Next(s4, Work(0, true), links);
    steps := [];
    Prepend(s5, Return, steps, links); steps := [Return] + steps;
    Prepend(s4, Work(0, true), steps, links); steps := [Work(0, true)] + steps;
    Prepend(s3, Close, steps, links); steps := [Close] + steps;
    Prepend(s2, Close, steps, links); steps := [Close] + steps;
    Prepend(s1, GiveUp(0), steps, links); steps := [GiveUp(0)] + steps;
    Prepend(s, CancelOutside, steps, links); steps := [CancelOutside] + steps;
  }
}
