/**
 The thread pool: workers that share one channel receiver behind a mutex.

 A worker's loop is one statement, `receiver.lock().unwrap().recv().unwrap()`,
 followed by the job.  The guard is a temporary of that statement, so the lock
 is held while the worker waits for a job and is released before the job runs.
 Both unwraps can panic; a panic ends the worker's thread, and only one that
 happens while the guard is alive poisons the lock.
 */
module ThreadPool {

  /** Jobs are known by their place in the submission order, their ticket. */
  type Ticket = nat

  datatype Worker =
    | Idle                     // about to lock the receiver
    | Holding                  // has the guard, waits in recv
    | Running(ticket: Ticket)  // executes a job, without the guard
    | Dead                     // its thread has ended

  datatype Event =
    | Spawn                    // the constructor starts the next worker
    | Return                   // the constructor returns and drops its own handle
    | Submit                   // execute: send a job
    | DropSender               // the pool, and with it the sender, is dropped
    | Lock(w: nat)             // the lock is free: take the guard
    | LockFails(w: nat)        // the lock is free but poisoned: unwrap panics
    | Receive(w: nat)          // recv returns a job; the statement ends, the guard is dropped
    | ReceiveFails(w: nat)     // recv reports a closed, empty channel: unwrap panics with the guard
    | Finish(w: nat)           // the job returns
    | Panic(w: nat)            // the job panics

  /**
   `queue` is the channel's content, `sent` the number of jobs it has accepted
   and so the next ticket, `taken` the tickets received so far in order.
   `handles` counts the clones of the shared receiver; when the last one is
   dropped the channel is gone, and what was queued is discarded.
   */
  datatype Pool = Pool(
    size: nat,
    built: bool,
    workers: seq<Worker>,
    handles: int,
    holder: int,
    poisoned: bool,
    sender: bool,
    queue: seq<Ticket>,
    sent: nat,
    taken: seq<Ticket>,
    finished: set<Ticket>,
    panicked: set<Ticket>,
    discarded: seq<Ticket>,
    refused: nat)

  /** No worker holds the lock. */
  const FREE: int := -1

  /** The state right after the channel and the mutex have been created. */
  function New(size: nat): Pool
    requires size > 0
  {
    Pool(size, false, [], 1, FREE, false, true, [], 0, [], {}, {}, [], 0)
  }

  /** One clone of the receiver goes away. */
  function DropHandle(p: Pool): Pool {
    if p.handles == 1 then p.(handles := 0, queue := [], discarded := p.discarded + p.queue)
    else p.(handles := p.handles - 1)
  }

  /** A worker's thread ends and drops its handle. */
  function Dies(p: Pool, w: nat): Pool
    requires w < |p.workers|
  {
    DropHandle(p.(workers := p.workers[w := Dead]))
  }

  predicate Enabled(p: Pool, e: Event) {
    match e
    case Spawn => !p.built && |p.workers| < p.size
    case Return => !p.built && |p.workers| == p.size
    case Submit => p.built && p.sender
    case DropSender => p.built && p.sender
    case Lock(w) => w < |p.workers| && p.workers[w].Idle? && p.holder == FREE && !p.poisoned
    case LockFails(w) => w < |p.workers| && p.workers[w].Idle? && p.holder == FREE && p.poisoned
    case Receive(w) => w < |p.workers| && p.workers[w].Holding? && p.queue != []
    case ReceiveFails(w) => w < |p.workers| && p.workers[w].Holding? && p.queue == [] && !p.sender
    case Finish(w) => w < |p.workers| && p.workers[w].Running?
    case Panic(w) => w < |p.workers| && p.workers[w].Running?
  }

  function Next(p: Pool, e: Event): Pool
    requires Enabled(p, e)
  {
    match e
    case Spawn => p.(workers := p.workers + [Idle], handles := p.handles + 1)
    case Return => DropHandle(p.(built := true))
    case Submit =>
      if p.handles > 0 then p.(queue := p.queue + [p.sent], sent := p.sent + 1)
      else p.(refused := p.refused + 1)
    case DropSender => p.(sender := false)
    case Lock(w) => p.(workers := p.workers[w := Holding], holder := w)
    case LockFails(w) => Dies(p, w)
    case Receive(w) =>
      p.(workers := p.workers[w := Running(p.queue[0])],
         queue := p.queue[1..], taken := p.taken + [p.queue[0]], holder := FREE)
    case ReceiveFails(w) => Dies(p, w).(holder := FREE, poisoned := true)
    case Finish(w) => p.(workers := p.workers[w := Idle], finished := p.finished + {p.workers[w].ticket})
    case Panic(w) => Dies(p, w).(panicked := p.panicked + {p.workers[w].ticket})
  }

  /** The events that are a worker's own. */
  predicate IsWorkerEvent(e: Event) {
    !e.Spawn? && !e.Return? && !e.Submit? && !e.DropSender?
  }

  predicate Runs(p: Pool, es: seq<Event>)
    decreases |es|
  {
    es == [] || (Enabled(p, es[0]) && Runs(Next(p, es[0]), es[1..]))
  }

  function After(p: Pool, es: seq<Event>): Pool
    requires Runs(p, es)
    decreases |es|
  {
    if es == [] then p else After(Next(p, es[0]), es[1..])
  }

  // ---------------------------------------------------------------- the invariant

  function Live(ws: seq<Worker>): nat {
    if ws == [] then 0 else (if ws[0].Dead? then 0 else 1) + Live(ws[1..])
  }

  /** The lock: its holder is the one worker that waits in recv. */
  ghost predicate LockInv(p: Pool) {
    && -1 <= p.holder < |p.workers|
    && forall w :: 0 <= w < |p.workers| ==> (p.workers[w].Holding? <==> p.holder == w)
  }

  /** The handles: one for each live worker, and one for the constructor until it returns. */
  ghost predicate HandlesInv(p: Pool) {
    && |p.workers| <= p.size && 0 < p.size
    && p.handles == Live(p.workers) + (if p.built then 0 else 1)
    && (p.built ==> |p.workers| == p.size)
    && (!p.built ==> p.sent == 0 && p.sender)
  }

  /** First in, first out: what was taken, then what is queued or was discarded, is 0, 1, 2, ... */
  ghost predicate QueueInv(p: Pool) {
    && |p.taken| + |p.queue| + |p.discarded| == p.sent
    && (forall i :: 0 <= i < |p.taken| ==> p.taken[i] == i)
    && (forall i :: 0 <= i < |p.queue| ==> p.queue[i] == |p.taken| + i)
    && (forall i :: 0 <= i < |p.discarded| ==> p.discarded[i] == |p.taken| + i)
    && (if p.handles == 0 then p.queue == [] else p.discarded == [])
  }

  predicate IsRunning(ws: seq<Worker>, t: Ticket) {
    exists w :: 0 <= w < |ws| && ws[w] == Running(t)
  }

  /** Every ticket below `n` is with exactly one worker, or finished, or panicked. */
  ghost predicate TicketsInv(ws: seq<Worker>, n: nat, finished: set<Ticket>, panicked: set<Ticket>) {
    && finished !! panicked
    && (forall t :: t in finished ==> t < n)
    && (forall t :: t in panicked ==> t < n)
    && (forall w :: 0 <= w < |ws| && ws[w].Running? ==>
          ws[w].ticket < n && ws[w].ticket !in finished && ws[w].ticket !in panicked)
    && (forall v, w :: 0 <= v < w < |ws| && ws[v].Running? && ws[w].Running? ==> ws[v].ticket != ws[w].ticket)
    && (forall t: nat :: t < n && t !in finished && t !in panicked ==> IsRunning(ws, t))
  }

  /** Only a closed, drained channel poisons the lock; until then workers die of jobs only. */
  ghost predicate PoisonInv(p: Pool) {
    && (p.poisoned ==> !p.sender && p.queue == [] && p.discarded == [] && p.holder == FREE)
    && (!p.poisoned ==> |p.workers| - Live(p.workers) == |p.panicked|)
    && (p.refused > 0 ==> p.built && p.handles == 0)
  }

  ghost predicate Inv(p: Pool) {
    && LockInv(p) && HandlesInv(p) && QueueInv(p) && PoisonInv(p)
    && TicketsInv(p.workers, |p.taken|, p.finished, p.panicked)
  }

  // ---------------------------------------------------------------- counting live workers

  lemma {:induction false} LiveAppend(ws: seq<Worker>, x: Worker)
    ensures Live(ws + [x]) == Live(ws) + if x.Dead? then 0 else 1
  {
    if ws == [] {
      assert (ws + [x])[1..] == [];
    } else {
      assert (ws + [x])[1..] == ws[1..] + [x];
      LiveAppend(ws[1..], x);
    }
  }

  lemma {:induction false} LiveUpdate(ws: seq<Worker>, w: nat, x: Worker)
    requires w < |ws|
    ensures Live(ws[w := x]) == Live(ws) - (if ws[w].Dead? then 0 else 1) + (if x.Dead? then 0 else 1)
  {
    if w == 0 {
      assert ws[w := x][1..] == ws[1..];
    } else {
      assert ws[w := x][1..] == ws[1..][w - 1 := x];
      LiveUpdate(ws[1..], w - 1, x);
    }
  }

  lemma {:induction false} LivePositive(ws: seq<Worker>, w: nat)
    requires w < |ws| && !ws[w].Dead?
    ensures Live(ws) > 0
  {
    if w > 0 {
      LivePositive(ws[1..], w - 1);
    }
  }

  /** Someone is alive when the count says so. */
  lemma {:induction false} LiveWitness(ws: seq<Worker>) returns (w: nat)
    requires Live(ws) > 0
    ensures w < |ws| && !ws[w].Dead?
  {
    if !ws[0].Dead? {
      w := 0;
    } else {
      w := LiveWitness(ws[1..]);
      w := w + 1;
    }
  }

  // ---------------------------------------------------------------- every step keeps it

  lemma LockStep(p: Pool, e: Event)
    requires Inv(p) && Enabled(p, e)
    ensures LockInv(Next(p, e))
  {
  }

  lemma HandlesStep(p: Pool, e: Event)
    requires Inv(p) && Enabled(p, e)
    ensures HandlesInv(Next(p, e))
  {
    match e {
      case Spawn => LiveAppend(p.workers, Idle);
      case Return =>
      case Submit =>
      case DropSender =>
      case Lock(w) => LiveUpdate(p.workers, w, Holding);
      case LockFails(w) => LiveUpdate(p.workers, w, Dead);
      case Receive(w) => LiveUpdate(p.workers, w, Running(p.queue[0]));
      case ReceiveFails(w) => LiveUpdate(p.workers, w, Dead);
      case Finish(w) => LiveUpdate(p.workers, w, Idle);
      case Panic(w) => LiveUpdate(p.workers, w, Dead);
    }
  }

  lemma QueueStep(p: Pool, e: Event)
    requires Inv(p) && Enabled(p, e)
    ensures QueueInv(Next(p, e))
  {
    if IsWorkerEvent(e) {
      LivePositive(p.workers, e.w);
    }
  }

  lemma PoisonStep(p: Pool, e: Event)
    requires Inv(p) && Enabled(p, e)
    ensures PoisonInv(Next(p, e))
  {
    match e {
      case Spawn => LiveAppend(p.workers, Idle);
      case Return =>
      case Submit =>
      case DropSender =>
      case Lock(w) => LiveUpdate(p.workers, w, Holding);
      case LockFails(w) => LivePositive(p.workers, w);
      case Receive(w) => LiveUpdate(p.workers, w, Running(p.queue[0]));
      case ReceiveFails(w) => LivePositive(p.workers, w);
      case Finish(w) => LiveUpdate(p.workers, w, Idle);
      case Panic(w) =>
        LiveUpdate(p.workers, w, Dead);
        assert p.workers[w].ticket !in p.panicked;
    }
  }

  /** A worker that runs no job changes to another state in which it runs none. */
  lemma TicketsOther(ws: seq<Worker>, w: nat, x: Worker, n: nat, finished: set<Ticket>, panicked: set<Ticket>)
    requires TicketsInv(ws, n, finished, panicked)
    requires w < |ws| && !ws[w].Running? && !x.Running?
    ensures TicketsInv(ws[w := x], n, finished, panicked)
  {
    var ws' := ws[w := x];
    forall t: nat | t < n && t !in finished && t !in panicked ensures IsRunning(ws', t) {
      var v :| 0 <= v < |ws| && ws[v] == Running(t);
      assert ws'[v] == Running(t);
    }
  }

  lemma TicketsSpawn(ws: seq<Worker>, n: nat, finished: set<Ticket>, panicked: set<Ticket>)
    requires TicketsInv(ws, n, finished, panicked)
    ensures TicketsInv(ws + [Idle], n, finished, panicked)
  {
    var ws' := ws + [Idle];
    forall t: nat | t < n && t !in finished && t !in panicked ensures IsRunning(ws', t) {
      var v :| 0 <= v < |ws| && ws[v] == Running(t);
      assert ws'[v] == Running(t);
    }
  }

  lemma TicketsReceive(ws: seq<Worker>, w: nat, n: nat, finished: set<Ticket>, panicked: set<Ticket>)
    requires TicketsInv(ws, n, finished, panicked)
    requires w < |ws| && !ws[w].Running?
    ensures TicketsInv(ws[w := Running(n)], n + 1, finished, panicked)
  {
    var ws' := ws[w := Running(n)];
    forall t: nat | t < n + 1 && t !in finished && t !in panicked ensures IsRunning(ws', t) {
      if t == n {
        assert ws'[w] == Running(t);
      } else {
        var v :| 0 <= v < |ws| && ws[v] == Running(t);
        assert ws'[v] == Running(t);
      }
    }
  }

  /** A job ends one way or the other. */
  lemma TicketsEnd(ws: seq<Worker>, w: nat, x: Worker, n: nat, finished: set<Ticket>, panicked: set<Ticket>)
    requires TicketsInv(ws, n, finished, panicked)
    requires w < |ws| && ws[w].Running? && !x.Running?
    ensures TicketsInv(ws[w := x], n, finished + {ws[w].ticket}, panicked)
    ensures TicketsInv(ws[w := x], n, finished, panicked + {ws[w].ticket})
  {
    var ws' := ws[w := x];
    forall t: nat | t < n && t !in finished && t !in panicked && t != ws[w].ticket ensures IsRunning(ws', t) {
      var v :| 0 <= v < |ws| && ws[v] == Running(t);
      assert ws'[v] == Running(t);
    }
  }

  lemma TicketsStep(p: Pool, e: Event)
    requires Inv(p) && Enabled(p, e)
    ensures var r := Next(p, e); TicketsInv(r.workers, |r.taken|, r.finished, r.panicked)
  {
    var n := |p.taken|;
    match e {
      case Spawn => TicketsSpawn(p.workers, n, p.finished, p.panicked);
      case Return =>
      case Submit =>
      case DropSender =>
      case Lock(w) => TicketsOther(p.workers, w, Holding, n, p.finished, p.panicked);
      case LockFails(w) => TicketsOther(p.workers, w, Dead, n, p.finished, p.panicked);
      case Receive(w) => TicketsReceive(p.workers, w, n, p.finished, p.panicked);
      case ReceiveFails(w) => TicketsOther(p.workers, w, Dead, n, p.finished, p.panicked);
      case Finish(w) => TicketsEnd(p.workers, w, Idle, n, p.finished, p.panicked);
      case Panic(w) => TicketsEnd(p.workers, w, Dead, n, p.finished, p.panicked);
    }
  }

  lemma StepInv(p: Pool, e: Event)
    requires Inv(p) && Enabled(p, e)
    ensures Inv(Next(p, e))
  {
    LockStep(p, e);
    HandlesStep(p, e);
    QueueStep(p, e);
    PoisonStep(p, e);
    TicketsStep(p, e);
  }

  lemma {:induction false} RunInv(p: Pool, es: seq<Event>)
    requires Inv(p) && Runs(p, es)
    ensures Inv(After(p, es))
    decreases |es|
  {
    if es != [] {
      StepInv(p, es[0]);
      RunInv(Next(p, es[0]), es[1..]);
    }
  }

  lemma {:induction false} RunKeepsSize(p: Pool, es: seq<Event>)
    requires Runs(p, es)
    ensures After(p, es).size == p.size
    decreases |es|
  {
    if es != [] {
      RunKeepsSize(Next(p, es[0]), es[1..]);
    }
  }

  lemma ReachableInv(size: nat, es: seq<Event>)
    requires size > 0 && Runs(New(size), es)
    ensures Inv(After(New(size), es)) && After(New(size), es).size == size
  {
    RunInv(New(size), es);
    RunKeepsSize(New(size), es);
  }

  // ---------------------------------------------------------------- what every run keeps

  /** The place of a ticket.  `Nowhere` is for tickets not handed out yet. */
  datatype Place = Nowhere | Waiting | AtWork | Finished | Panicked | Discarded

  /** Ticket `t` is in that place; a ticket could be in several. */
  ghost predicate In(p: Pool, t: Ticket, place: Place) {
    match place
    case Nowhere => t >= p.sent
    case Waiting => t in p.queue
    case AtWork => IsRunning(p.workers, t)
    case Finished => t in p.finished
    case Panicked => t in p.panicked
    case Discarded => t in p.discarded
  }

  /** No job is lost or done twice: in every run every ticket is in exactly one place. */
  lemma {:induction false} EveryJobInOnePlace(size: nat, es: seq<Event>, t: Ticket)
    requires size > 0 && Runs(New(size), es)
    ensures exists a :: In(After(New(size), es), t, a)
    ensures forall a, b :: In(After(New(size), es), t, a) && In(After(New(size), es), t, b) ==> a == b
  {
    ReachableInv(size, es);
    var p := After(New(size), es);
    var n := |p.taken|;
    assert t in p.queue <==> n <= t < n + |p.queue| by {
      if n <= t < n + |p.queue| { assert p.queue[t - n] == t; }
    }
    assert t in p.discarded <==> n <= t < n + |p.discarded| by {
      if n <= t < n + |p.discarded| { assert p.discarded[t - n] == t; }
    }
    var place := if t >= p.sent then Nowhere else if t >= n then (if p.handles == 0 then Discarded else Waiting)
                 else if t in p.finished then Finished else if t in p.panicked then Panicked else AtWork;
    assert In(p, t, place);
  }

  /** Jobs are taken in the order of their submission, each once. */
  lemma {:induction false} TakenInOrder(size: nat, es: seq<Event>)
    requires size > 0 && Runs(New(size), es)
    ensures
      var p := After(New(size), es);
      && |p.taken| <= p.sent
      && (forall i :: 0 <= i < |p.taken| ==> p.taken[i] == i)
      && (p.queue != [] ==> p.queue[0] == |p.taken|)
  {
    ReachableInv(size, es);
  }

  /** The lock belongs to the worker that waits in recv, one at most, and never to one that runs a job. */
  lemma {:induction false} LockIsExclusive(size: nat, es: seq<Event>, w: nat)
    requires size > 0 && Runs(New(size), es) && w < |After(New(size), es).workers|
    ensures
      var p := After(New(size), es);
      && (p.workers[w].Holding? <==> p.holder == w)
      && (p.workers[w].Running? ==> p.holder != w)
  {
    ReachableInv(size, es);
  }

  /**
   The lock is poisoned only after the sender is gone and nothing is left in the
   queue, and from then on nobody gets it.
   */
  lemma {:induction false} PoisonStrandsNoJob(size: nat, es: seq<Event>)
    requires size > 0 && Runs(New(size), es)
    ensures
      var p := After(New(size), es);
      p.poisoned ==> !p.sender && p.queue == [] && p.discarded == [] && p.holder == FREE
  {
    ReachableInv(size, es);
  }

  /** Queued jobs are lost only when as many jobs have panicked as there were workers. */
  lemma {:induction false} LossNeedsAllWorkersPanicked(size: nat, es: seq<Event>)
    requires size > 0 && Runs(New(size), es)
    ensures
      var p := After(New(size), es);
      p.discarded != [] ==> |p.panicked| == size && forall w :: 0 <= w < |p.workers| ==> p.workers[w].Dead?
  {
    ReachableInv(size, es);
    var p := After(New(size), es);
    forall w | p.discarded != [] && 0 <= w < |p.workers| ensures p.workers[w].Dead? {
      if !p.workers[w].Dead? { LivePositive(p.workers, w); }
    }
  }

  /** Once the constructor has returned, the handles are the live workers. */
  lemma {:induction false} HandlesAreLiveWorkers(size: nat, es: seq<Event>)
    requires size > 0 && Runs(New(size), es)
    ensures
      var p := After(New(size), es);
      p.built ==> |p.workers| == size && p.handles == Live(p.workers)
  {
    ReachableInv(size, es);
  }

  /** Sending a job fails exactly when every worker is dead. */
  lemma {:induction false} ExecuteFailsIffAllDead(size: nat, es: seq<Event>)
    requires size > 0 && Runs(New(size), es) && Enabled(After(New(size), es), Submit)
    ensures
      var p := After(New(size), es);
      var r := Next(p, Submit);
      && (r.refused > p.refused <==> forall w :: 0 <= w < |p.workers| ==> p.workers[w].Dead?)
      && (r.refused == p.refused ==> r.queue == p.queue + [p.sent])
  {
    ReachableInv(size, es);
    var p := After(New(size), es);
    if p.handles > 0 {
      var w := LiveWitness(p.workers);
    } else {
      forall w | 0 <= w < |p.workers| ensures p.workers[w].Dead? {
        if !p.workers[w].Dead? { LivePositive(p.workers, w); }
      }
    }
  }

  // ---------------------------------------------------------------- progress

  lemma RunsOne(p: Pool, e: Event)
    requires Enabled(p, e)
    ensures Runs(p, [e]) && After(p, [e]) == Next(p, e)
  {
    assert [e][1..] == [];
  }

  lemma RunsTwo(p: Pool, d: Event, e: Event)
    requires Enabled(p, d) && Enabled(Next(p, d), e)
    ensures Runs(p, [d, e]) && After(p, [d, e]) == Next(Next(p, d), e)
  {
    assert [d, e][1..] == [e];
    RunsOne(Next(p, d), e);
  }

  /** With a job queued and a live worker that runs none, the job is at most two steps from its worker. */
  lemma {:induction false} NextJobWithinTwoSteps(size: nat, es: seq<Event>, w: nat)
    requires size > 0 && Runs(New(size), es)
    requires
      var p := After(New(size), es);
      p.queue != [] && w < |p.workers| && (p.workers[w].Idle? || p.workers[w].Holding?)
    ensures
      var p := After(New(size), es);
      exists two :: |two| <= 2 && Runs(p, two) && After(p, two).taken == p.taken + [p.queue[0]]
  {
    ReachableInv(size, es);
    var p := After(New(size), es);
    if p.holder != FREE {
      RunsOne(p, Receive(p.holder));
    } else {
      RunsTwo(p, Lock(w), Receive(w));
    }
  }

  function Weight(x: Worker): nat {
    match x
    case Idle => 2
    case Holding => 1
    case Running(_) => 3
    case Dead => 0
  }

  function Weights(ws: seq<Worker>): nat {
    if ws == [] then 0 else Weight(ws[0]) + Weights(ws[1..])
  }

  lemma {:induction false} WeightsUpdate(ws: seq<Worker>, w: nat, x: Worker)
    requires w < |ws|
    ensures Weights(ws[w := x]) == Weights(ws) - Weight(ws[w]) + Weight(x)
  {
    if w == 0 {
      assert ws[w := x][1..] == ws[1..];
    } else {
      assert ws[w := x][1..] == ws[1..][w - 1 := x];
      WeightsUpdate(ws[1..], w - 1, x);
    }
  }

  lemma {:induction false} WeightsAppend(ws: seq<Worker>, x: Worker)
    ensures Weights(ws + [x]) == Weights(ws) + Weight(x)
  {
    if ws == [] {
      assert (ws + [x])[1..] == [];
    } else {
      assert (ws + [x])[1..] == ws[1..] + [x];
      WeightsAppend(ws[1..], x);
    }
  }

  /** The steps the workers can still take on their own, at most. */
  function Effort(p: Pool): nat {
    4 * |p.queue| + Weights(p.workers)
  }

  lemma EffortStep(p: Pool, e: Event)
    requires Inv(p) && Enabled(p, e)
    ensures IsWorkerEvent(e) ==> Effort(Next(p, e)) < Effort(p)
    ensures e.Submit? ==> Effort(Next(p, e)) <= Effort(p) + 4
    ensures e.Spawn? ==> Effort(Next(p, e)) == Effort(p) + 2
    ensures e.Return? || e.DropSender? ==> Effort(Next(p, e)) <= Effort(p)
  {
    match e {
      case Spawn => WeightsAppend(p.workers, Idle);
      case Return =>
      case Submit =>
      case DropSender =>
      case Lock(w) => WeightsUpdate(p.workers, w, Holding);
      case LockFails(w) => WeightsUpdate(p.workers, w, Dead);
      case Receive(w) => WeightsUpdate(p.workers, w, Running(p.queue[0]));
      case ReceiveFails(w) => WeightsUpdate(p.workers, w, Dead);
      case Finish(w) => WeightsUpdate(p.workers, w, Idle);
      case Panic(w) => WeightsUpdate(p.workers, w, Dead);
    }
  }

  /** How often each kind of event occurs in a schedule. */
  function WorkerEvents(es: seq<Event>): nat {
    if es == [] then 0 else (if IsWorkerEvent(es[0]) then 1 else 0) + WorkerEvents(es[1..])
  }

  function Submits(es: seq<Event>): nat {
    if es == [] then 0 else (if es[0].Submit? then 1 else 0) + Submits(es[1..])
  }

  lemma {:induction false} EffortRun(p: Pool, es: seq<Event>)
    requires Inv(p) && Runs(p, es)
    ensures WorkerEvents(es) + Effort(After(p, es)) <= Effort(p) + 4 * Submits(es) + 2 * (p.size - |p.workers|)
    decreases |es|
  {
    if es != [] {
      StepInv(p, es[0]);
      EffortStep(p, es[0]);
      EffortRun(Next(p, es[0]), es[1..]);
    }
  }

  /** The workers never spin: their steps are bounded by the jobs submitted and the pool's size. */
  lemma {:induction false} WorkersNeverSpin(size: nat, es: seq<Event>)
    requires size > 0 && Runs(New(size), es)
    ensures WorkerEvents(es) <= 4 * Submits(es) + 2 * size
  {
    EffortRun(New(size), es);
  }

  /** No worker can take a step. */
  ghost predicate Quiet(p: Pool) {
    forall e :: IsWorkerEvent(e) ==> !Enabled(p, e)
  }

  /** The sender is there until it is dropped, which happens after the constructor only. */
  lemma {:induction false} SenderIff(p: Pool, es: seq<Event>)
    requires Runs(p, es) && (!p.sender ==> p.built)
    ensures After(p, es).sender <==> p.sender && DropSender !in es
    ensures DropSender in es || p.built ==> After(p, es).built
    decreases |es|
  {
    if es != [] {
      assert DropSender in es <==> es[0] == DropSender || DropSender in es[1..];
      SenderIff(Next(p, es[0]), es[1..]);
    }
  }

  /**
   When the workers have come to rest, either all of them are dead or every
   accepted job has been run; after the sender is dropped they are all dead and
   what was accepted has been run, unless all of them were killed by jobs.
   */
  lemma {:induction false} RestMeansDone(size: nat, es: seq<Event>)
    requires size > 0 && Runs(New(size), es)
    requires var p := After(New(size), es); p.built && Quiet(p)
    ensures
      var p := After(New(size), es);
      && ((forall w :: 0 <= w < |p.workers| ==> p.workers[w].Dead?) || (DropSender !in es && |p.taken| == p.sent))
      && (forall t: nat :: t < |p.taken| ==> t in p.finished || t in p.panicked)
      && (|p.panicked| < size ==> |p.taken| == p.sent)
  {
    ReachableInv(size, es);
    var p := After(New(size), es);
    forall w | 0 <= w < |p.workers| ensures !p.workers[w].Running? {
      assert !Enabled(p, Finish(w));
    }
    forall w | 0 <= w < |p.workers| && !p.workers[w].Dead? ensures p.sender && p.queue == [] && p.handles > 0 {
      LivePositive(p.workers, w);
      assert !Enabled(p, Lock(w)) && !Enabled(p, LockFails(w));
      if p.holder != FREE {
        assert !Enabled(p, Receive(p.holder)) && !Enabled(p, ReceiveFails(p.holder));
      }
    }
    if p.handles > 0 {
      var w := LiveWitness(p.workers);
    }
    LossNeedsAllWorkersPanicked(size, es);
    SenderIff(New(size), es);
  }

  /** Once the pool has been dropped, the workers come to rest only by ending their threads, all of them. */
  lemma {:induction false} DroppedPoolEnds(size: nat, es: seq<Event>)
    requires size > 0 && Runs(New(size), es)
    requires DropSender in es && Quiet(After(New(size), es))
    ensures
      var p := After(New(size), es);
      && |p.workers| == size && (forall w :: 0 <= w < size ==> p.workers[w].Dead?)
      && (|p.panicked| < size ==> forall t: nat :: t < p.sent ==> t in p.finished || t in p.panicked)
  {
    SenderIff(New(size), es);
    HandlesAreLiveWorkers(size, es);
    RestMeansDone(size, es);
  }
}
