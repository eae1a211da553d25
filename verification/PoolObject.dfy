/**
 The pool as the object it is: fields that the pool's owner and the workers
 update in place.  Each method is one atomic step, and the object remembers the
 steps it has taken, so what holds of every run holds of the object.
 */
module PoolObject {
  import opened ThreadPool

  lemma {:induction false} RunsAppend(p: Pool, es: seq<Event>, e: Event)
    requires Runs(p, es) && Enabled(After(p, es), e)
    ensures Runs(p, es + [e]) && After(p, es + [e]) == Next(After(p, es), e)
    decreases |es|
  {
    if es == [] {
      RunsOne(p, e);
      assert es + [e] == [e];
    } else {
      assert (es + [e])[1..] == es[1..] + [e];
      RunsAppend(Next(p, es[0]), es[1..], e);
    }
  }

  class Executor {
    const size: nat
    var built: bool
    var workers: seq<Worker>
    var handles: int
    var holder: int
    var poisoned: bool
    var sender: bool
    var queue: seq<Ticket>
    var sent: nat
    var refused: nat
    ghost var taken: seq<Ticket>
    ghost var finished: set<Ticket>
    ghost var panicked: set<Ticket>
    ghost var discarded: seq<Ticket>
    ghost var history: seq<Event>

    ghost function State(): Pool
      reads this
    {
      Pool(size, built, workers, handles, holder, poisoned, sender,
           queue, sent, taken, finished, panicked, discarded, refused)
    }

    /** The fields are what the steps in `history` make of a new pool. */
    ghost predicate Valid()
      reads this
    {
      size > 0 && Runs(New(size), history) && State() == After(New(size), history)
    }

    /** Pushes the workers one by one, then lets go of its own handle. */
    constructor (size: nat)
      requires size > 0
      ensures Valid() && this.size == size
      ensures built && sender && queue == [] && holder == FREE && handles == size
      ensures |workers| == size && forall w :: 0 <= w < size ==> workers[w] == Idle
    {
      this.size := size;
      built, workers, handles, holder := false, [], 1, FREE;
      poisoned, sender, queue, sent, refused := false, true, [], 0, 0;
      taken, finished, panicked, discarded, history := [], {}, {}, [], [];
      new;
      for id := 0 to size
        invariant Valid() && !built && sender && queue == [] && holder == FREE
        invariant |workers| == id && handles == id + 1
        invariant forall w :: 0 <= w < id ==> workers[w] == Idle
      {
        PushWorker();
      }
      DropOwnHandle();
    }

    /** Worker::new gets a clone of the receiver. */
    method PushWorker()
      requires Valid() && !built && |workers| < size
      modifies this
      ensures Valid() && history == old(history) + [Spawn]
      ensures workers == old(workers) + [Idle] && handles == old(handles) + 1
      ensures built == old(built) && sender == old(sender) && queue == old(queue) && holder == old(holder)
    {
      RunsAppend(New(size), history, Spawn);
      workers, handles := workers + [Idle], handles + 1;
      history := history + [Spawn];
    }

    method DropOwnHandle()
      requires Valid() && !built && |workers| == size && handles > 1
      modifies this
      ensures Valid() && history == old(history) + [Return]
      ensures built && handles == old(handles) - 1
      ensures workers == old(workers) && sender == old(sender) && queue == old(queue) && holder == old(holder)
    {
      RunsAppend(New(size), history, Return);
      built, handles := true, handles - 1;
      history := history + [Return];
    }

    /** execute: sends a job, or finds that nobody is left to receive it. */
    method Execute() returns (ok: bool)
      requires Valid() && built && sender
      modifies this
      ensures Valid() && history == old(history) + [Submit]
      ensures ok <==> old(exists w :: 0 <= w < |workers| && !workers[w].Dead?)
      ensures ok ==> queue == old(queue) + [old(sent)] && sent == old(sent) + 1
      ensures !ok ==> queue == old(queue) && sent == old(sent)
    {
      ExecuteFailsIffAllDead(size, history);
      RunsAppend(New(size), history, Submit);
      ok := handles > 0;
      if ok {
        queue, sent := queue + [sent], sent + 1;
      } else {
        refused := refused + 1;
      }
      history := history + [Submit];
    }

    /** The pool is dropped and the channel closed. */
    method Drop()
      requires Valid() && built && sender
      modifies this
      ensures Valid() && history == old(history) + [DropSender]
      ensures !sender && workers == old(workers) && queue == old(queue) && holder == old(holder)
    {
      RunsAppend(New(size), history, DropSender);
      sender := false;
      history := history + [DropSender];
    }

    /** The thread of worker `w` ends. */
    method EndThread(w: nat)
      requires w < |workers|
      modifies this
      ensures State() == Dies(old(State()), w) && history == old(history)
    {
      workers := workers[w := Dead];
      if handles == 1 {
        discarded := discarded + queue;
        handles, queue := 0, [];
      } else {
        handles := handles - 1;
      }
    }

    /** `receiver.lock().unwrap()`, once the lock is free. */
    method LockReceiver(w: nat) returns (ok: bool)
      requires Valid() && w < |workers| && workers[w].Idle? && holder == FREE
      modifies this
      ensures Valid() && history == old(history) + [if ok then Lock(w) else LockFails(w)]
      ensures ok <==> !old(poisoned)
    {
      ok := !poisoned;
      ghost var e := if ok then Lock(w) else LockFails(w);
      RunsAppend(New(size), history, e);
      if ok {
        workers, holder := workers[w := Holding], w;
      } else {
        EndThread(w);
      }
      history := history + [e];
    }

    /** `recv().unwrap()`, once the channel has a job or is closed; the guard goes either way. */
    method ReceiveJob(w: nat) returns (ok: bool)
      requires Valid() && w < |workers| && workers[w].Holding? && (queue != [] || !sender)
      modifies this
      ensures Valid() && history == old(history) + [if ok then Receive(w) else ReceiveFails(w)]
      ensures |workers| == |old(workers)|
      ensures ok <==> old(queue) != []
      ensures ok ==> workers[w] == Running(old(queue)[0]) && taken == old(taken) + [old(queue)[0]]
      ensures holder == FREE
    {
      ok := queue != [];
      ghost var e := if ok then Receive(w) else ReceiveFails(w);
      RunsAppend(New(size), history, e);
      if ok {
        taken := taken + [queue[0]];
        workers := workers[w := Running(queue[0])];
        queue, holder := queue[1..], FREE;
      } else {
        EndThread(w);
        holder, poisoned := FREE, true;
      }
      history := history + [e];
    }

    /** `job()`: the worker goes back to the lock, or its thread ends. */
    method RunJob(w: nat, panics: bool)
      requires Valid() && w < |workers| && workers[w].Running?
      modifies this
      ensures Valid() && history == old(history) + [if panics then Panic(w) else Finish(w)]
      ensures poisoned == old(poisoned) && holder == old(holder)
    {
      ghost var e := if panics then Panic(w) else Finish(w);
      ghost var t := workers[w].ticket;
      RunsAppend(New(size), history, e);
      if panics {
        EndThread(w);
        panicked := panicked + {t};
      } else {
        finished := finished + {t};
        workers := workers[w := Idle];
      }
      history := history + [e];
    }
  }
}
