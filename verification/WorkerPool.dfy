/** The worker pool: one queue, one mutex, one condition variable, some workers and the thread
    that enqueues and finally stops them. A step is what one thread does while it holds the
    mutex, or the handling of a job outside it. */
module WorkerPool {
  import opened Bytes

  type Job = Bytes

  /** Blocked on the condition variable, on the way to the mutex, handling the job with a given
      ticket (its position in enqueue order), or returned from WorkerLoop. */
  datatype Worker = Waiting | Awake | Busy(ticket: nat) | Exited

  /** The main thread: receiving, inside StopWorkers after its broadcast, returned from it. */
  datatype Phase = Serving | Stopping | Stopped

  /** `queue`, `running` and `workers` are the program's; the rest is history: all jobs ever
      enqueued, how many were taken, and the tickets of those handled, in order of completion. */
  datatype Pool = Pool(
    queue: seq<Job>, running: bool, workers: seq<Worker>, phase: Phase,
    enqueued: seq<Job>, taken: nat, handled: seq<nat>)

  datatype Event =
    | Enqueue(job: Job, woken: Option<nat>)
    | Check(worker: nat)
    | Finish(worker: nat)
    | Spurious(worker: nat)
    | Stop
    | Joined

  predicate Is(p: Pool, i: nat, w: Worker)
  {
    i < |p.workers| && p.workers[i] == w
  }

  /** May the event happen? A signal wakes a blocked worker whenever there is one. */
  predicate Enabled(p: Pool, e: Event)
  {
    match e
    case Enqueue(_, Some(i)) => p.phase.Serving? && Is(p, i, Waiting)
    case Enqueue(_, None) => p.phase.Serving? && Waiting !in p.workers
    case Check(i) => Is(p, i, Awake)
    case Finish(i) => i < |p.workers| && p.workers[i].Busy?
    case Spurious(i) => Is(p, i, Waiting)
    case Stop => p.phase.Serving?
    case Joined => p.phase.Stopping? && forall i :: 0 <= i < |p.workers| ==> p.workers[i] == Exited
  }

  function Wake(ws: seq<Worker>): (r: seq<Worker>)
    ensures |r| == |ws|
    ensures forall i :: 0 <= i < |ws| ==> r[i] == if ws[i] == Waiting then Awake else ws[i]
  {
    if ws == [] then [] else [if ws[0] == Waiting then Awake else ws[0]] + Wake(ws[1..])
  }

  /** A worker inside Dequeue, holding the mutex: it waits, leaves or takes the front job. */
  function Checked(p: Pool, i: nat): Pool
    requires Is(p, i, Awake)
  {
    if p.queue == [] then p.(workers := p.workers[i := if p.running then Waiting else Exited])
    else p.(queue := p.queue[1..], workers := p.workers[i := Busy(p.taken)], taken := p.taken + 1)
  }

  function Next(p: Pool, e: Event): Pool
    requires Enabled(p, e)
  {
    match e
    case Enqueue(job, woken) =>
      p.(queue := p.queue + [job], enqueued := p.enqueued + [job],
         workers := if woken.Some? then p.workers[woken.value := Awake] else p.workers)
    case Check(i) => Checked(p, i)
    case Finish(i) => p.(workers := p.workers[i := Awake], handled := p.handled + [p.workers[i].ticket])
    case Spurious(i) => p.(workers := p.workers[i := Awake])
    case Stop => p.(running := false, phase := Stopping, workers := Wake(p.workers))
    case Joined => p.(phase := Stopped)
  }

  /** Right after StartWorkers managed to create `n` threads. */
  function Start(n: nat): Pool
  {
    Pool([], true, seq(n, _ => Awake), Serving, [], 0, [])
  }

  /** `events` is a possible run of a pool of `n` workers, and `p` is where it ends. */
  ghost predicate Reaches(n: nat, events: seq<Event>, p: Pool)
  {
    if events == [] then p == Start(n)
    else
      var before, e := events[..|events| - 1], events[|events| - 1];
      exists q :: Reaches(n, before, q) && Enabled(q, e) && p == Next(q, e)
  }

  /** The jobs handed to Enqueue in a run, in order. */
  function JobsOf(events: seq<Event>): seq<Job>
  {
    if events == [] then []
    else
      var e := events[|events| - 1];
      JobsOf(events[..|events| - 1]) + (if e.Enqueue? then [e.job] else [])
  }

  /** None is lost, none is made up: the jobs enqueued are those handed over, in order. */
  lemma {:induction false} EnqueuedAreJobs(n: nat, events: seq<Event>, p: Pool)
    requires Reaches(n, events, p)
    ensures p.enqueued == JobsOf(events)
  {
    if events == [] {
    } else {
      var before, e := events[..|events| - 1], events[|events| - 1];
      var q :| Reaches(n, before, q) && Enabled(q, e) && p == Next(q, e);
      EnqueuedAreJobs(n, before, q);
    }
  }

  // ----- Counting workers -----

  function Count(ws: seq<Worker>, w: Worker): nat
  {
    if ws == [] then 0 else (if ws[0] == w then 1 else 0) + Count(ws[1..], w)
  }

  lemma {:induction false} CountUpdate(ws: seq<Worker>, i: nat, v: Worker, w: Worker)
    requires i < |ws|
    ensures Count(ws[i := v], w) == Count(ws, w) - (if ws[i] == w then 1 else 0) + (if v == w then 1 else 0)
  {
    if i == 0 {
      assert ws[0 := v][1..] == ws[1..];
    } else {
      assert ws[i := v][1..] == ws[1..][i - 1 := v];
      CountUpdate(ws[1..], i - 1, v, w);
    }
  }

  lemma {:induction false} CountZero(ws: seq<Worker>, w: Worker)
    ensures Count(ws, w) == 0 <==> w !in ws
  {
    if ws == [] {
    } else {
      CountZero(ws[1..], w);
      assert w in ws <==> w == ws[0] || w in ws[1..];
    }
  }

  lemma {:induction false} CountWake(ws: seq<Worker>, t: nat)
    ensures Count(Wake(ws), Busy(t)) == Count(ws, Busy(t))
  {
    if ws == [] {
    } else {
      CountWake(ws[1..], t);
      assert Wake(ws)[1..] == Wake(ws[1..]);
    }
  }

  // ----- The invariant -----

  /** If anyone is blocked, the queue is no longer than the number of awake workers. */
  ghost predicate NoLostWakeup(p: Pool)
  {
    Waiting in p.workers ==> |p.queue| <= Count(p.workers, Awake)
  }

  /** The jobs taken are the first `taken` ones enqueued; the queue holds the others, in order. */
  ghost predicate InOrder(p: Pool)
  {
    p.taken <= |p.enqueued| && p.queue == p.enqueued[p.taken..]
  }

  /** A ticket that was given out is with exactly one worker or was handled exactly once; no other
      ticket is anywhere. */
  ghost predicate ExactlyOnce(p: Pool)
  {
    forall t: nat :: multiset(p.handled)[t] + Count(p.workers, Busy(t)) == if t < p.taken then 1 else 0
  }

  ghost predicate Orderly(p: Pool)
  {
    && (p.running <==> p.phase.Serving?)
    && (!p.running ==> Waiting !in p.workers)
    && (Exited in p.workers ==> !p.running && p.queue == [])
    && (p.phase.Stopped? ==> forall i :: 0 <= i < |p.workers| ==> p.workers[i] == Exited)
  }

  ghost predicate Inv(p: Pool)
  {
    NoLostWakeup(p) && InOrder(p) && ExactlyOnce(p) && Orderly(p)
  }

  lemma {:induction false} StartCounts(n: nat, w: Worker)
    requires w != Awake
    ensures Count(Start(n).workers, w) == 0
  {
    CountZero(Start(n).workers, w);
  }

  lemma StartInv(n: nat)
    ensures Inv(Start(n))
  {
    forall t: nat
      ensures Count(Start(n).workers, Busy(t)) == 0
    {
      StartCounts(n, Busy(t));
    }
  }

  lemma NextNoLostWakeup(p: Pool, e: Event)
    requires Inv(p) && Enabled(p, e)
    ensures NoLostWakeup(Next(p, e))
  {
    match e
    case Enqueue(_, Some(i)) => CountUpdate(p.workers, i, Awake, Awake);
    case Enqueue(_, None) =>
    case Check(i) =>
      CountUpdate(p.workers, i, Busy(p.taken), Awake);
    case Finish(i) => CountUpdate(p.workers, i, Awake, Awake);
    case Spurious(i) => CountUpdate(p.workers, i, Awake, Awake);
    case Stop =>
    case Joined =>
  }

  lemma NextExactlyOnce(p: Pool, e: Event)
    requires Inv(p) && Enabled(p, e)
    ensures ExactlyOnce(Next(p, e))
  {
    var q := Next(p, e);
    forall t: nat
      ensures multiset(q.handled)[t] + Count(q.workers, Busy(t)) == if t < q.taken then 1 else 0
    {
      match e
      case Enqueue(_, Some(i)) => CountUpdate(p.workers, i, Awake, Busy(t));
      case Enqueue(_, None) =>
      case Check(i) => CountUpdate(p.workers, i, q.workers[i], Busy(t));
      case Finish(i) => CountUpdate(p.workers, i, Awake, Busy(t));
      case Spurious(i) => CountUpdate(p.workers, i, Awake, Busy(t));
      case Stop => CountWake(p.workers, t);
      case Joined =>
    }
  }

  lemma NextOrderly(p: Pool, e: Event)
    requires Inv(p) && Enabled(p, e)
    ensures Orderly(Next(p, e)) && InOrder(Next(p, e))
  {
    var q := Next(p, e);
    assert forall i :: 0 <= i < |q.workers| && q.workers[i] != p.workers[i] ==>
           e.Stop? || !q.workers[i].Exited? || p.queue == [];
  }

  /** Every step keeps the invariant. */
  lemma NextInv(p: Pool, e: Event)
    requires Inv(p) && Enabled(p, e)
    ensures Inv(Next(p, e))
  {
    NextNoLostWakeup(p, e);
    NextExactlyOnce(p, e);
    NextOrderly(p, e);
  }

  /** In every reachable state of every pool: no lost wakeup, jobs leave in enqueue order, and
      each ticket is in exactly one place. */
  lemma {:induction false} ReachableInv(n: nat, events: seq<Event>, p: Pool)
    requires Reaches(n, events, p)
    ensures Inv(p) && |p.workers| == n
  {
    if events == [] {
      StartInv(n);
    } else {
      var before, e := events[..|events| - 1], events[|events| - 1];
      var q :| Reaches(n, before, q) && Enabled(q, e) && p == Next(q, e);
      ReachableInv(n, before, q);
      NextInv(q, e);
    }
  }

  /** In every reachable state the queue holds the jobs handed to Enqueue but for those taken, and the
      next to be taken is the one with the next ticket. */
  lemma QueueHoldsRest(n: nat, events: seq<Event>, p: Pool)
    requires Reaches(n, events, p)
    ensures p.taken <= |JobsOf(events)| && p.queue == JobsOf(events)[p.taken..]
  {
    ReachableInv(n, events, p);
    EnqueuedAreJobs(n, events, p);
  }

  /** When StopWorkers returns from a pool that had a worker, the queue is empty and every job
      ever handed to Enqueue was handled, exactly once. */
  lemma StopHandlesAll(n: nat, events: seq<Event>, p: Pool)
    requires n > 0 && Reaches(n, events, p) && p.phase.Stopped?
    ensures p.queue == [] && p.taken == |JobsOf(events)|
    ensures forall t: nat :: multiset(p.handled)[t] == if t < |JobsOf(events)| then 1 else 0
  {
    ReachableInv(n, events, p);
    EnqueuedAreJobs(n, events, p);
    assert p.workers[0] == Exited;
    forall t: nat
      ensures Count(p.workers, Busy(t)) == 0
    {
      CountZero(p.workers, Busy(t));
    }
  }

  // ----- Progress -----

  /** There is work to take, or a stop to obey for some worker that has not left. */
  ghost predicate Pending(p: Pool)
  {
    p.workers != [] && (p.queue != [] || (!p.running && exists w :: w in p.workers && w != Exited))
  }

  ghost function LiveWorker(p: Pool): (w: Worker)
    requires Pending(p) && Orderly(p)
    ensures w in p.workers && w != Exited
  {
    if p.queue != [] then p.workers[0] else var w :| w in p.workers && w != Exited; w
  }

  /** Then some worker can move: it is not the case that all of them sleep. */
  lemma SomeWorkerCanMove(p: Pool) returns (e: Event)
    requires Inv(p) && Pending(p)
    ensures (e.Check? || e.Finish?) && Enabled(p, e)
  {
    CountZero(p.workers, Awake);
    var w := if Awake in p.workers then Awake else LiveWorker(p);
    var i :| 0 <= i < |p.workers| && p.workers[i] == w;
    e := if w == Awake then Check(i) else Finish(i);
  }

  /** Nothing holds up the main thread while it serves, whatever the job: it can enqueue, waking a blocked
      worker if there is one, and it can stop. No worker that has not left is held up either; a blocked one
      may wake for no reason. */
  lemma NobodyHeldUp(p: Pool, job: Job, i: nat) returns (woken: Option<nat>, own: Event)
    requires i < |p.workers| && p.workers[i] != Exited
    ensures p.phase.Serving? ==> Enabled(p, Enqueue(job, woken)) && Enabled(p, Stop)
    ensures p.phase.Serving? ==> (woken.Some? <==> Waiting in p.workers)
    ensures Enabled(p, own)
    ensures own == match p.workers[i] case Waiting => Spurious(i) case Awake => Check(i) case _ => Finish(i)
  {
    woken := None;
    if Waiting in p.workers {
      var k: nat :| k < |p.workers| && p.workers[k] == Waiting;
      woken := Some(k);
    }
    own := match p.workers[i] case Waiting => Spurious(i) case Awake => Check(i) case _ => Finish(i);
  }

  /** How many worker steps a stopping pool can still make at most. */
  ghost function Remaining(ws: seq<Worker>): nat
  {
    if ws == [] then 0
    else (match ws[0] case Busy(_) => 2 case Exited => 0 case _ => 1) + Remaining(ws[1..])
  }

  lemma {:induction false} RemainingUpdate(ws: seq<Worker>, i: nat, v: Worker)
    requires i < |ws|
    ensures Remaining(ws[i := v]) + Remaining([ws[i]]) == Remaining(ws) + Remaining([v])
  {
    assert [ws[i]][1..] == [] && [v][1..] == [];
    if i == 0 {
      assert ws[0 := v][1..] == ws[1..];
    } else {
      assert ws[i := v][1..] == ws[1..][i - 1 := v];
      RemainingUpdate(ws[1..], i - 1, v);
    }
  }

  /** What is left to do once stopping: two steps for every queued job, one or two for every
      worker that has not left, and the join. */
  ghost function Left(p: Pool): nat
  {
    2 * |p.queue| + Remaining(p.workers) + (if p.phase.Stopping? then 1 else 0)
  }

  /** Once stopping, every step of whatever thread uses up some of what is left. */
  lemma StoppingShrinks(p: Pool, e: Event)
    requires Inv(p) && !p.running && Enabled(p, e)
    ensures var q := Next(p, e); !q.running && Left(q) < Left(p)
  {
    if e.Check? || e.Finish? {
      var i, v := e.worker, Next(p, e).workers[e.worker];
      assert [v][1..] == [] && [p.workers[i]][1..] == [];
      RemainingUpdate(p.workers, i, v);
    }
  }

  /** The events take the pool from `p` to `q`. */
  ghost predicate Leads(p: Pool, events: seq<Event>, q: Pool)
    decreases |events|
  {
    if events == [] then p == q
    else Enabled(p, events[0]) && Leads(Next(p, events[0]), events[1..], q)
  }

  /** However the threads are scheduled, only so many steps are possible after the broadcast... */
  lemma {:induction false} StopIsBounded(p: Pool, events: seq<Event>, q: Pool)
    requires Inv(p) && !p.running && Leads(p, events, q)
    ensures |events| <= Left(p)
    decreases |events|
  {
    if events == [] {
    } else {
      StoppingShrinks(p, events[0]);
      NextInv(p, events[0]);
      StopIsBounded(Next(p, events[0]), events[1..], q);
    }
  }

  /** ... and until StopWorkers has returned one always is: it returns. */
  lemma StopNeverStuck(p: Pool) returns (e: Event)
    requires Inv(p) && p.phase.Stopping?
    ensures Enabled(p, e)
  {
    if i :| 0 <= i < |p.workers| && p.workers[i] != Exited {
      assert p.workers[i] in p.workers;
      e := SomeWorkerCanMove(p);
    } else {
      e := Joined;
    }
  }

  // ----- The monitor itself -----

  /** The server's fields and the sections its threads run under the queue mutex. */
  class Monitor {
    var queue: seq<Job>
    var running: bool
    ghost var workers: seq<Worker>
    ghost var phase: Phase
    ghost var enqueued: seq<Job>
    ghost var taken: nat
    ghost var handled: seq<nat>

    ghost function View(): Pool
      reads this
    {
      Pool(queue, running, workers, phase, enqueued, taken, handled)
    }

    constructor StartWorkers(n: nat)
      ensures View() == Start(n)
    {
      queue, running, workers, phase := [], true, seq(n, _ => Awake), Serving;
      enqueued, taken, handled := [], 0, [];
    }

    /** Appends the job and signals: some blocked worker wakes if there is one. */
    method Enqueue(job: Job) returns (ghost woken: Option<nat>)
      requires phase.Serving?
      modifies this
      ensures var e := Event.Enqueue(job, woken);
              Enabled(old(View()), e) && View() == Next(old(View()), e)
      ensures queue == old(queue) + [job] && enqueued == old(enqueued) + [job]
    {
      queue := queue + [job];
      enqueued := enqueued + [job];
      woken := None;
      if Waiting in workers {
        var i: nat :| i < |workers| && workers[i] == Waiting;
        workers := workers[i := Awake];
        woken := Some(i);
      }
    }

    /** One turn of Dequeue's loop for worker `i`: the job if it got one, else it blocked or left. */
    method Dequeue(i: nat) returns (job: Option<Job>)
      requires i < |workers| && workers[i] == Awake
      modifies this
      ensures Enabled(old(View()), Check(i)) && View() == Next(old(View()), Check(i))
      ensures job == if old(queue) == [] then None else Some(old(queue)[0])
      ensures queue == if old(queue) == [] then [] else old(queue)[1..]
    {
      job := None;
      if queue == [] && running {
        workers := workers[i := Waiting];
      } else if !running && queue == [] {
        workers := workers[i := Exited];
      } else {
        job := Some(queue[0]);
        queue := queue[1..];
        workers := workers[i := Busy(taken)];
        taken := taken + 1;
      }
    }

    /** Back from HandleQuery. */
    method Handled(i: nat)
      requires i < |workers| && workers[i].Busy?
      modifies this
      ensures View() == Next(old(View()), Finish(i))
    {
      handled := handled + [workers[i].ticket];
      workers := workers[i := Awake];
    }

    /** The locked part of StopWorkers: the flag and the broadcast. */
    method StopWorkers()
      requires phase.Serving?
      modifies this
      ensures View() == Next(old(View()), Stop)
    {
      running := false;
      workers := Wake(workers);
      phase := Stopping;
    }
  }
}
