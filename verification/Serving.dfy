/** The whole server: the worker pool and the queries its workers handle, step by step together.
    Every query gets one reply, of a genuine result for that very query. */
module Serving {
  import opened Bytes
  import opened Message
  import opened Resolver
  import P = WorkerPool
  import I = Interleaving
  import V = Provenance

  /** What became of a query: the ticket of its job, the places in the history where it was received
      and answered, the result, and what was sent, if anything. */
  datatype Reply = Reply(ticket: nat, from: I.Mark, to: I.Mark, result: Result, sent: Option<I.Sent>)

  /** How far a worker is with its job: it owes the answer to a query; it has answered and may look
      up a name for the query log; it has neither to do. */
  datatype Stage = Owing | MayLook | Over

  /** Worker `i` of the pool is thread `i` of the queries. The replies are history, in order. */
  datatype Whole = Whole(pool: P.Pool, system: I.System, stages: seq<Stage>, replies: seq<Reply>)

  datatype Move =
    | Queue(e: P.Event)
    | Take(i: nat)
    | Work(a: I.Action)
    | Answer(i: nat)
    | Lookup(i: nat, packet: Bytes)
    | Logged(i: nat)
    | Done(i: nat)

  /** The query in a packet. */
  function QueryIn(packet: Bytes): I.Query
    requires QuestionOf(packet).Some?
  {
    I.Query(HeaderOf(packet), QuestionOf(packet).value)
  }

  ghost predicate Fits(w: Whole)
  {
    |w.stages| == |w.pool.workers| == |w.system.threads|
  }

  /** A worker takes a job when its thread is idle, answers a query once, may then once look up a
      name for the log, and is done when it owes no answer and its thread is idle. */
  ghost predicate Enabled(setup: I.Setup, w: Whole, m: Move)
  {
    Fits(w) &&
    match m
    case Queue(e) => P.Enabled(w.pool, e) && !e.Finish? && (e.Check? ==> w.pool.queue == [])
    case Take(i) => P.Enabled(w.pool, P.Check(i)) && w.pool.queue != [] && w.system.threads[i].Idle?
    case Work(a) => I.Enabled(setup, w.system, a) && !a.Receive? && !a.Send? && !a.Discard?
    case Answer(i) =>
      i < |w.stages| && w.stages[i].Owing? && w.pool.workers[i].Busy? && w.system.threads[i].Answered?
    case Lookup(i, packet) =>
      i < |w.stages| && w.stages[i].MayLook? && w.pool.workers[i].Busy? &&
      I.Enabled(setup, w.system, I.Receive(i, packet))
    case Logged(i) => i < |w.stages| && w.stages[i].Over? && w.system.threads[i].Answered?
    case Done(i) => P.Enabled(w.pool, P.Finish(i)) && !w.stages[i].Owing? && w.system.threads[i].Idle?
  }

  /** The reply that worker `i` is about to give. */
  ghost function ReplyOf(w: Whole, i: nat): Reply
    requires Fits(w) && i < |w.stages| && w.pool.workers[i].Busy? && w.system.threads[i].Answered?
  {
    var x, from, to := w.system.threads[i], I.BegunAt(w.system, i), I.Here(w.system);
    Reply(w.pool.workers[i].ticket, from, to, x.result, I.Departing(x, from, to))
  }

  ghost function Next(setup: I.Setup, w: Whole, m: Move): Whole
    requires Enabled(setup, w, m)
  {
    match m
    case Queue(e) => w.(pool := P.Next(w.pool, e))
    case Take(i) =>
      var job := w.pool.queue[0];
      var isQuery := QuestionOf(job).Some?;
      w.(pool := P.Next(w.pool, P.Check(i)), stages := w.stages[i := if isQuery then Owing else Over],
         system := if isQuery then I.Next(setup, w.system, I.Receive(i, job)) else w.system)
    case Work(a) => w.(system := I.Next(setup, w.system, a))
    case Answer(i) =>
      w.(system := I.Next(setup, w.system, I.Send(i)), stages := w.stages[i := MayLook],
         replies := w.replies + [ReplyOf(w, i)])
    case Lookup(i, packet) =>
      w.(system := I.Next(setup, w.system, I.Receive(i, packet)), stages := w.stages[i := Over])
    case Logged(i) => w.(system := I.Next(setup, w.system, I.Discard(i)))
    case Done(i) => w.(pool := P.Next(w.pool, P.Finish(i)), stages := w.stages[i := Over])
  }

  ghost predicate Initial(n: nat, w: Whole)
  {
    w.pool == P.Start(n) && I.Initial(w.system) && |w.system.threads| == n &&
    w.stages == seq(n, _ => Over) && w.replies == []
  }

  ghost predicate Reaches(setup: I.Setup, n: nat, moves: seq<Move>, w: Whole)
  {
    if moves == [] then Initial(n, w)
    else
      var before, m := moves[..|moves| - 1], moves[|moves| - 1];
      exists v :: Reaches(setup, n, before, v) && Enabled(setup, v, m) && w == Next(setup, v, m)
  }

  /** The jobs handed to Enqueue in a run, in order. */
  function JobsOf(moves: seq<Move>): seq<P.Job>
  {
    if moves == [] then []
    else
      var m := moves[|moves| - 1];
      JobsOf(moves[..|moves| - 1]) + (if m.Queue? && m.e.Enqueue? then [m.e.job] else [])
  }

  // ----- Each half is a run of its own machine -----

  lemma PoolStep(n: nat, events: seq<P.Event>, p: P.Pool, e: P.Event) returns (more: seq<P.Event>)
    requires P.Reaches(n, events, p) && P.Enabled(p, e)
    ensures P.Reaches(n, more, P.Next(p, e))
    ensures P.JobsOf(more) == P.JobsOf(events) + (if e.Enqueue? then [e.job] else [])
  {
    more := events + [e];
    assert more[..|events|] == events;
  }

  lemma PoolMove(setup: I.Setup, n: nat, v: Whole, m: Move, events: seq<P.Event>) returns (more: seq<P.Event>)
    requires P.Reaches(n, events, v.pool) && Enabled(setup, v, m)
    ensures P.Reaches(n, more, Next(setup, v, m).pool)
    ensures P.JobsOf(more) == P.JobsOf(events) + (if m.Queue? && m.e.Enqueue? then [m.e.job] else [])
  {
    match m
    case Queue(e) => more := PoolStep(n, events, v.pool, e);
    case Take(i) => more := PoolStep(n, events, v.pool, P.Check(i));
    case Done(i) => more := PoolStep(n, events, v.pool, P.Finish(i));
    case _ => more := events;
  }

  lemma {:induction false} PoolRuns(setup: I.Setup, n: nat, moves: seq<Move>, w: Whole)
    returns (events: seq<P.Event>)
    requires Reaches(setup, n, moves, w)
    ensures P.Reaches(n, events, w.pool) && P.JobsOf(events) == JobsOf(moves)
  {
    if moves == [] {
      events := [];
    } else {
      var before, m := moves[..|moves| - 1], moves[|moves| - 1];
      var v :| Reaches(setup, n, before, v) && Enabled(setup, v, m) && w == Next(setup, v, m);
      events := PoolRuns(setup, n, before, v);
      events := PoolMove(setup, n, v, m, events);
    }
  }

  lemma SystemStep(setup: I.Setup, actions: seq<I.Action>, s: I.System, a: I.Action) returns (more: seq<I.Action>)
    requires I.Reaches(setup, actions, s) && I.Enabled(setup, s, a)
    ensures I.Reaches(setup, more, I.Next(setup, s, a))
  {
    more := actions + [a];
    assert more[..|actions|] == actions;
  }

  lemma {:induction false} SystemRuns(setup: I.Setup, n: nat, moves: seq<Move>, w: Whole)
    returns (actions: seq<I.Action>)
    requires Reaches(setup, n, moves, w)
    ensures I.Reaches(setup, actions, w.system)
  {
    if moves == [] {
      actions := [];
    } else {
      var before, m := moves[..|moves| - 1], moves[|moves| - 1];
      var v :| Reaches(setup, n, before, v) && Enabled(setup, v, m) && w == Next(setup, v, m);
      actions := SystemRuns(setup, n, before, v);
      match m
      case Take(i) =>
        if QuestionOf(v.pool.queue[0]).Some? {
          actions := SystemStep(setup, actions, v.system, I.Receive(i, v.pool.queue[0]));
        }
      case Work(a) => actions := SystemStep(setup, actions, v.system, a);
      case Answer(i) => actions := SystemStep(setup, actions, v.system, I.Send(i));
      case Lookup(i, packet) => actions := SystemStep(setup, actions, v.system, I.Receive(i, packet));
      case Logged(i) => actions := SystemStep(setup, actions, v.system, I.Discard(i));
      case _ =>
    }
  }

  // ----- The invariant -----

  /** The job with this ticket is a query. */
  ghost predicate IsQuery(p: P.Pool, t: nat)
  {
    t < |p.enqueued| && QuestionOf(p.enqueued[t]).Some?
  }

  ghost predicate PairedAt(p: P.Pool, stage: Stage, worker: P.Worker, thread: I.Thread)
  {
    && (!worker.Busy? ==> thread.Idle? && stage.Over?)
    && (stage.Owing? ==>
          !thread.Idle? && IsQuery(p, worker.ticket) && thread.q == QueryIn(p.enqueued[worker.ticket]))
    && (stage.MayLook? ==> thread.Idle?)
  }

  /** Only busy workers have a query in hand, and one that owes an answer has its job's. */
  ghost predicate Paired(w: Whole)
  {
    Fits(w) &&
    forall i :: 0 <= i < |w.stages| ==> PairedAt(w.pool, w.stages[i], w.pool.workers[i], w.system.threads[i])
  }

  /** Some worker still owes the answer to the job with this ticket. */
  ghost predicate Owed(w: Whole, t: nat)
    requires Fits(w)
  {
    exists i :: 0 <= i < |w.stages| && w.stages[i].Owing? && w.pool.workers[i] == P.Busy(t)
  }

  function RepliesFor(replies: seq<Reply>, t: nat): nat
  {
    if replies == [] then 0
    else RepliesFor(replies[..|replies| - 1], t) + (if replies[|replies| - 1].ticket == t then 1 else 0)
  }

  /** A query taken and no longer owed has been answered, exactly once; no other job has. */
  ghost predicate AnsweredRight(w: Whole, t: nat)
    requires Fits(w)
  {
    RepliesFor(w.replies, t) == if t < w.pool.taken && IsQuery(w.pool, t) && !Owed(w, t) then 1 else 0
  }

  ghost predicate AnsweredOnce(w: Whole)
    requires Fits(w)
  {
    forall t: nat :: AnsweredRight(w, t)
  }

  /** The messages among the replies, in order. */
  function SentOf(replies: seq<Reply>): seq<I.Sent>
  {
    if replies == [] then []
    else
      var last := replies[|replies| - 1];
      SentOf(replies[..|replies| - 1]) + (if last.sent.Some? then [last.sent.value] else [])
  }

  /** The job is a query, the result is right for that query, given what happened while it was being
      handled, and what was sent is that result, with the query's identifier if it came from the
      cache, or nothing if it is empty. */
  ghost predicate OwnAnswer(setup: I.Setup, p: P.Pool, past: V.Past, r: Reply)
  {
    IsQuery(p, r.ticket) &&
    var q := QueryIn(p.enqueued[r.ticket]);
    && V.Genuine(setup, past, r.from, r.to, q, r.result)
    && Outgoing(r.result, q.header.id) == (if r.sent.Some? then Some(r.sent.value.bytes) else None)
    && (r.sent.Some? ==> r.sent.value.q == q && r.sent.value.source == r.result.source)
  }

  /** What was sent are the replies, each to the query of its own job. */
  ghost predicate OwnAnswers(setup: I.Setup, w: Whole)
  {
    && w.system.sent == SentOf(w.replies)
    && forall k :: 0 <= k < |w.replies| ==> OwnAnswer(setup, w.pool, V.PastOf(w.system), w.replies[k])
  }

  ghost predicate Inv(setup: I.Setup, w: Whole)
  {
    P.Inv(w.pool) && V.Traced(setup, w.system) && Paired(w) && AnsweredOnce(w) && OwnAnswers(setup, w)
  }

  // ----- Every move keeps it -----

  lemma Append(replies: seq<Reply>, r: Reply)
    ensures SentOf(replies + [r]) == SentOf(replies) + (if r.sent.Some? then [r.sent.value] else [])
    ensures forall t: nat :: RepliesFor(replies + [r], t) == RepliesFor(replies, t) + (if r.ticket == t then 1 else 0)
  {
    assert (replies + [r])[..|replies|] == replies;
  }

  lemma AppendReply(w: Whole, i: nat)
    requires Fits(w) && i < |w.stages| && w.pool.workers[i].Busy? && w.system.threads[i].Answered?
    ensures var r, more := ReplyOf(w, i), w.replies + [ReplyOf(w, i)];
            && SentOf(more) == SentOf(w.replies) + (if r.sent.Some? then [r.sent.value] else [])
            && forall t: nat :: RepliesFor(more, t) == RepliesFor(w.replies, t) + (if r.ticket == t then 1 else 0)
  {
    Append(w.replies, ReplyOf(w, i));
  }

  /** A ticket is in the hands of a worker only after it was taken. */
  lemma TicketTaken(p: P.Pool, i: nat)
    requires P.Inv(p) && i < |p.workers| && p.workers[i].Busy?
    ensures p.workers[i].ticket < p.taken <= |p.enqueued|
  {
    P.CountZero(p.workers, p.workers[i]);
  }

  lemma CountTwo(ws: seq<P.Worker>, i: nat, j: nat)
    requires i < |ws| && j < |ws| && i != j && ws[i] == ws[j] && ws[i].Busy?
    ensures P.Count(ws, ws[i]) >= 2
  {
    P.CountUpdate(ws, i, P.Awake, ws[i]);
    P.CountZero(ws[i := P.Awake], ws[i]);
    assert ws[i := P.Awake][j] == ws[i];
  }

  /** Some worker other than `i` still owes the answer. */
  ghost predicate OwedByOther(w: Whole, i: nat, t: nat)
    requires Fits(w)
  {
    exists j :: 0 <= j < |w.stages| && j != i && w.stages[j].Owing? && w.pool.workers[j] == P.Busy(t)
  }

  /** No two workers hold the same ticket. */
  lemma TicketUnique(w: Whole, i: nat, t: nat)
    requires P.Inv(w.pool) && Fits(w) && i < |w.stages| && w.pool.workers[i] == P.Busy(t)
    ensures !OwedByOther(w, i, t)
  {
    if j :| 0 <= j < |w.stages| && j != i && w.stages[j].Owing? && w.pool.workers[j] == P.Busy(t) {
      CountTwo(w.pool.workers, i, j);
    }
  }

  lemma OwedSplits(w: Whole, i: nat, t: nat)
    requires Fits(w) && i < |w.stages|
    ensures Owed(w, t) <==> (w.stages[i].Owing? && w.pool.workers[i] == P.Busy(t)) || OwedByOther(w, i, t)
  {
  }

  /** A move of worker `i` does not change what others owe. */
  lemma OthersOwe(w: Whole, v: Whole, i: nat, t: nat)
    requires Fits(w) && Fits(v) && i < |w.stages| == |v.stages|
    requires forall j :: 0 <= j < |w.stages| && j != i ==>
               v.stages[j] == w.stages[j] && v.pool.workers[j] == w.pool.workers[j]
    ensures OwedByOther(v, i, t) <==> OwedByOther(w, i, t)
  {
  }

  /** The job a worker takes is the one with the next ticket. */
  lemma FrontJob(p: P.Pool)
    requires P.Inv(p) && p.queue != []
    ensures p.taken < |p.enqueued| && p.queue[0] == p.enqueued[p.taken]
  {
  }

  /** Working on a query neither ends it nor swaps it for another, nor sends anything. */
  lemma WorkKeepsQuery(setup: I.Setup, s: I.System, a: I.Action, k: nat)
    requires I.Enabled(setup, s, a) && !a.Receive? && !a.Send? && !a.Discard? && k < |s.threads|
    ensures var x, y := s.threads[k], I.Next(setup, s, a).threads[k];
            (y.Idle? <==> x.Idle?) && (!x.Idle? ==> y.q == x.q)
    ensures I.Next(setup, s, a).sent == s.sent
  {
  }

  /** Events of the queue leave busy workers and known jobs alone. */
  lemma QueueKeepsBusy(p: P.Pool, e: P.Event, t: nat)
    requires P.Inv(p) && P.Enabled(p, e) && !e.Finish? && (e.Check? ==> p.queue == [])
    ensures var q := P.Next(p, e);
            && q.taken == p.taken && |q.workers| == |p.workers|
            && (forall i :: 0 <= i < |p.workers| ==> (q.workers[i] == P.Busy(t) <==> p.workers[i] == P.Busy(t)))
            && (t < |p.enqueued| ==> (IsQuery(q, t) <==> IsQuery(p, t)))
  {
  }

  lemma QueuePairedAt(p: P.Pool, e: P.Event, stage: Stage, thread: I.Thread, k: nat)
    requires P.Inv(p) && P.Enabled(p, e) && !e.Finish? && (e.Check? ==> p.queue == []) && k < |p.workers|
    requires PairedAt(p, stage, p.workers[k], thread)
    ensures |P.Next(p, e).workers| == |p.workers| && PairedAt(P.Next(p, e), stage, P.Next(p, e).workers[k], thread)
  {
    if p.workers[k].Busy? {
      QueueKeepsBusy(p, e, p.workers[k].ticket);
      TicketTaken(p, k);
      assert stage.Owing? ==> P.Next(p, e).enqueued[p.workers[k].ticket] == p.enqueued[p.workers[k].ticket];
    }
  }

  lemma TakePairedAt(setup: I.Setup, w: Whole, i: nat, k: nat)
    requires P.Inv(w.pool) && Paired(w) && Enabled(setup, w, Take(i)) && Fits(Next(setup, w, Take(i))) && k < |w.stages|
    ensures var v := Next(setup, w, Take(i)); PairedAt(v.pool, v.stages[k], v.pool.workers[k], v.system.threads[k])
  {
    FrontJob(w.pool);
    assert PairedAt(w.pool, w.stages[k], w.pool.workers[k], w.system.threads[k]);
  }

  lemma NextPairedAt(setup: I.Setup, w: Whole, m: Move, k: nat)
    requires P.Inv(w.pool) && Paired(w) && Enabled(setup, w, m) && Fits(Next(setup, w, m)) && k < |w.stages|
    ensures var v := Next(setup, w, m); PairedAt(v.pool, v.stages[k], v.pool.workers[k], v.system.threads[k])
  {
    assert PairedAt(w.pool, w.stages[k], w.pool.workers[k], w.system.threads[k]);
    match m
    case Queue(e) => QueuePairedAt(w.pool, e, w.stages[k], w.system.threads[k], k);
    case Take(i) => TakePairedAt(setup, w, i, k);
    case Work(a) => WorkKeepsQuery(setup, w.system, a, k);
    case _ =>
  }

  lemma NextFits(setup: I.Setup, w: Whole, m: Move)
    requires Enabled(setup, w, m)
    ensures var v := Next(setup, w, m); Fits(v) && |v.stages| == |w.stages|
  {
  }

  lemma NextPaired(setup: I.Setup, w: Whole, m: Move)
    requires P.Inv(w.pool) && Paired(w) && Enabled(setup, w, m)
    ensures Paired(Next(setup, w, m))
  {
    NextFits(setup, w, m);
    forall k | 0 <= k < |w.stages|
      ensures var v := Next(setup, w, m); PairedAt(v.pool, v.stages[k], v.pool.workers[k], v.system.threads[k])
    {
      NextPairedAt(setup, w, m, k);
    }
  }

  lemma TakeAnswers(setup: I.Setup, w: Whole, i: nat, t: nat)
    requires Inv(setup, w) && Enabled(setup, w, Take(i)) && Fits(Next(setup, w, Take(i)))
    ensures AnsweredRight(Next(setup, w, Take(i)), t)
  {
    var v := Next(setup, w, Take(i));
    FrontJob(w.pool);
    OwedSplits(w, i, t);
    OwedSplits(v, i, t);
    OthersOwe(w, v, i, t);
    assert AnsweredRight(w, t);
    if t == w.pool.taken && OwedByOther(w, i, t) {
      var j :| 0 <= j < |w.stages| && j != i && w.stages[j].Owing? && w.pool.workers[j] == P.Busy(t);
      TicketTaken(w.pool, j);
    }
  }

  lemma AnswerAnswers(setup: I.Setup, w: Whole, i: nat, t: nat)
    requires Inv(setup, w) && Enabled(setup, w, Answer(i)) && Fits(Next(setup, w, Answer(i)))
    ensures AnsweredRight(Next(setup, w, Answer(i)), t)
  {
    var v := Next(setup, w, Answer(i));
    TicketTaken(w.pool, i);
    OwedSplits(w, i, t);
    OwedSplits(v, i, t);
    OthersOwe(w, v, i, t);
    AppendReply(w, i);
    assert AnsweredRight(w, t) && PairedAt(w.pool, w.stages[i], w.pool.workers[i], w.system.threads[i]);
    if w.pool.workers[i] == P.Busy(t) {
      TicketUnique(w, i, t);
    }
  }

  lemma DoneAnswers(setup: I.Setup, w: Whole, i: nat, t: nat)
    requires Inv(setup, w) && Enabled(setup, w, Done(i)) && Fits(Next(setup, w, Done(i)))
    ensures AnsweredRight(Next(setup, w, Done(i)), t)
  {
    var v := Next(setup, w, Done(i));
    OwedSplits(w, i, t);
    OwedSplits(v, i, t);
    OthersOwe(w, v, i, t);
    assert AnsweredRight(w, t);
  }

  lemma QueueAnswers(setup: I.Setup, w: Whole, e: P.Event, t: nat)
    requires Inv(setup, w) && Enabled(setup, w, Queue(e)) && Fits(Next(setup, w, Queue(e)))
    ensures AnsweredRight(Next(setup, w, Queue(e)), t)
  {
    var v := Next(setup, w, Queue(e));
    QueueKeepsBusy(w.pool, e, t);
    assert AnsweredRight(w, t);
    assert Owed(v, t) <==> Owed(w, t);
  }

  lemma NextAnsweredOnce(setup: I.Setup, w: Whole, m: Move)
    requires Inv(setup, w) && Enabled(setup, w, m) && Fits(Next(setup, w, m))
    ensures AnsweredOnce(Next(setup, w, m))
  {
    forall t: nat
      ensures AnsweredRight(Next(setup, w, m), t)
    {
      match m
      case Queue(e) => QueueAnswers(setup, w, e, t);
      case Take(i) => TakeAnswers(setup, w, i, t);
      case Answer(i) => AnswerAnswers(setup, w, i, t);
      case Done(i) => DoneAnswers(setup, w, i, t);
      case _ =>
        assert AnsweredRight(w, t);
    }
  }

  /** The reply to the query a worker owes is right for it. */
  lemma ReplyOwn(setup: I.Setup, w: Whole, i: nat)
    requires Inv(setup, w) && Enabled(setup, w, Answer(i))
    ensures OwnAnswer(setup, w.pool, V.PastOf(w.system), ReplyOf(w, i))
  {
    assert PairedAt(w.pool, w.stages[i], w.pool.workers[i], w.system.threads[i]);
    assert V.ThreadGenuine(setup, V.PastOf(w.system), I.BegunAt(w.system, i), w.system.threads[i]);
  }

  /** Answering adds one reply, and its message if there is one. */
  lemma AnswerAdds(setup: I.Setup, w: Whole, i: nat)
    requires Enabled(setup, w, Answer(i)) && w.system.sent == SentOf(w.replies)
    ensures var v := Next(setup, w, Answer(i));
            && v.system.sent == SentOf(v.replies) && v.replies == w.replies + [ReplyOf(w, i)]
            && v.pool == w.pool && V.PastOf(v.system) == V.PastOf(w.system)
  {
    AppendReply(w, i);
  }

  lemma OwnSnoc(setup: I.Setup, p: P.Pool, past: V.Past, replies: seq<Reply>, r: Reply)
    requires OwnAnswer(setup, p, past, r)
    requires forall k :: 0 <= k < |replies| ==> OwnAnswer(setup, p, past, replies[k])
    ensures var more := replies + [r]; forall k :: 0 <= k < |more| ==> OwnAnswer(setup, p, past, more[k])
  {
  }

  lemma AnswerOwn(setup: I.Setup, w: Whole, i: nat)
    requires Inv(setup, w) && Enabled(setup, w, Answer(i))
    ensures OwnAnswers(setup, Next(setup, w, Answer(i)))
  {
    AnswerAdds(setup, w, i);
    ReplyOwn(setup, w, i);
    OwnSnoc(setup, w.pool, V.PastOf(w.system), w.replies, ReplyOf(w, i));
  }

  /** Known jobs stay what they were. */
  lemma PoolKeepsOwn(setup: I.Setup, p: P.Pool, e: P.Event, past: V.Past, r: Reply)
    requires P.Enabled(p, e) && OwnAnswer(setup, p, past, r)
    ensures OwnAnswer(setup, P.Next(p, e), past, r)
  {
  }

  lemma PastKeepsOwn(setup: I.Setup, p: P.Pool, past: V.Past, past': V.Past, r: Reply)
    requires V.Continues(past, past') && OwnAnswer(setup, p, past, r)
    ensures OwnAnswer(setup, p, past', r)
  {
    V.GenuineGrows(setup, past, past', r.from, r.to, r.to, QueryIn(p.enqueued[r.ticket]), r.result);
  }

  lemma MoveContinues(setup: I.Setup, w: Whole, m: Move)
    requires Enabled(setup, w, m)
    ensures V.Continues(V.PastOf(w.system), V.PastOf(Next(setup, w, m).system))
  {
    if m.Work? {
      V.NextContinues(setup, w.system, m.a);
    }
  }

  lemma MoveKeepsOwn(setup: I.Setup, w: Whole, m: Move, r: Reply)
    requires Enabled(setup, w, m) && OwnAnswer(setup, w.pool, V.PastOf(w.system), r)
    ensures OwnAnswer(setup, Next(setup, w, m).pool, V.PastOf(Next(setup, w, m).system), r)
  {
    var past, past' := V.PastOf(w.system), V.PastOf(Next(setup, w, m).system);
    MoveContinues(setup, w, m);
    PastKeepsOwn(setup, w.pool, past, past', r);
    match m
    case Queue(e) => PoolKeepsOwn(setup, w.pool, e, past', r);
    case Take(i) => PoolKeepsOwn(setup, w.pool, P.Check(i), past', r);
    case Done(i) => PoolKeepsOwn(setup, w.pool, P.Finish(i), past', r);
    case _ =>
  }

  /** Only answering sends. */
  lemma NothingSent(setup: I.Setup, w: Whole, m: Move)
    requires Enabled(setup, w, m) && !m.Answer?
    ensures var v := Next(setup, w, m); v.system.sent == w.system.sent && v.replies == w.replies
  {
    if m.Work? && |w.system.threads| > 0 {
      WorkKeepsQuery(setup, w.system, m.a, 0);
    }
  }

  lemma NextOwnAnswers(setup: I.Setup, w: Whole, m: Move)
    requires Inv(setup, w) && Enabled(setup, w, m)
    ensures OwnAnswers(setup, Next(setup, w, m))
  {
    if m.Answer? {
      AnswerOwn(setup, w, m.i);
    } else {
      NothingSent(setup, w, m);
      forall k | 0 <= k < |w.replies|
        ensures OwnAnswer(setup, Next(setup, w, m).pool, V.PastOf(Next(setup, w, m).system), w.replies[k])
      {
        MoveKeepsOwn(setup, w, m, w.replies[k]);
      }
    }
  }

  lemma {:induction false} ReachableInv(setup: I.Setup, n: nat, moves: seq<Move>, w: Whole)
    requires Reaches(setup, n, moves, w)
    ensures Inv(setup, w) && |w.stages| == n
  {
    var events := PoolRuns(setup, n, moves, w);
    P.ReachableInv(n, events, w.pool);
    var actions := SystemRuns(setup, n, moves, w);
    V.AnswersAreGenuine(setup, actions, w.system);
    if moves == [] {
    } else {
      var before, m := moves[..|moves| - 1], moves[|moves| - 1];
      var v :| Reaches(setup, n, before, v) && Enabled(setup, v, m) && w == Next(setup, v, m);
      ReachableInv(setup, n, before, v);
      NextPaired(setup, v, m);
      NextAnsweredOnce(setup, v, m);
      NextOwnAnswers(setup, v, m);
    }
  }

  // ----- What the server does -----

  /** No worker on its way to the queue has a query in hand: Take is never held up. */
  lemma IdleAtQueue(setup: I.Setup, n: nat, moves: seq<Move>, w: Whole, i: nat)
    requires Reaches(setup, n, moves, w) && P.Is(w.pool, i, P.Awake)
    ensures i < |w.system.threads| && w.system.threads[i].Idle?
  {
    ReachableInv(setup, n, moves, w);
    assert PairedAt(w.pool, w.stages[i], w.pool.workers[i], w.system.threads[i]);
  }

  /** The jobs the pool has on record are those handed to Enqueue, in order. */
  lemma EnqueuedAreJobs(setup: I.Setup, n: nat, moves: seq<Move>, w: Whole)
    requires Reaches(setup, n, moves, w)
    ensures w.pool.enqueued == JobsOf(moves)
  {
    var events := PoolRuns(setup, n, moves, w);
    P.EnqueuedAreJobs(n, events, w.pool);
  }

  /** In every reachable state of the whole server, what was sent are replies to jobs handed to
      Enqueue, each a genuine result for the query in its own job, and no job is replied to twice. */
  lemma RepliesBelong(setup: I.Setup, n: nat, moves: seq<Move>, w: Whole)
    requires Reaches(setup, n, moves, w)
    ensures w.pool.enqueued == JobsOf(moves) && OwnAnswers(setup, w)
    ensures forall t: nat :: RepliesFor(w.replies, t) <= 1
  {
    ReachableInv(setup, n, moves, w);
    EnqueuedAreJobs(setup, n, moves, w);
    forall t: nat
      ensures RepliesFor(w.replies, t) <= 1
    {
      assert AnsweredRight(w, t);
    }
  }

  /** When StopWorkers has returned from a server with a worker, every query ever handed to Enqueue was
      replied to exactly once, and nothing else was. */
  lemma StopAnswersAll(setup: I.Setup, n: nat, moves: seq<Move>, w: Whole)
    requires n > 0 && Reaches(setup, n, moves, w) && w.pool.phase.Stopped?
    ensures var jobs := JobsOf(moves);
            forall t: nat :: RepliesFor(w.replies, t) == if t < |jobs| && QuestionOf(jobs[t]).Some? then 1 else 0
  {
    ReachableInv(setup, n, moves, w);
    EnqueuedAreJobs(setup, n, moves, w);
    var events := PoolRuns(setup, n, moves, w);
    P.StopHandlesAll(n, events, w.pool);
    forall t: nat
      ensures RepliesFor(w.replies, t) == if IsQuery(w.pool, t) then 1 else 0
    {
      assert AnsweredRight(w, t);
    }
  }

  /** The guarantees on what is sent and cached hold of the whole server. */
  lemma WholeIsSafe(setup: I.Setup, n: nat, moves: seq<Move>, w: Whole)
    requires Reaches(setup, n, moves, w)
    ensures I.Fresh(setup, w.system) && (setup.rebind ==> I.Safe(setup, w.system))
  {
    var actions := SystemRuns(setup, n, moves, w);
    I.CachedAnswersAreFresh(setup, actions, w.system);
    if setup.rebind {
      I.NothingPrivateLeaves(setup, actions, w.system);
    }
  }

  // ----- Progress -----

  /** A move of a worker, on its own or with the queue. */
  ghost predicate ByWorker(m: Move)
  {
    match m
    case Queue(e) => e.Check?
    case Work(a) => !a.SetDomains?
    case _ => true
  }

  /** Whatever a busy worker is at, it has a next step. */
  lemma BusyCanMove(setup: I.Setup, w: Whole, i: nat) returns (m: Move)
    requires Paired(w) && i < |w.stages| && w.pool.workers[i].Busy?
    ensures Enabled(setup, w, m) && ByWorker(m)
  {
    assert PairedAt(w.pool, w.stages[i], w.pool.workers[i], w.system.threads[i]);
    var now := w.system.clock;
    match w.system.threads[i]
    case Idle => m := Done(i);
    case Deciding(_) => m := Work(I.Decide(i));
    case Looking(_) => m := Work(I.Look(i, now));
    case Missed(_) => m := Work(I.Fetch(i, Upstream(None, None, [])));
    case Fetched(_, _) => m := Work(I.Store(i, now, now));
    case Answered(_, _, _, _) => m := if w.stages[i].Owing? then Answer(i) else Logged(i);
  }

  /** While there are jobs, or workers left to stop, some worker can move. */
  lemma SomeWorkerCanMove(setup: I.Setup, w: Whole) returns (m: Move)
    requires Inv(setup, w) && P.Pending(w.pool)
    ensures Enabled(setup, w, m) && ByWorker(m)
  {
    var e := P.SomeWorkerCanMove(w.pool);
    var i := e.worker;
    if w.pool.workers[i].Busy? {
      m := BusyCanMove(setup, w, i);
    } else {
      assert PairedAt(w.pool, w.stages[i], w.pool.workers[i], w.system.threads[i]);
      m := if w.pool.queue == [] then Queue(P.Check(i)) else Take(i);
    }
  }

  /** The world outside is free: at any time while serving any packet may be enqueued, and the block list
      replaced by any other; the cache may be used at any later time, and upstream may say anything. */
  lemma WorldIsFree(setup: I.Setup, w: Whole, i: nat, job: P.Job, domains: set<Bytes>, now: int, later: int,
                    up: Upstream)
    returns (woken: Option<nat>)
    requires Fits(w) && i < |w.stages| && w.pool.workers[i] != P.Exited && w.system.clock <= now <= later
    ensures w.pool.phase.Serving? ==> Enabled(setup, w, Queue(P.Enqueue(job, woken)))
    ensures Enabled(setup, w, Work(I.SetDomains(domains)))
    ensures w.system.threads[i].Looking? ==> Enabled(setup, w, Work(I.Look(i, now)))
    ensures w.system.threads[i].Missed? ==> Enabled(setup, w, Work(I.Fetch(i, up)))
    ensures w.system.threads[i].Fetched? ==> Enabled(setup, w, Work(I.Store(i, now, later)))
  {
    var own;
    woken, own := P.NobodyHeldUp(w.pool, job, i);
  }

  /** After the broadcast of StopWorkers and until it returns, a worker can move or all have left
      and can be joined. */
  lemma StopNeverStuck(setup: I.Setup, n: nat, moves: seq<Move>, w: Whole) returns (m: Move)
    requires Reaches(setup, n, moves, w) && w.pool.phase.Stopping?
    ensures Enabled(setup, w, m) && (ByWorker(m) || m == Queue(P.Joined))
  {
    ReachableInv(setup, n, moves, w);
    if i :| 0 <= i < |w.pool.workers| && w.pool.workers[i] != P.Exited {
      assert w.pool.workers[i] in w.pool.workers;
      m := SomeWorkerCanMove(setup, w);
    } else {
      m := Queue(P.Joined);
    }
  }

  /** Steps left in the query a thread has in hand. */
  function ThreadLeft(x: I.Thread): nat
  {
    match x
    case Idle => 0
    case Deciding(_) => 5
    case Looking(_) => 4
    case Missed(_) => 3
    case Fetched(_, _) => 2
    case Answered(_, _, _, _) => 1
  }

  /** Steps left until a worker has left: those of its query, the lookup of a name, being done with
      the job, and leaving. */
  function WorkerLeft(worker: P.Worker, stage: Stage, x: I.Thread): nat
  {
    match worker
    case Exited => 0
    case Busy(_) => 2 + (if stage.Over? then 0 else 6) + ThreadLeft(x)
    case _ => 1
  }

  ghost function LeftAt(w: Whole, i: nat): nat
    requires Fits(w) && i < |w.stages|
  {
    WorkerLeft(w.pool.workers[i], w.stages[i], w.system.threads[i])
  }

  ghost function Sum(w: Whole, k: nat): nat
    requires Fits(w) && k <= |w.stages|
  {
    if k == 0 then 0 else Sum(w, k - 1) + LeftAt(w, k - 1)
  }

  /** What is left to do once stopping: thirteen steps for a queued job, those of the workers, and
      the join. */
  ghost function Left(w: Whole): nat
    requires Fits(w)
  {
    13 * |w.pool.queue| + Sum(w, |w.stages|) + (if w.pool.phase.Stopping? then 1 else 0)
  }

  /** Workers other than `i` are as they were. */
  ghost predicate OnlyAt(w: Whole, v: Whole, i: nat)
    requires Fits(w) && Fits(v)
  {
    |w.stages| == |v.stages| && forall j :: 0 <= j < |w.stages| && j != i ==> LeftAt(v, j) == LeftAt(w, j)
  }

  lemma {:induction false} SumChange(w: Whole, v: Whole, i: nat, k: nat)
    requires Fits(w) && Fits(v) && OnlyAt(w, v, i) && k <= |w.stages| && i < |w.stages|
    ensures if i < k then Sum(v, k) + LeftAt(w, i) == Sum(w, k) + LeftAt(v, i) else Sum(v, k) == Sum(w, k)
  {
    if k == 0 {
    } else {
      SumChange(w, v, i, k - 1);
    }
  }

  lemma SumSame(w: Whole, v: Whole, k: nat)
    requires Fits(w) && Fits(v) && k <= |w.stages| == |v.stages|
    requires forall j :: 0 <= j < |w.stages| ==> LeftAt(v, j) == LeftAt(w, j)
    ensures Sum(v, k) == Sum(w, k)
  {
    if k == 0 {
    } else {
      SumSame(w, v, k - 1);
    }
  }

  /** The worker whose move it is. */
  function Mover(m: Move): nat
  {
    match m
    case Queue(e) => if e.Check? then e.worker else 0
    case Work(a) => if a.SetDomains? then 0 else a.t
    case Take(i) => i
    case Answer(i) => i
    case Lookup(i, _) => i
    case Logged(i) => i
    case Done(i) => i
  }

  /** The move of worker `i` from `w` to `v` uses something up and concerns no other worker. */
  ghost predicate Shrinks(w: Whole, v: Whole, i: nat)
    requires Fits(w) && Fits(v)
  {
    && i < |w.stages| && OnlyAt(w, v, i)
    && 13 * |v.pool.queue| + LeftAt(v, i) < 13 * |w.pool.queue| + LeftAt(w, i)
    && v.pool.phase == w.pool.phase && !v.pool.running
  }

  lemma CheckShrinks(setup: I.Setup, w: Whole, i: nat)
    requires Paired(w) && !w.pool.running && Enabled(setup, w, Queue(P.Check(i)))
    ensures var v := Next(setup, w, Queue(P.Check(i))); Fits(v) && Shrinks(w, v, i)
  {
  }

  lemma TakeShrinks(setup: I.Setup, w: Whole, i: nat)
    requires Paired(w) && !w.pool.running && Enabled(setup, w, Take(i))
    ensures var v := Next(setup, w, Take(i)); Fits(v) && Shrinks(w, v, i)
  {
  }

  lemma WorkKeepsOthers(setup: I.Setup, s: I.System, a: I.Action)
    requires I.Enabled(setup, s, a) && !a.SetDomains?
    ensures var s' := I.Next(setup, s, a);
            a.t < |s.threads| == |s'.threads| &&
            forall j :: 0 <= j < |s.threads| && j != a.t ==> s'.threads[j] == s.threads[j]
  {
  }

  /** A step of a query brings it nearer to its end. */
  lemma WorkAdvances(setup: I.Setup, s: I.System, a: I.Action)
    requires I.Enabled(setup, s, a) && !a.Receive? && !a.Send? && !a.Discard? && !a.SetDomains?
    ensures var s' := I.Next(setup, s, a);
            && a.t < |s.threads| == |s'.threads|
            && ThreadLeft(s'.threads[a.t]) < ThreadLeft(s.threads[a.t])
            && forall j :: 0 <= j < |s.threads| && j != a.t ==> s'.threads[j] == s.threads[j]
  {
    WorkKeepsOthers(setup, s, a);
    var x := I.Next(setup, s, a).threads[a.t];
    match a
    case Decide(_) => assert x.Answered? || x.Looking?;
    case Look(_, _) => assert x.Answered? || x.Missed?;
    case Fetch(_, _) => assert x.Fetched?;
    case Store(_, _, _) => assert x.Answered?;
  }

  lemma WorkShrinks(setup: I.Setup, w: Whole, a: I.Action)
    requires Paired(w) && !w.pool.running && Enabled(setup, w, Work(a)) && !a.SetDomains?
    ensures var v := Next(setup, w, Work(a)); Fits(v) && Shrinks(w, v, a.t)
  {
    WorkAdvances(setup, w.system, a);
    assert PairedAt(w.pool, w.stages[a.t], w.pool.workers[a.t], w.system.threads[a.t]);
  }

  lemma AnswerShrinks(setup: I.Setup, w: Whole, i: nat)
    requires Paired(w) && !w.pool.running && Enabled(setup, w, Answer(i))
    ensures var v := Next(setup, w, Answer(i)); Fits(v) && Shrinks(w, v, i)
  {
  }

  lemma LookupShrinks(setup: I.Setup, w: Whole, i: nat, packet: Bytes)
    requires Paired(w) && !w.pool.running && Enabled(setup, w, Lookup(i, packet))
    ensures var v := Next(setup, w, Lookup(i, packet)); Fits(v) && Shrinks(w, v, i)
  {
  }

  lemma LoggedShrinks(setup: I.Setup, w: Whole, i: nat)
    requires Paired(w) && !w.pool.running && Enabled(setup, w, Logged(i))
    ensures var v := Next(setup, w, Logged(i)); Fits(v) && Shrinks(w, v, i)
  {
    assert PairedAt(w.pool, w.stages[i], w.pool.workers[i], w.system.threads[i]);
  }

  lemma DoneShrinks(setup: I.Setup, w: Whole, i: nat)
    requires Paired(w) && !w.pool.running && Enabled(setup, w, Done(i))
    ensures var v := Next(setup, w, Done(i)); Fits(v) && Shrinks(w, v, i)
  {
  }

  lemma MoverShrinks(setup: I.Setup, w: Whole, m: Move)
    requires Paired(w) && !w.pool.running && Enabled(setup, w, m) && ByWorker(m)
    ensures var v := Next(setup, w, m); Fits(v) && Shrinks(w, v, Mover(m))
  {
    match m
    case Queue(e) => CheckShrinks(setup, w, e.worker);
    case Take(i) => TakeShrinks(setup, w, i);
    case Work(a) => WorkShrinks(setup, w, a);
    case Answer(i) => AnswerShrinks(setup, w, i);
    case Lookup(i, packet) => LookupShrinks(setup, w, i, packet);
    case Logged(i) => LoggedShrinks(setup, w, i);
    case Done(i) => DoneShrinks(setup, w, i);
  }

  /** A replacement of the block list, which is nobody's progress. */
  ghost predicate IsUpdate(m: Move)
  {
    m.Work? && m.a.SetDomains?
  }

  lemma JoinedShrinks(setup: I.Setup, w: Whole)
    requires Enabled(setup, w, Queue(P.Joined)) && !w.pool.running && Fits(Next(setup, w, Queue(P.Joined)))
    ensures var v := Next(setup, w, Queue(P.Joined)); Left(v) < Left(w) && !v.pool.running
  {
    SumSame(w, Next(setup, w, Queue(P.Joined)), |w.stages|);
  }

  lemma UpdateKeepsLeft(setup: I.Setup, w: Whole, m: Move)
    requires Enabled(setup, w, m) && IsUpdate(m)
    ensures var v := Next(setup, w, m); Fits(v) && Left(v) == Left(w) && v.pool == w.pool
  {
    SumSame(w, Next(setup, w, m), |w.stages|);
  }

  /** Once stopping, every move but a replacement of the block list uses up some of what is left. */
  lemma StoppingShrinks(setup: I.Setup, w: Whole, m: Move)
    requires P.Inv(w.pool) && Paired(w) && !w.pool.running && Enabled(setup, w, m) && !IsUpdate(m)
    requires Fits(Next(setup, w, m))
    ensures var v := Next(setup, w, m); Left(v) < Left(w) && !v.pool.running
  {
    if ByWorker(m) {
      MoverShrinks(setup, w, m);
      SumChange(w, Next(setup, w, m), Mover(m), |w.stages|);
    } else {
      assert m == Queue(P.Joined);
      JoinedShrinks(setup, w);
    }
  }

  /** The moves take the server from `w` to `v`. */
  ghost predicate Leads(setup: I.Setup, w: Whole, moves: seq<Move>, v: Whole)
    decreases |moves|
  {
    if moves == [] then w == v
    else Enabled(setup, w, moves[0]) && Leads(setup, Next(setup, w, moves[0]), moves[1..], v)
  }

  /** How many of the moves are more than replacements of the block list. */
  ghost function Steps(moves: seq<Move>): nat
  {
    if moves == [] then 0 else (if IsUpdate(moves[0]) then 0 else 1) + Steps(moves[1..])
  }

  lemma PoolInvStays(setup: I.Setup, w: Whole, m: Move)
    requires P.Inv(w.pool) && Enabled(setup, w, m)
    ensures P.Inv(Next(setup, w, m).pool)
  {
    match m
    case Queue(e) => P.NextInv(w.pool, e);
    case Take(i) => P.NextInv(w.pool, P.Check(i));
    case Done(i) => P.NextInv(w.pool, P.Finish(i));
    case _ =>
  }

  lemma {:induction false} StopIsBounded(setup: I.Setup, w: Whole, moves: seq<Move>, v: Whole)
    requires P.Inv(w.pool) && Paired(w) && !w.pool.running && Leads(setup, w, moves, v)
    ensures Steps(moves) <= Left(w)
    decreases |moves|
  {
    if moves == [] {
    } else {
      var m := moves[0];
      var w' := Next(setup, w, m);
      NextPaired(setup, w, m);
      PoolInvStays(setup, w, m);
      if IsUpdate(m) {
        UpdateKeepsLeft(setup, w, m);
      } else {
        StoppingShrinks(setup, w, m);
      }
      StopIsBounded(setup, w', moves[1..], v);
    }
  }

  /** However threads are scheduled, and whatever clients sent, after the broadcast only so many
      moves are possible besides replacements of the block list: with StopNeverStuck, StopWorkers
      returns as soon as the scheduler lets the workers run. */
  lemma StopReturns(setup: I.Setup, n: nat, past: seq<Move>, w: Whole, moves: seq<Move>, v: Whole)
    requires Reaches(setup, n, past, w) && !w.pool.running && Leads(setup, w, moves, v)
    ensures Steps(moves) <= Left(w)
  {
    ReachableInv(setup, n, past, w);
    StopIsBounded(setup, w, moves, v);
  }
}
