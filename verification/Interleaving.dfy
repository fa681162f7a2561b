/** All interleavings of the worker threads: each query goes through the block list and local
    records, the cache, the upstream and the cache again in separate atomic steps, while the
    block list may be replaced at any moment and the upstream answers anything. */
module Interleaving {
  import opened Bytes
  import opened Message
  import opened Rebind
  import opened Cache
  import opened CacheLaws
  import opened Keys
  import opened Text
  import opened Resolver
  import BL = Blocklist
  import LR = LocalRecords

  datatype Query = Query(header: Header, question: Question)

  function KeyOf(q: Query): Bytes
  {
    Key(q.question.qname, q.question.qtype)
  }

  /** Where a worker is in HandleQuery. For a cache hit, `time` is when it happened and `seen` how
      many cache operations preceded it. */
  datatype Thread =
    | Idle
    | Deciding(q: Query)
    | Looking(q: Query)
    | Missed(q: Query)
    | Fetched(q: Query, response: Bytes)
    | Answered(q: Query, result: Result, time: int, seen: nat)

  /** The two critical sections on the cache mutex. */
  datatype CacheEvent =
    | Looked(q: Query, now: int)
    | Stored(q: Query, response: Bytes, now: int, later: int)

  /** A question put to the upstream servers, and what they had to say. */
  datatype Asked = Asked(q: Query, up: Upstream)

  /** A place in the history: how many sets had been in use, how many times upstream had been asked,
      and how many critical sections there had been. */
  datatype Mark = Mark(lists: nat, asked: nat, events: nat)

  /** A message, with the places in the history where its query was received and answered. */
  datatype Sent = Sent(q: Query, source: Source, bytes: Bytes, time: int, seen: nat, from: Mark, to: Mark)

  /** What does not change while the server runs. */
  datatype Setup = Setup(rebind: bool, records: seq<LR.LocalRecord>, lib: Library, maxBytes: nat, ttl: nat)

  /** `domains` is the set in use; `lists`, `asked` and `events` are the history of sets in use, of
      questions upstream and of critical sections, and `begun` is where each worker's query began. */
  datatype System = System(
    domains: set<Bytes>, clock: int, events: seq<CacheEvent>, threads: seq<Thread>, sent: seq<Sent>,
    lists: seq<set<Bytes>>, asked: seq<Asked>, begun: map<nat, Mark>)

  function Here(s: System): Mark
  {
    Mark(|s.lists|, |s.asked|, |s.events|)
  }

  function BegunAt(s: System, t: nat): Mark
  {
    if t in s.begun then s.begun[t] else Mark(0, 0, 0)
  }

  datatype Action =
    | SetDomains(domains: set<Bytes>)
    | Receive(t: nat, packet: Bytes)
    | Decide(t: nat)
    | Look(t: nat, now: int)
    | Fetch(t: nat, up: Upstream)
    | Store(t: nat, now: int, later: int)
    | Send(t: nat)
    | Discard(t: nat)

  // ----- The cache as its history -----

  function OpOf(e: CacheEvent): Op
  {
    match e
    case Looked(q, now) => Op.Get(KeyOf(q), now)
    case Stored(q, response, now, later) => Op.Put(KeyOf(q), response, now, later)
  }

  function Ops(events: seq<CacheEvent>): (ops: seq<Op>)
    ensures |ops| == |events|
    ensures forall i :: 0 <= i < |events| ==> ops[i] == OpOf(events[i])
  {
    if events == [] then [] else Ops(events[..|events| - 1]) + [OpOf(events[|events| - 1])]
  }

  function Empty(setup: Setup): State
  {
    State([], setup.maxBytes, setup.ttl)
  }

  /** The cache contents after a history of critical sections. */
  function CacheAfter(setup: Setup, events: seq<CacheEvent>): State
  {
    Run(Empty(setup), Ops(events))
  }

  // ----- Steps -----

  ghost predicate Enabled(setup: Setup, s: System, a: Action)
  {
    match a
    case SetDomains(_) => true
    case Receive(t, packet) => t < |s.threads| && s.threads[t].Idle? && QuestionOf(packet).Some?
    case Decide(t) => t < |s.threads| && s.threads[t].Deciding?
    case Look(t, now) => t < |s.threads| && s.threads[t].Looking? && s.clock <= now
    case Fetch(t, _) => t < |s.threads| && s.threads[t].Missed?
    case Store(t, now, later) => t < |s.threads| && s.threads[t].Fetched? && s.clock <= now <= later
    case Send(t) => t < |s.threads| && s.threads[t].Answered?
    case Discard(t) => t < |s.threads| && s.threads[t].Answered?
  }

  /** The block list and the local records. */
  ghost function Decided(setup: Setup, s: System, q: Query): (x: Thread)
    ensures x.Answered? || x.Looking?
  {
    var rec := LR.LastAnswering(setup.records, q.question.qname, q.question.qtype);
    if BL.Blocked(s.domains, q.question.qname) then
      Answered(q, Result(FromBlocklist, BlockAnswer(q.header, q.question)), s.clock, 0)
    else if rec.Some? then
      Answered(q, Result(FromLocal, LocalAnswer(setup.lib, q.header, q.question, rec.value.value)), s.clock, 0)
    else Looking(q)
  }

  function LookedUp(setup: Setup, s: System, q: Query, now: int): (x: Thread)
    ensures x.Answered? || x.Missed?
  {
    match Hit(CacheAfter(setup, s.events), KeyOf(q), now)
    case Some(response) => Answered(q, Result(FromCache, response), now, |s.events|)
    case None => Missed(q)
  }

  /** What an answered query sends, if anything. */
  function Departing(x: Thread, from: Mark, to: Mark): Option<Sent>
    requires x.Answered?
  {
    var out := Outgoing(x.result, x.q.header.id);
    if out.None? then None else Some(Sent(x.q, x.result.source, out.value, x.time, x.seen, from, to))
  }

  /** Sending, or for the server's own PTR lookup reading, ends a query. */
  ghost function Next(setup: Setup, s: System, a: Action): System
    requires Enabled(setup, s, a)
  {
    match a
    case SetDomains(domains) => s.(domains := domains, lists := s.lists + [domains])
    case Receive(t, packet) =>
      s.(threads := s.threads[t := Deciding(Query(HeaderOf(packet), QuestionOf(packet).value))],
         begun := s.begun[t := Here(s)])
    case Decide(t) => s.(threads := s.threads[t := Decided(setup, s, s.threads[t].q)])
    case Look(t, now) =>
      var q := s.threads[t].q;
      s.(clock := now, threads := s.threads[t := LookedUp(setup, s, q, now)], events := s.events + [Looked(q, now)])
    case Fetch(t, up) =>
      var q := s.threads[t].q;
      s.(threads := s.threads[t := Fetched(q, UpstreamAnswer(q.header, q.question, setup.rebind, up.dot, up.udp))],
         asked := s.asked + [Asked(q, up)])
    case Store(t, now, later) =>
      var f := s.threads[t];
      s.(clock := later,
         threads := s.threads[t := Answered(f.q, Result(FromUpstream, f.response), later, 0)],
         events := if f.response == [] then s.events else s.events + [Stored(f.q, f.response, now, later)])
    case Send(t) =>
      var m := Departing(s.threads[t], BegunAt(s, t), Here(s));
      s.(threads := s.threads[t := Idle], sent := if m.None? then s.sent else s.sent + [m.value])
    case Discard(t) => s.(threads := s.threads[t := Idle])
  }

  ghost predicate Initial(s: System)
  {
    && s.events == [] && s.sent == [] && s.lists == [s.domains] && s.asked == []
    && forall t :: 0 <= t < |s.threads| ==> s.threads[t].Idle?
  }

  /** `s` ends a run from an initial system. */
  ghost predicate Reaches(setup: Setup, actions: seq<Action>, s: System)
  {
    if actions == [] then Initial(s)
    else
      var before, a := actions[..|actions| - 1], actions[|actions| - 1];
      exists r :: Reaches(setup, before, r) && Enabled(setup, r, a) && s == Next(setup, r, a)
  }

  /** A lookup whose steps nobody interrupts. */
  ghost function LookAlone(setup: Setup, s: System, t: nat, up: Upstream, clock: Clock): System
    requires t < |s.threads| && s.threads[t].Looking? && s.clock <= clock.got <= clock.put <= clock.stamped
  {
    var looked := Next(setup, s, Look(t, clock.got));
    if !looked.threads[t].Missed? then looked
    else Next(setup, Next(setup, looked, Fetch(t, up)), Store(t, clock.put, clock.stamped))
  }

  /** A query whose steps nobody interrupts. */
  ghost function Alone(setup: Setup, s: System, t: nat, up: Upstream, clock: Clock): System
    requires t < |s.threads| && s.threads[t].Deciding? && s.clock <= clock.got <= clock.put <= clock.stamped
  {
    var decided := Next(setup, s, Decide(t));
    if !decided.threads[t].Looking? then decided else LookAlone(setup, decided, t, up, clock)
  }

  /** The worker has answered with this outcome. */
  ghost predicate Ends(setup: Setup, s: System, t: nat, o: Outcome)
  {
    t < |s.threads| && s.threads[t].Answered? && s.threads[t].result == o.result &&
    CacheAfter(setup, s.events) == o.cache
  }

  lemma OpsAppend(events: seq<CacheEvent>, e: CacheEvent)
    ensures Ops(events + [e]) == Ops(events) + [OpOf(e)]
  {
    assert (events + [e])[..|events|] == events;
  }

  /** One more critical section. */
  lemma CacheAfterAppend(setup: Setup, events: seq<CacheEvent>, e: CacheEvent)
    ensures CacheAfter(setup, events + [e]) == Step(CacheAfter(setup, events), OpOf(e))
  {
    OpsAppend(events, e);
    RunAppend(Empty(setup), Ops(events), OpOf(e));
  }

  /** A worker that missed: fetching and storing add the upstream answer to the cache. */
  lemma FetchAloneEnds(setup: Setup, s: System, t: nat, up: Upstream, put: int, stamped: int)
    requires t < |s.threads| && s.threads[t].Missed? && s.clock <= put <= stamped
    ensures var q, c := s.threads[t].q, CacheAfter(setup, s.events);
            var response := UpstreamAnswer(q.header, q.question, setup.rebind, up.dot, up.udp);
            var s' := Next(setup, Next(setup, s, Fetch(t, up)), Store(t, put, stamped));
            Ends(setup, s', t, Outcome(Result(FromUpstream, response),
                                       if response == [] then c else PutStep(c, KeyOf(q), response, put, stamped)))
  {
    var q := s.threads[t].q;
    var response := UpstreamAnswer(q.header, q.question, setup.rebind, up.dot, up.udp);
    CacheAfterAppend(setup, s.events, Stored(q, response, put, stamped));
  }

  lemma LookAloneEnds(setup: Setup, s: System, t: nat, up: Upstream, clock: Clock)
    requires t < |s.threads| && s.threads[t].Looking? && s.clock <= clock.got <= clock.put <= clock.stamped
    ensures var q := s.threads[t].q;
            var o := CacheOrUpstream(CacheAfter(setup, s.events), setup.rebind, q.header, q.question, up, clock);
            Ends(setup, LookAlone(setup, s, t, up, clock), t, o)
  {
    var looked := Next(setup, s, Look(t, clock.got));
    CacheAfterAppend(setup, s.events, Looked(s.threads[t].q, clock.got));
    if looked.threads[t].Missed? {
      FetchAloneEnds(setup, looked, t, up, clock.put, clock.stamped);
    }
  }

  /** The steps of one worker alone compute the sequential ResolveQuery: same result, same cache. */
  lemma AloneIsResolution(setup: Setup, s: System, t: nat, up: Upstream, clock: Clock)
    requires t < |s.threads| && s.threads[t].Deciding? && s.clock <= clock.got <= clock.put <= clock.stamped
    ensures var q := s.threads[t].q;
            var o := Resolution(s.domains, setup.records, CacheAfter(setup, s.events), setup.rebind, setup.lib,
                                q.header, q.question, up, clock);
            Ends(setup, Alone(setup, s, t, up, clock), t, o)
  {
    var decided := Next(setup, s, Decide(t));
    if decided.threads[t].Looking? {
      LookAloneEnds(setup, decided, t, up, clock);
    }
  }

  // ----- Rebind protection over every run -----

  /** Responses from outside are shielded wherever they are. */
  ghost predicate ThreadSafe(x: Thread)
  {
    && (x.Fetched? && x.response != [] ==> Shielded(x.response))
    && (x.Answered? && (x.result.source.FromCache? || x.result.source.FromUpstream?) && x.result.response != [] ==>
          Shielded(x.result.response))
  }

  ghost predicate CacheSafe(c: State)
  {
    forall x :: x in c.items ==> Shielded(x.response)
  }

  ghost predicate SentSafe(m: Sent)
  {
    m.source.FromCache? || m.source.FromUpstream? ==> Harmless(m.bytes)
  }

  ghost predicate Safe(setup: Setup, s: System)
  {
    && CacheSafe(CacheAfter(setup, s.events))
    && (forall t :: 0 <= t < |s.threads| ==> ThreadSafe(s.threads[t]))
    && (forall i :: 0 <= i < |s.sent| ==> SentSafe(s.sent[i]))
  }

  lemma LookSafe(setup: Setup, events: seq<CacheEvent>, q: Query, now: int)
    requires CacheSafe(CacheAfter(setup, events))
    ensures CacheSafe(CacheAfter(setup, events + [Looked(q, now)]))
    ensures var hit := Hit(CacheAfter(setup, events), KeyOf(q), now); hit.Some? ==> Shielded(hit.value)
  {
    var c := CacheAfter(setup, events);
    CacheAfterAppend(setup, events, Looked(q, now));
    forall x | x in GetStep(c, KeyOf(q), now).items
      ensures Shielded(x.response)
    {
      GetMembers(c, KeyOf(q), now, x);
    }
    var found := Lookup(Keep(c.items, now, None), KeyOf(q));
    if found.Some? {
      KeepMembers(c.items, now, None, found.value);
    }
  }

  lemma StoreSafe(setup: Setup, events: seq<CacheEvent>, q: Query, response: Bytes, now: int, later: int)
    requires CacheSafe(CacheAfter(setup, events)) && Shielded(response)
    ensures CacheSafe(CacheAfter(setup, events + [Stored(q, response, now, later)]))
  {
    var c := CacheAfter(setup, events);
    CacheAfterAppend(setup, events, Stored(q, response, now, later));
    forall x | x in PutStep(c, KeyOf(q), response, now, later).items
      ensures Shielded(x.response)
    {
      PutMembers(c, KeyOf(q), response, now, later, x);
    }
  }

  lemma SendSafe(x: Thread, from: Mark, to: Mark)
    requires ThreadSafe(x) && x.Answered?
    ensures Departing(x, from, to).Some? ==> SentSafe(Departing(x, from, to).value)
  {
    if x.result.response != [] && (x.result.source.FromCache? || x.result.source.FromUpstream?) {
      PatchedHarmless(x.result.response, x.q.header.id);
    }
  }

  lemma NextCacheSafe(setup: Setup, s: System, a: Action)
    requires Safe(setup, s) && Enabled(setup, s, a)
    ensures CacheSafe(CacheAfter(setup, Next(setup, s, a).events))
  {
    match a
    case Look(t, now) => LookSafe(setup, s.events, s.threads[t].q, now);
    case Store(t, now, later) =>
      var f := s.threads[t];
      if f.response != [] {
        StoreSafe(setup, s.events, f.q, f.response, now, later);
      }
    case _ =>
  }

  lemma DecidedSafe(setup: Setup, s: System, q: Query)
    ensures ThreadSafe(Decided(setup, s, q))
  {
  }

  lemma LookedUpSafe(setup: Setup, s: System, q: Query, now: int)
    requires CacheSafe(CacheAfter(setup, s.events))
    ensures ThreadSafe(LookedUp(setup, s, q, now))
  {
    LookSafe(setup, s.events, q, now);
  }

  lemma FetchedSafe(q: Query, up: Upstream)
    ensures ThreadSafe(Fetched(q, UpstreamAnswer(q.header, q.question, true, up.dot, up.udp)))
  {
    UpstreamShielded(q.header, q.question, up.dot, up.udp);
  }

  lemma NextThreadSafe(setup: Setup, s: System, a: Action, t: nat)
    requires setup.rebind && Safe(setup, s) && Enabled(setup, s, a) && t < |s.threads|
    ensures ThreadSafe(Next(setup, s, a).threads[t])
  {
    assert ThreadSafe(s.threads[t]);
    if !a.SetDomains? && a.t == t {
      match a
      case Decide(i) => DecidedSafe(setup, s, s.threads[i].q);
      case Look(i, now) => LookedUpSafe(setup, s, s.threads[i].q, now);
      case Fetch(i, up) => FetchedSafe(s.threads[i].q, up);
      case _ =>
    }
  }

  lemma NextSafe(setup: Setup, s: System, a: Action)
    requires setup.rebind && Safe(setup, s) && Enabled(setup, s, a)
    ensures Safe(setup, Next(setup, s, a))
  {
    NextCacheSafe(setup, s, a);
    forall t | 0 <= t < |s.threads|
      ensures ThreadSafe(Next(setup, s, a).threads[t])
    {
      NextThreadSafe(setup, s, a, t);
    }
    if a.Send? {
      SendSafe(s.threads[a.t], BegunAt(s, a.t), Here(s));
    }
  }

  /** With rebind protection on, in every reachable state of every interleaving: whatever is in
      the cache is shielded, and whatever was sent from the cache or from upstream, identifiers
      patched, shows no private A record to any walk of it. */
  lemma {:induction false} NothingPrivateLeaves(setup: Setup, actions: seq<Action>, s: System)
    requires setup.rebind && Reaches(setup, actions, s)
    ensures Safe(setup, s)
  {
    if actions == [] {
      assert Ops([]) == [];
    } else {
      var before, a := actions[..|actions| - 1], actions[|actions| - 1];
      var r :| Reaches(setup, before, r) && Enabled(setup, r, a) && s == Next(setup, r, a);
      NothingPrivateLeaves(setup, before, r);
      NextSafe(setup, r, a);
    }
  }

  // ----- Cache soundness over every run -----

  /** Same name up to case and one trailing dot, same type. */
  predicate SameQuestion(a: Query, b: Query)
  {
    Canon(a.question.qname) == Canon(b.question.qname) && a.question.qtype == b.question.qtype
  }

  /** The latest response stored for the same question. */
  function LatestStored(events: seq<CacheEvent>, q: Query): (r: Option<CacheEvent>)
    ensures r.Some? ==> r.value.Stored? && r.value in events && SameQuestion(r.value.q, q)
  {
    if events == [] then None
    else
      var e := events[|events| - 1];
      if e.Stored? && SameQuestion(e.q, q) then Some(e) else LatestStored(events[..|events| - 1], q)
  }

  lemma {:induction false} RunKeepsTtl(s: State, events: seq<CacheEvent>)
    ensures Run(s, Ops(events)).ttl == s.ttl
  {
    if events == [] {
    } else {
      var before := events[..|events| - 1];
      RunKeepsTtl(s, before);
      RunAppend(s, Ops(before), OpOf(events[|events| - 1]));
    }
  }

  lemma LatestStoredAppend(events: seq<CacheEvent>, e: CacheEvent, q: Query)
    ensures LatestStored(events + [e], q) ==
            if e.Stored? && SameQuestion(e.q, q) then Some(e) else LatestStored(events, q)
  {
    assert (events + [e])[..|events|] == events;
  }

  /** The item is what storing the event makes, or neither is there. */
  ghost predicate Matches(setup: Setup, put: Option<Item>, e: Option<CacheEvent>)
    requires e.Some? ==> e.value.Stored?
  {
    put.Some? == e.Some? &&
    (e.Some? ==> put.value.response == e.value.response && put.value.expiry == e.value.later + setup.ttl)
  }

  lemma LatestBothAppend(setup: Setup, events: seq<CacheEvent>, e: CacheEvent, q: Query)
    requires Matches(setup, LatestPut(Empty(setup), Ops(events), KeyOf(q)), LatestStored(events, q))
    ensures Matches(setup, LatestPut(Empty(setup), Ops(events + [e]), KeyOf(q)), LatestStored(events + [e], q))
  {
    var ops, op, key := Ops(events), OpOf(e), KeyOf(q);
    LatestStoredAppend(events, e, q);
    assert Ops(events + [e]) == ops + [op] by { OpsAppend(events, e); }
    assert op.Put? && op.key == key <==> e.Stored? && SameQuestion(e.q, q) by {
      KeyInjective(e.q.question.qname, e.q.question.qtype, q.question.qname, q.question.qtype);
    }
    LatestPutAppend(Empty(setup), ops, op, key);
    RunKeepsTtl(Empty(setup), events);
  }

  /** Latest by key and latest by question are the same thing. */
  lemma {:induction false} LatestPutIsStored(setup: Setup, events: seq<CacheEvent>, q: Query)
    ensures Matches(setup, LatestPut(Empty(setup), Ops(events), KeyOf(q)), LatestStored(events, q))
  {
    if events == [] {
    } else {
      var before, e := events[..|events| - 1], events[|events| - 1];
      assert events == before + [e];
      LatestPutIsStored(setup, before, q);
      LatestBothAppend(setup, before, e, q);
    }
  }

  /** A hit returns the latest response stored for the same question, before it expired. */
  lemma HitIsLatestStored(setup: Setup, events: seq<CacheEvent>, q: Query, now: int)
    requires Hit(CacheAfter(setup, events), KeyOf(q), now).Some?
    ensures var e := LatestStored(events, q);
            e.Some? && Hit(CacheAfter(setup, events), KeyOf(q), now).value == e.value.response &&
            now < e.value.later + setup.ttl
  {
    HitIsLatestPut(Empty(setup), Ops(events), KeyOf(q), now);
    LatestPutIsStored(setup, events, q);
  }

  /** At place `seen` of the history the question was looked up, and the response is what was then
      last stored for it, at a time u with u <= time < u + TTL. */
  ghost predicate FreshAt(setup: Setup, events: seq<CacheEvent>, q: Query, response: Bytes, time: int, seen: nat)
  {
    seen < |events| && events[seen] == Looked(q, time) &&
    var e := LatestStored(events[..seen], q);
    e.Some? && response == e.value.response && e.value.later <= time < e.value.later + setup.ttl
  }

  ghost predicate SentFresh(setup: Setup, events: seq<CacheEvent>, m: Sent)
  {
    m.source.FromCache? ==>
      exists response :: FreshAt(setup, events, m.q, response, m.time, m.seen) &&
                         m.bytes == WithId(response, m.q.header.id)
  }

  ghost predicate Fresh(setup: Setup, s: System)
  {
    && (forall i :: 0 <= i < |s.events| && s.events[i].Stored? ==> s.events[i].later <= s.clock)
    && (forall t :: 0 <= t < |s.threads| ==>
          var x := s.threads[t];
          x.Answered? && x.result.source.FromCache? ==>
            FreshAt(setup, s.events, x.q, x.result.response, x.time, x.seen))
    && (forall i :: 0 <= i < |s.sent| ==> SentFresh(setup, s.events, s.sent[i]))
  }

  lemma FreshAtGrows(setup: Setup, events: seq<CacheEvent>, e: CacheEvent, q: Query, response: Bytes,
                     time: int, seen: nat)
    requires FreshAt(setup, events, q, response, time, seen)
    ensures FreshAt(setup, events + [e], q, response, time, seen)
  {
    assert (events + [e])[..seen] == events[..seen];
  }

  /** Adding a critical section disturbs nothing that was fresh. */
  lemma FreshGrows(setup: Setup, s: System, e: CacheEvent, clock: int)
    requires Fresh(setup, s) && s.clock <= clock && (e.Stored? ==> e.later <= clock)
    ensures Fresh(setup, s.(events := s.events + [e], clock := clock))
  {
    var s' := s.(events := s.events + [e], clock := clock);
    forall t | 0 <= t < |s.threads| && s.threads[t].Answered? && s.threads[t].result.source.FromCache?
      ensures var x := s.threads[t]; FreshAt(setup, s'.events, x.q, x.result.response, x.time, x.seen)
    {
      var x := s.threads[t];
      FreshAtGrows(setup, s.events, e, x.q, x.result.response, x.time, x.seen);
    }
    forall i | 0 <= i < |s.sent|
      ensures SentFresh(setup, s'.events, s.sent[i])
    {
      var m := s.sent[i];
      if m.source.FromCache? {
        var response :| FreshAt(setup, s.events, m.q, response, m.time, m.seen) &&
                        m.bytes == WithId(response, m.q.header.id);
        FreshAtGrows(setup, s.events, e, m.q, response, m.time, m.seen);
      }
    }
  }

  lemma LookFresh(setup: Setup, s: System, q: Query, now: int)
    requires Fresh(setup, s) && s.clock <= now
    ensures var x := LookedUp(setup, s, q, now);
            x.Answered? ==>
              && x.result.source.FromCache?
              && FreshAt(setup, s.events + [Looked(q, now)], q, x.result.response, x.time, x.seen)
  {
    if Hit(CacheAfter(setup, s.events), KeyOf(q), now).Some? {
      HitIsLatestStored(setup, s.events, q, now);
      assert (s.events + [Looked(q, now)])[..|s.events|] == s.events;
    }
  }

  lemma NextFresh(setup: Setup, s: System, a: Action)
    requires Fresh(setup, s) && Enabled(setup, s, a)
    ensures Fresh(setup, Next(setup, s, a))
  {
    match a
    case Look(t, now) =>
      var q := s.threads[t].q;
      LookFresh(setup, s, q, now);
      FreshGrows(setup, s, Looked(q, now), now);
    case Store(t, now, later) =>
      var f := s.threads[t];
      FreshGrows(setup, s, Stored(f.q, f.response, now, later), later);
    case _ =>
  }

  /** In every reachable state of every interleaving, each response sent from the cache is, but
      for its identifier, exactly the bytes of the latest response stored at the time of the
      lookup for the same canonical name and type, less than TTL seconds earlier. */
  lemma {:induction false} CachedAnswersAreFresh(setup: Setup, actions: seq<Action>, s: System)
    requires Reaches(setup, actions, s)
    ensures Fresh(setup, s)
  {
    if actions == [] {
    } else {
      var before, a := actions[..|actions| - 1], actions[|actions| - 1];
      var r :| Reaches(setup, before, r) && Enabled(setup, r, a) && s == Next(setup, r, a);
      CachedAnswersAreFresh(setup, before, r);
      NextFresh(setup, r, a);
    }
  }
}
