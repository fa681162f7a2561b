/** Where answers come from, over every run: each is what block list, local records, cache and
    upstream had to say about its own query while it was being handled. */
module Provenance {
  import opened Bytes
  import opened Cache
  import opened Resolver
  import opened Interleaving
  import BL = Blocklist
  import LR = LocalRecords

  /** The sets that were in use, what upstream was asked and said, and the critical sections. */
  datatype Past = Past(lists: seq<set<Bytes>>, asked: seq<Asked>, events: seq<CacheEvent>)

  function PastOf(s: System): Past
  {
    Past(s.lists, s.asked, s.events)
  }

  /** The end of the past. */
  function Now(p: Past): Mark
  {
    Mark(|p.lists|, |p.asked|, |p.events|)
  }

  ghost predicate Before(a: Mark, b: Mark)
  {
    a.lists <= b.lists && a.asked <= b.asked && a.events <= b.events
  }

  ghost predicate Continues(p: Past, p': Past)
  {
    p.lists <= p'.lists && p.asked <= p'.asked && p.events <= p'.events
  }

  // ----- What happened between two places -----

  /** A set that was in use at `from` or came into use after it, but before `to`, blocks the name. */
  ghost predicate BlockedIn(p: Past, from: Mark, to: Mark, name: Bytes)
  {
    exists i :: 0 <= i < |p.lists| && from.lists <= i + 1 && i < to.lists && BL.Blocked(p.lists[i], name)
  }

  /** Such a set does not block the name. */
  ghost predicate AllowedIn(p: Past, from: Mark, to: Mark, name: Bytes)
  {
    exists i :: 0 <= i < |p.lists| && from.lists <= i + 1 && i < to.lists && !BL.Blocked(p.lists[i], name)
  }

  /** The outcome of the lookup for the query that is critical section `k`. */
  ghost predicate LookedAt(setup: Setup, p: Past, k: nat, q: Query, outcome: Option<Bytes>)
    requires k < |p.events|
  {
    p.events[k].Looked? && p.events[k].q == q &&
    Hit(CacheAfter(setup, p.events[..k]), KeyOf(q), p.events[k].now) == outcome
  }

  /** The cache was looked up for the query, with this outcome. */
  ghost predicate LookedIn(setup: Setup, p: Past, from: Mark, to: Mark, q: Query, outcome: Option<Bytes>)
  {
    exists k :: 0 <= k < |p.events| && from.events <= k < to.events && LookedAt(setup, p, k, q, outcome)
  }

  /** The response is what the server makes of the upstream answer that is number `i`. */
  ghost predicate AnswerAt(setup: Setup, p: Past, i: nat, response: Bytes)
    requires i < |p.asked|
  {
    var q, up := p.asked[i].q, p.asked[i].up;
    response == UpstreamAnswer(q.header, q.question, setup.rebind, up.dot, up.udp)
  }

  /** Upstream was asked for this very query, and the response is what came of that. */
  ghost predicate AskedIn(setup: Setup, p: Past, from: Mark, to: Mark, q: Query, response: Bytes)
  {
    exists i :: 0 <= i < |p.asked| && from.asked <= i < to.asked && p.asked[i].q == q && AnswerAt(setup, p, i, response)
  }

  /** Upstream was asked for the same name and type, and the response is what came of that. */
  ghost predicate AskedAlike(setup: Setup, p: Past, to: Mark, q: Query, response: Bytes)
  {
    exists i :: 0 <= i < |p.asked| && i < to.asked && SameQuestion(p.asked[i].q, q) && AnswerAt(setup, p, i, response)
  }

  function LocalRecord(setup: Setup, q: Query): Option<LR.LocalRecord>
  {
    LR.LastAnswering(setup.records, q.question.qname, q.question.qtype)
  }

  /** Neither a block list in use meanwhile nor a local record has an answer. */
  ghost predicate PassedOn(setup: Setup, p: Past, from: Mark, to: Mark, q: Query)
  {
    AllowedIn(p, from, to, q.question.qname) && LocalRecord(setup, q).None?
  }

  /** The result is right for a query that was received at `from` and answered by `to`:
      - the fixed answer to a name that a set in use meanwhile blocked;
      - for a name that a set in use meanwhile did not block, the local record for name and type;
      - if there is none, the cache's answer in a lookup made meanwhile, which is what upstream once
        said about the same canonical name and type;
      - if that lookup missed, what upstream was asked and said meanwhile about this very query. */
  ghost predicate Genuine(setup: Setup, p: Past, from: Mark, to: Mark, q: Query, r: Result)
  {
    match r.source
    case FromBlocklist =>
      BlockedIn(p, from, to, q.question.qname) && r.response == BlockAnswer(q.header, q.question)
    case FromLocal =>
      AllowedIn(p, from, to, q.question.qname) && LocalRecord(setup, q).Some? &&
      r.response == LocalAnswer(setup.lib, q.header, q.question, LocalRecord(setup, q).value.value)
    case FromCache =>
      PassedOn(setup, p, from, to, q) && LookedIn(setup, p, from, to, q, Some(r.response)) &&
      AskedAlike(setup, p, to, q, r.response)
    case FromUpstream =>
      PassedOn(setup, p, from, to, q) && LookedIn(setup, p, from, to, q, None) &&
      AskedIn(setup, p, from, to, q, r.response)
  }

  // ----- The past only grows -----

  lemma AllowedGrows(p: Past, p': Past, from: Mark, to: Mark, to': Mark, name: Bytes)
    requires Continues(p, p') && Before(to, to')
    ensures AllowedIn(p, from, to, name) ==> AllowedIn(p', from, to', name)
    ensures BlockedIn(p, from, to, name) ==> BlockedIn(p', from, to', name)
  {
    assert forall i :: 0 <= i < |p.lists| ==> p'.lists[i] == p.lists[i];
  }

  lemma LookedGrows(setup: Setup, p: Past, p': Past, from: Mark, to: Mark, to': Mark, q: Query, outcome: Option<Bytes>)
    requires Continues(p, p') && Before(to, to') && LookedIn(setup, p, from, to, q, outcome)
    ensures LookedIn(setup, p', from, to', q, outcome)
  {
    var k :| 0 <= k < |p.events| && from.events <= k < to.events && LookedAt(setup, p, k, q, outcome);
    assert p'.events[k] == p.events[k] && p'.events[..k] == p.events[..k];
    assert LookedAt(setup, p', k, q, outcome);
  }

  lemma AskedGrows(setup: Setup, p: Past, p': Past, from: Mark, to: Mark, to': Mark, q: Query, response: Bytes)
    requires Continues(p, p') && Before(to, to')
    ensures AskedIn(setup, p, from, to, q, response) ==> AskedIn(setup, p', from, to', q, response)
    ensures AskedAlike(setup, p, to, q, response) ==> AskedAlike(setup, p', to', q, response)
  {
    assert forall i :: 0 <= i < |p.asked| ==> p'.asked[i] == p.asked[i];
    assert forall i :: 0 <= i < |p.asked| && AnswerAt(setup, p, i, response) ==> AnswerAt(setup, p', i, response);
  }

  lemma GenuineGrows(setup: Setup, p: Past, p': Past, from: Mark, to: Mark, to': Mark, q: Query, r: Result)
    requires Continues(p, p') && Before(to, to') && Genuine(setup, p, from, to, q, r)
    ensures Genuine(setup, p', from, to', q, r)
  {
    AllowedGrows(p, p', from, to, to', q.question.qname);
    AskedGrows(setup, p, p', from, to, to', q, r.response);
    match r.source
    case FromCache => LookedGrows(setup, p, p', from, to, to', q, Some(r.response));
    case FromUpstream => LookedGrows(setup, p, p', from, to, to', q, None);
    case _ =>
  }

  // ----- The invariant -----

  /** What is known of a query so far. */
  ghost predicate ThreadGenuine(setup: Setup, p: Past, from: Mark, x: Thread)
  {
    (!x.Idle? ==> Before(from, Now(p))) &&
    match x
    case Idle => true
    case Deciding(q) => true
    case Looking(q) => PassedOn(setup, p, from, Now(p), q)
    case Missed(q) => PassedOn(setup, p, from, Now(p), q) && LookedIn(setup, p, from, Now(p), q, None)
    case Fetched(q, response) =>
      PassedOn(setup, p, from, Now(p), q) && LookedIn(setup, p, from, Now(p), q, None) &&
      AskedIn(setup, p, from, Now(p), q, response)
    case Answered(q, result, _, _) => Genuine(setup, p, from, Now(p), q, result)
  }

  /** What is stored is what upstream said about the query it is stored for. */
  ghost predicate EventGenuine(setup: Setup, p: Past, e: CacheEvent)
  {
    e.Stored? ==> AskedIn(setup, p, Mark(0, 0, 0), Now(p), e.q, e.response)
  }

  /** What was sent is a genuine result, with the query's identifier if it came from the cache. */
  ghost predicate SentGenuine(setup: Setup, p: Past, m: Sent)
  {
    exists r: Result :: r.source == m.source && Genuine(setup, p, m.from, m.to, m.q, r) &&
                        Outgoing(r, m.q.header.id) == Some(m.bytes)
  }

  ghost predicate Traced(setup: Setup, s: System)
  {
    var p := PastOf(s);
    && s.lists != [] && s.lists[|s.lists| - 1] == s.domains
    && (forall t :: 0 <= t < |s.threads| && !s.threads[t].Idle? ==> t in s.begun)
    && (forall i :: 0 <= i < |s.events| ==> EventGenuine(setup, p, s.events[i]))
    && (forall t :: 0 <= t < |s.threads| ==> ThreadGenuine(setup, p, BegunAt(s, t), s.threads[t]))
    && (forall i :: 0 <= i < |s.sent| ==> SentGenuine(setup, p, s.sent[i]))
  }

  lemma ThreadGrows(setup: Setup, p: Past, p': Past, from: Mark, x: Thread)
    requires Continues(p, p') && ThreadGenuine(setup, p, from, x)
    ensures ThreadGenuine(setup, p', from, x)
  {
    if x.Answered? {
      GenuineGrows(setup, p, p', from, Now(p), Now(p'), x.q, x.result);
    } else if !x.Idle? {
      AllowedGrows(p, p', from, Now(p), Now(p'), x.q.question.qname);
      if x.Missed? || x.Fetched? {
        LookedGrows(setup, p, p', from, Now(p), Now(p'), x.q, None);
      }
      if x.Fetched? {
        AskedGrows(setup, p, p', from, Now(p), Now(p'), x.q, x.response);
      }
    }
  }

  lemma SentGrows(setup: Setup, p: Past, p': Past, m: Sent)
    requires Continues(p, p') && SentGenuine(setup, p, m)
    ensures SentGenuine(setup, p', m)
  {
    var r: Result :| r.source == m.source && Genuine(setup, p, m.from, m.to, m.q, r) &&
                     Outgoing(r, m.q.header.id) == Some(m.bytes);
    GenuineGrows(setup, p, p', m.from, m.to, m.to, m.q, r);
  }

  lemma EventGrows(setup: Setup, p: Past, p': Past, e: CacheEvent)
    requires Continues(p, p') && EventGenuine(setup, p, e)
    ensures EventGenuine(setup, p', e)
  {
    if e.Stored? {
      AskedGrows(setup, p, p', Mark(0, 0, 0), Now(p), Now(p'), e.q, e.response);
    }
  }

  lemma NextContinues(setup: Setup, s: System, a: Action)
    requires Enabled(setup, s, a)
    ensures Continues(PastOf(s), PastOf(Next(setup, s, a)))
  {
  }

  // ----- Every step keeps it -----

  lemma DecidedGenuine(setup: Setup, s: System, t: nat, q: Query)
    requires Traced(setup, s) && t < |s.threads| && s.threads[t] == Deciding(q)
    ensures ThreadGenuine(setup, PastOf(s), BegunAt(s, t), Decided(setup, s, q))
  {
    var p, from := PastOf(s), BegunAt(s, t);
    assert ThreadGenuine(setup, p, from, s.threads[t]);
    assert p.lists[|p.lists| - 1] == s.domains;
  }

  /** What the cache has is what upstream once said about the same name and type. */
  lemma CachedAlike(setup: Setup, s: System, q: Query, now: int)
    requires Traced(setup, s) && Hit(CacheAfter(setup, s.events), KeyOf(q), now).Some?
    ensures AskedAlike(setup, PastOf(s), Here(s), q, Hit(CacheAfter(setup, s.events), KeyOf(q), now).value)
  {
    HitIsLatestStored(setup, s.events, q, now);
    var e := LatestStored(s.events, q).value;
    var i :| 0 <= i < |s.events| && s.events[i] == e;
    assert EventGenuine(setup, PastOf(s), s.events[i]);
  }

  lemma LookedGenuine(setup: Setup, s: System, t: nat, q: Query, now: int)
    requires Traced(setup, s) && t < |s.threads| && s.threads[t] == Looking(q)
    ensures var p := PastOf(s).(events := s.events + [Looked(q, now)]);
            ThreadGenuine(setup, p, BegunAt(s, t), LookedUp(setup, s, q, now))
  {
    var p, from := PastOf(s).(events := s.events + [Looked(q, now)]), BegunAt(s, t);
    var hit := Hit(CacheAfter(setup, s.events), KeyOf(q), now);
    assert ThreadGenuine(setup, PastOf(s), from, s.threads[t]);
    AllowedGrows(PastOf(s), p, from, Now(PastOf(s)), Now(p), q.question.qname);
    assert p.events[|s.events|] == Looked(q, now) && p.events[..|s.events|] == s.events;
    assert LookedAt(setup, p, |s.events|, q, hit);
    if hit.Some? {
      CachedAlike(setup, s, q, now);
      AskedGrows(setup, PastOf(s), p, from, Now(PastOf(s)), Now(p), q, hit.value);
    }
  }

  lemma FetchedGenuine(setup: Setup, s: System, t: nat, q: Query, up: Upstream)
    requires Traced(setup, s) && t < |s.threads| && s.threads[t] == Missed(q)
    ensures var p := PastOf(s).(asked := s.asked + [Asked(q, up)]);
            var response := UpstreamAnswer(q.header, q.question, setup.rebind, up.dot, up.udp);
            ThreadGenuine(setup, p, BegunAt(s, t), Fetched(q, response))
  {
    var p, from := PastOf(s).(asked := s.asked + [Asked(q, up)]), BegunAt(s, t);
    assert ThreadGenuine(setup, PastOf(s), from, s.threads[t]);
    ThreadGrows(setup, PastOf(s), p, from, s.threads[t]);
    assert p.asked[|s.asked|] == Asked(q, up);
    assert AnswerAt(setup, p, |s.asked|, UpstreamAnswer(q.header, q.question, setup.rebind, up.dot, up.udp));
  }

  lemma StoredGenuine(setup: Setup, s: System, t: nat, p: Past, time: int)
    requires Traced(setup, s) && t < |s.threads| && s.threads[t].Fetched? && Continues(PastOf(s), p)
    ensures var x := s.threads[t];
            && ThreadGenuine(setup, p, BegunAt(s, t), Answered(x.q, Result(FromUpstream, x.response), time, 0))
            && AskedIn(setup, p, Mark(0, 0, 0), Now(p), x.q, x.response)
  {
    assert ThreadGenuine(setup, PastOf(s), BegunAt(s, t), s.threads[t]);
    ThreadGrows(setup, PastOf(s), p, BegunAt(s, t), s.threads[t]);
  }

  lemma SendGenuine(setup: Setup, s: System, t: nat)
    requires Traced(setup, s) && t < |s.threads| && s.threads[t].Answered?
    ensures var m := Departing(s.threads[t], BegunAt(s, t), Here(s)); m.Some? ==> SentGenuine(setup, PastOf(s), m.value)
  {
    assert ThreadGenuine(setup, PastOf(s), BegunAt(s, t), s.threads[t]);
  }

  /** The thread that a step is about. */
  lemma MoverGenuine(setup: Setup, s: System, a: Action)
    requires Traced(setup, s) && Enabled(setup, s, a) && !a.SetDomains?
    ensures var s' := Next(setup, s, a); ThreadGenuine(setup, PastOf(s'), BegunAt(s', a.t), s'.threads[a.t])
  {
    match a
    case Receive(_, _) =>
    case Decide(t) => DecidedGenuine(setup, s, t, s.threads[t].q);
    case Look(t, now) => LookedGenuine(setup, s, t, s.threads[t].q, now);
    case Fetch(t, up) => FetchedGenuine(setup, s, t, s.threads[t].q, up);
    case Store(t, _, later) => StoredGenuine(setup, s, t, PastOf(Next(setup, s, a)), later);
    case Send(_) =>
    case Discard(_) =>
  }

  lemma OthersGenuine(setup: Setup, s: System, a: Action, t: nat)
    requires Traced(setup, s) && Enabled(setup, s, a) && t < |s.threads| && (a.SetDomains? || a.t != t)
    ensures var s' := Next(setup, s, a);
            |s'.threads| == |s.threads| && ThreadGenuine(setup, PastOf(s'), BegunAt(s', t), s'.threads[t])
  {
    assert ThreadGenuine(setup, PastOf(s), BegunAt(s, t), s.threads[t]);
    NextContinues(setup, s, a);
    ThreadGrows(setup, PastOf(s), PastOf(Next(setup, s, a)), BegunAt(s, t), s.threads[t]);
  }

  lemma NextEvents(setup: Setup, s: System, a: Action)
    requires Traced(setup, s) && Enabled(setup, s, a)
    ensures var s' := Next(setup, s, a);
            forall i :: 0 <= i < |s'.events| ==> EventGenuine(setup, PastOf(s'), s'.events[i])
  {
    var s' := Next(setup, s, a);
    NextContinues(setup, s, a);
    if a.Store? {
      StoredGenuine(setup, s, a.t, PastOf(s'), a.later);
    }
    forall i | 0 <= i < |s'.events|
      ensures EventGenuine(setup, PastOf(s'), s'.events[i])
    {
      if i < |s.events| {
        assert s'.events[i] == s.events[i];
        EventGrows(setup, PastOf(s), PastOf(s'), s.events[i]);
      }
    }
  }

  lemma NextSent(setup: Setup, s: System, a: Action)
    requires Traced(setup, s) && Enabled(setup, s, a)
    ensures var s' := Next(setup, s, a);
            forall i :: 0 <= i < |s'.sent| ==> SentGenuine(setup, PastOf(s'), s'.sent[i])
  {
    var s' := Next(setup, s, a);
    NextContinues(setup, s, a);
    if a.Send? {
      SendGenuine(setup, s, a.t);
    }
    forall i | 0 <= i < |s'.sent|
      ensures SentGenuine(setup, PastOf(s'), s'.sent[i])
    {
      if i < |s.sent| {
        assert s'.sent[i] == s.sent[i];
        SentGrows(setup, PastOf(s), PastOf(s'), s.sent[i]);
      }
    }
  }

  lemma NextTraced(setup: Setup, s: System, a: Action)
    requires Traced(setup, s) && Enabled(setup, s, a)
    ensures Traced(setup, Next(setup, s, a))
  {
    var s' := Next(setup, s, a);
    forall t | 0 <= t < |s'.threads|
      ensures ThreadGenuine(setup, PastOf(s'), BegunAt(s', t), s'.threads[t])
    {
      if !a.SetDomains? && a.t == t {
        MoverGenuine(setup, s, a);
      } else {
        OthersGenuine(setup, s, a, t);
      }
    }
    NextEvents(setup, s, a);
    NextSent(setup, s, a);
  }

  /** In every reachable state of every interleaving, each answer sent is right for its own query. */
  lemma {:induction false} AnswersAreGenuine(setup: Setup, actions: seq<Action>, s: System)
    requires Reaches(setup, actions, s)
    ensures Traced(setup, s)
  {
    if actions == [] {
    } else {
      var before, a := actions[..|actions| - 1], actions[|actions| - 1];
      var r :| Reaches(setup, before, r) && Enabled(setup, r, a) && s == Next(setup, r, a);
      AnswersAreGenuine(setup, before, r);
      NextTraced(setup, r, a);
    }
  }

  /** The sets that were put in use and what upstream had to say, in a run, in order. */
  function SetsOf(actions: seq<Action>): seq<set<Bytes>>
  {
    if actions == [] then []
    else
      var a := actions[|actions| - 1];
      SetsOf(actions[..|actions| - 1]) + (if a.SetDomains? then [a.domains] else [])
  }

  function SayingsOf(actions: seq<Action>): seq<Upstream>
  {
    if actions == [] then []
    else
      var a := actions[|actions| - 1];
      SayingsOf(actions[..|actions| - 1]) + (if a.Fetch? then [a.up] else [])
  }

  ghost predicate Says(asked: seq<Asked>, sayings: seq<Upstream>)
  {
    |asked| == |sayings| && forall i :: 0 <= i < |asked| ==> asked[i].up == sayings[i]
  }

  lemma HistoryStep(setup: Setup, s: System, a: Action)
    requires Enabled(setup, s, a)
    ensures var s' := Next(setup, s, a);
            && s'.lists == s.lists + (if a.SetDomains? then [a.domains] else [])
            && s'.domains == (if a.SetDomains? then a.domains else s.domains)
            && s'.asked == s.asked + (if a.Fetch? then [Asked(s.threads[a.t].q, a.up)] else [])
  {
  }

  /** The history that answers are judged by is that of the run: the sets in use are the first and those
      put in use, in order, the last of them in use now; what upstream said is what it was made to say. */
  lemma {:induction false} HistoryOfRun(setup: Setup, actions: seq<Action>, s: System) returns (first: set<Bytes>)
    requires Reaches(setup, actions, s)
    ensures s.lists == [first] + SetsOf(actions) && s.domains == s.lists[|s.lists| - 1]
    ensures Says(s.asked, SayingsOf(actions))
  {
    if actions == [] {
      first := s.domains;
    } else {
      var before, a := actions[..|actions| - 1], actions[|actions| - 1];
      var r :| Reaches(setup, before, r) && Enabled(setup, r, a) && s == Next(setup, r, a);
      first := HistoryOfRun(setup, before, r);
      HistoryStep(setup, r, a);
    }
  }

  lemma OtherStepKeepsBegun(setup: Setup, s: System, a: Action, t: nat)
    requires Enabled(setup, s, a) && !(a.Receive? && a.t == t)
    requires var s' := Next(setup, s, a); t < |s'.threads| && !s'.threads[t].Idle?
    ensures t < |s.threads| && !s.threads[t].Idle? && BegunAt(Next(setup, s, a), t) == BegunAt(s, t)
  {
  }

  /** Step `k` is the last at which worker `t` received a query, and `r` is the system before it. */
  ghost predicate LastReceipt(setup: Setup, actions: seq<Action>, t: nat, k: nat, r: System)
  {
    && k < |actions| && actions[k].Receive? && actions[k].t == t && Reaches(setup, actions[..k], r)
    && forall j :: k < j < |actions| ==> !(actions[j].Receive? && actions[j].t == t)
  }

  lemma LastReceiptStays(setup: Setup, actions: seq<Action>, t: nat, k: nat, r: System)
    requires actions != [] && LastReceipt(setup, actions[..|actions| - 1], t, k, r)
    requires !(actions[|actions| - 1].Receive? && actions[|actions| - 1].t == t)
    ensures LastReceipt(setup, actions, t, k, r)
  {
    var before := actions[..|actions| - 1];
    assert before[..k] == actions[..k];
    assert forall j :: 0 <= j < |before| ==> before[j] == actions[j];
  }

  lemma ReceiptBegins(setup: Setup, s: System, a: Action)
    requires Enabled(setup, s, a) && a.Receive?
    ensures BegunAt(Next(setup, s, a), a.t) == Here(s)
  {
  }

  /** A query in hand began where its worker last received one: the places that Genuine looks between
      are that of its receipt and that of its answer. */
  lemma {:induction false} BeganWhenReceived(setup: Setup, actions: seq<Action>, s: System, t: nat)
    returns (k: nat, r: System)
    requires Reaches(setup, actions, s) && t < |s.threads| && !s.threads[t].Idle?
    ensures LastReceipt(setup, actions, t, k, r) && BegunAt(s, t) == Here(r)
  {
    var n := |actions| - 1;
    var before, a := actions[..n], actions[n];
    var s0 :| Reaches(setup, before, s0) && Enabled(setup, s0, a) && s == Next(setup, s0, a);
    if a.Receive? && a.t == t {
      k, r := n, s0;
      ReceiptBegins(setup, s0, a);
    } else {
      OtherStepKeepsBegun(setup, s0, a, t);
      k, r := BeganWhenReceived(setup, before, s0, t);
      LastReceiptStays(setup, actions, t, k, r);
    }
  }
}
