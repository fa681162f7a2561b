/** Resolving one query: block list, local records, cache, upstream, in that order. */
module Resolver {
  import opened Bytes
  import opened Names
  import opened NameCodec
  import opened Message
  import opened Responses
  import opened Rewrite
  import opened Rebind
  import opened Cache
  import opened Keys
  import opened Text
  import ResponseLaws
  import CacheLaws
  import opened ClientName
  import BL = Blocklist
  import LR = LocalRecords

  datatype Source = FromBlocklist | FromLocal | FromCache | FromUpstream

  datatype Result = Result(source: Source, response: Bytes)

  /** What the C library and ParseMxValue make of configured text: inet_pton for both families,
      and the preference and exchange of an MX value. */
  datatype Library = Library(
    inet4: Bytes -> Option<Quad>, inet6: Bytes -> Option<Octets16>, mx: Bytes -> (u16, Bytes))

  const NULL4: Quad := [0, 0, 0, 0]
  const LOOPBACK6: Octets16 := [0, 0, 0, 0, 0, 0, 0, 0, 0, 0, 0, 0, 0, 0, 0, 1]

  function EmptyBytes(h: Header, q: Question): Bytes
  {
    HeaderBytes(h, 1, 0) + QuestionBytes(q)
  }

  /** The answer to a blocked name. */
  function BlockAnswer(h: Header, q: Question): Bytes
  {
    if q.qtype == TYPE_A then AnswerBytes(h, q, TYPE_A, NULL4)
    else if q.qtype == TYPE_AAAA then AnswerBytes(h, q, TYPE_AAAA, LOOPBACK6)
    else EmptyBytes(h, q)
  }

  /** The answer out of a local record of the queried type. */
  function LocalAnswer(lib: Library, h: Header, q: Question, value: Bytes): Bytes
  {
    if q.qtype == TYPE_A then
      AnswerBytes(h, q, TYPE_A, if lib.inet4(value).Some? then lib.inet4(value).value else [0, 0, 0, 0])
    else if q.qtype == TYPE_AAAA then
      AnswerBytes(h, q, TYPE_AAAA, if lib.inet6(value).Some? then lib.inet6(value).value else Zeros16())
    else if q.qtype == TYPE_CNAME then AnswerBytes(h, q, TYPE_CNAME, QName(value))
    else if q.qtype == TYPE_PTR then AnswerBytes(h, q, TYPE_PTR, QName(value))
    else if q.qtype == TYPE_TXT then AnswerBytes(h, q, TYPE_TXT, TxtData(value))
    else if q.qtype == TYPE_MX then AnswerBytes(h, q, TYPE_MX, U16(lib.mx(value).0) + QName(lib.mx(value).1))
    else []
  }

  /** What comes back from upstream: DNS over TLS first, then UDP, else an empty response; with
      rebind protection, rewritten, or an empty response when it cannot be walked. */
  function UpstreamAnswer(h: Header, q: Question, rebind: bool, dot: Option<Bytes>, udp: Option<Bytes>): Bytes
  {
    var raw := if dot.Some? then dot.value else if udp.Some? then udp.value else EmptyBytes(h, q);
    if raw == [] || !rebind then raw
    else if RewriteAll(raw).ok then RewriteAll(raw).bytes
    else EmptyBytes(h, q)
  }

  /** `q` is the packet `p` with just the private addresses of `layout` zeroed. */
  ghost predicate OnlyZeroed(p: Bytes, q: Bytes, layout: Layout)
  {
    Zeroed(p, q, AnyPrivate(p, layout.records), layout.records)
  }

  /** What becomes of an upstream's answer `raw`: it is passed on byte for byte without rebind
      protection. With it, a message that is laid out keeps all octets but those of its private
      addresses; in general, what is passed on is laid out and differs just so, or, where the rewrite
      fails, is an empty response. Without an answer it is an empty response too. */
  ghost predicate PassedOn(h: Header, q: Question, rebind: bool, raw: Option<Bytes>, b: Bytes)
  {
    match raw
    case None => b == EmptyBytes(h, q)
    case Some(x) =>
      if x == [] || !rebind then b == x
      else
        && (forall layout :: LaidOut(x, layout) ==> OnlyZeroed(x, b, layout))
        && if RewriteAll(x).ok then exists layout :: LaidOut(b, layout) && OnlyZeroed(x, b, layout)
           else b == EmptyBytes(h, q)
  }

  /** What the upstream servers would answer over TLS and over UDP, None for a failure, and the name
      of the server that asking them leaves for the query log. */
  datatype Upstream = Upstream(dot: Option<Bytes>, udp: Option<Bytes>, server: Bytes)

  /** Clock readings: in Get, at the start of Put, and for Put's expiry. */
  datatype Clock = Clock(got: int, put: int, stamped: int)

  datatype Outcome = Outcome(result: Result, cache: State)

  /** The cache's answer if it has one, else the upstream's, which is then cached unless empty. */
  function CacheOrUpstream(c: State, rebind: bool, h: Header, q: Question, up: Upstream, clock: Clock): Outcome
  {
    var key := Key(q.qname, q.qtype);
    var looked := GetStep(c, key, clock.got);
    match Hit(c, key, clock.got)
    case Some(response) => Outcome(Result(FromCache, response), looked)
    case None =>
      var response := UpstreamAnswer(h, q, rebind, up.dot, up.udp);
      Outcome(Result(FromUpstream, response),
              if response == [] then looked else PutStep(looked, key, response, clock.put, clock.stamped))
  }

  /** The whole of ResolveQuery: the first of block list, local records, cache and upstream that
      has an answer gives it, and only the last two touch the cache. */
  ghost function Resolution(domains: set<Bytes>, records: seq<LR.LocalRecord>, c: State, rebind: bool,
                            lib: Library, h: Header, q: Question, up: Upstream, clock: Clock): Outcome
  {
    var rec := LR.LastAnswering(records, q.qname, q.qtype);
    if BL.Blocked(domains, q.qname) then Outcome(Result(FromBlocklist, BlockAnswer(h, q)), c)
    else if rec.Some? then Outcome(Result(FromLocal, LocalAnswer(lib, h, q, rec.value.value)), c)
    else CacheOrUpstream(c, rebind, h, q, up, clock)
  }

  /** What HandleQuery sends of a result: nothing when it is empty; a cached response gets the
      query's identifier. */
  function Outgoing(r: Result, id: u16): Option<Bytes>
  {
    if r.response == [] then None
    else Some(if r.source == FromCache then WithId(r.response, id) else r.response)
  }

  /** The name found for a client and the cache after looking it up; `addr` is its address in text,
      None when it has none. */
  datatype Named = Named(name: Bytes, cache: State)

  /** The PTR target in a response, or a hyphen. */
  function NameFrom(response: Bytes): Bytes
  {
    var target := PtrTarget(response);
    if target.Some? && target.value != [] then target.value else UNKNOWN
  }

  /** A reverse lookup: the PTR target of the answer to the reverse query, resolved like any other,
      or a hyphen. */
  ghost function NameFor(domains: set<Bytes>, records: seq<LR.LocalRecord>, c: State, rebind: bool,
                         lib: Library, addr: Option<Bytes>, up: Upstream, clock: Clock): Named
  {
    if addr.None? || ReverseQuery(addr.value).None? then Named(UNKNOWN, c)
    else
      var query := ReverseQuery(addr.value).value;
      match QuestionOf(query)
      case None => Named(UNKNOWN, c)
      case Some(q) =>
        var o := Resolution(domains, records, c, rebind, lib, HeaderOf(query), q, up, clock);
        Named(NameFrom(o.result.response), o.cache)
  }

  const NO_ADDRESS: Bytes := [117, 110, 107, 110, 111, 119, 110]  // unknown

  /** A line of the query log; the server is empty unless one was asked. */
  datatype LogLine = LogLine(source: Source, ip: Bytes, name: Bytes, qname: Bytes, qtype: u16, server: Bytes)

  /** What logging needs: the client's address in text, and what upstream and clock say during the
      reverse lookup. */
  datatype Client = Client(addr: Option<Bytes>, up: Upstream, clock: Clock)

  /** A line says where the answer came from, the client's address and name, the name and type asked
      for and, if upstream was asked, the server there. */
  ghost predicate RightLine(line: LogLine, source: Source, addr: Option<Bytes>, name: Bytes, q: Question, up: Upstream)
  {
    && line.source == source && line.qname == q.qname && line.qtype == q.qtype && line.name == name
    && line.ip == (if addr.Some? then addr.value else Ascii("unknown"))
    && line.server == (if source == FromUpstream then up.server else [])
  }

  lemma EmptyHasNoRecords(h: Header, q: Question)
    ensures |EmptyBytes(h, q)| >= 12 && RecordCount(EmptyBytes(h, q)) == 0
  {
    var b := HeaderBytes(h, 1, 0);
    ResponseLaws.HeaderCounts(h, 1, 0);
    assert forall i :: 0 <= i < 12 ==> EmptyBytes(h, q)[i] == b[i];
  }

  /** Rewriting an empty response changes nothing, if it can be read at all. */
  lemma EmptyRewritten(h: Header, q: Question)
    ensures var w := RewriteAll(EmptyBytes(h, q)); w.ok ==> w.bytes == EmptyBytes(h, q)
  {
    EmptyHasNoRecords(h, q);
  }

  lemma RewrittenPassedOn(h: Header, q: Question, x: Bytes)
    requires x != []
    ensures PassedOn(h, q, true, Some(x), if RewriteAll(x).ok then RewriteAll(x).bytes else EmptyBytes(h, q))
  {
    forall layout | LaidOut(x, layout)
      ensures RewriteAll(x).ok && OnlyZeroed(x, RewriteAll(x).bytes, layout)
    {
      RewriteReachesAll(x, layout);
    }
    if RewriteAll(x).ok {
      var layout := RewriteZeroes(x);
      assert OnlyZeroed(x, RewriteAll(x).bytes, layout);
    }
  }

  /** The answer over TLS is passed on if there is one, else the one over UDP. */
  lemma UpstreamPassedOn(h: Header, q: Question, rebind: bool, up: Upstream)
    ensures PassedOn(h, q, rebind, if up.dot.Some? then up.dot else up.udp,
                     UpstreamAnswer(h, q, rebind, up.dot, up.udp))
  {
    var raw := if up.dot.Some? then up.dot else up.udp;
    if raw.None? {
      EmptyRewritten(h, q);
    } else if raw.value != [] && rebind {
      RewrittenPassedOn(h, q, raw.value);
    }
  }

  class Server {
    const blocklist: BL.Blocklist
    const local: LR.LocalRecords
    const cache: DnsCache
    const rebind: bool

    constructor (blocklist: BL.Blocklist, local: LR.LocalRecords, cache: DnsCache, rebind: bool)
      ensures this.blocklist == blocklist && this.local == local && this.cache == cache && this.rebind == rebind
    {
      this.blocklist, this.local, this.cache, this.rebind := blocklist, local, cache, rebind;
    }

    ghost function Resolved(lib: Library, h: Header, q: Question, up: Upstream, clock: Clock): Outcome
      reads blocklist, local, cache
      requires cache.Valid()
    {
      Resolution(blocklist.domains, local.loaded, cache.View(), rebind, lib, h, q, up, clock)
    }

    method ResolveQuery(lib: Library, h: Header, q: Question, up: Upstream, clock: Clock) returns (r: Result)
      requires local.Valid() && cache.Valid()
      modifies cache
      ensures cache.Valid()
      ensures Outcome(r, cache.View()) == old(Resolved(lib, h, q, up, clock))
    {
      var blocked := blocklist.IsBlocked(q.qname);
      if blocked {
        var answer := AnswerBlocked(h, q);
        return Result(FromBlocklist, answer);
      }
      var found, value, rtype := local.Resolve(q.qname, q.qtype);
      if found {
        var answer := AnswerLocally(lib, h, q, value, rtype);
        return Result(FromLocal, answer);
      }
      var key := MakeKey(q.qname, q.qtype);
      var hit, cached := cache.Get(key, clock.got);
      if hit {
        return Result(FromCache, cached);
      }
      var response := AskUpstream(h, q, up);
      if response != [] {
        cache.Put(key, response, clock.put, clock.stamped);
      }
      return Result(FromUpstream, response);
    }

    method AnswerBlocked(h: Header, q: Question) returns (response: Bytes)
      ensures response == BlockAnswer(h, q)
    {
      if q.qtype == TYPE_A {
        response := BuildAResponse(h, q, Some(NULL4));
      } else if q.qtype == TYPE_AAAA {
        response := BuildAAAAResponse(h, q, Some(LOOPBACK6));
      } else {
        response := BuildEmptyResponse(h, q);
      }
    }

    method AnswerLocally(lib: Library, h: Header, q: Question, value: Bytes, rtype: u16) returns (response: Bytes)
      requires rtype == q.qtype
      ensures response == LocalAnswer(lib, h, q, value)
    {
      response := [];
      if rtype == TYPE_A {
        response := BuildAResponse(h, q, lib.inet4(value));
      } else if rtype == TYPE_AAAA {
        response := BuildAAAAResponse(h, q, lib.inet6(value));
      } else if rtype == TYPE_CNAME {
        response := BuildCNAMEResponse(h, q, value);
      } else if rtype == TYPE_PTR {
        response := BuildPTRResponse(h, q, value);
      } else if rtype == TYPE_TXT {
        response := BuildTXTResponse(h, q, value);
      } else if rtype == TYPE_MX {
        response := BuildMXResponse(h, q, lib.mx(value).0, lib.mx(value).1);
      }
    }

    /** DNS over TLS has precedence. */
    method AskUpstream(h: Header, q: Question, up: Upstream) returns (response: Bytes)
      ensures response == UpstreamAnswer(h, q, rebind, up.dot, up.udp)
      ensures PassedOn(h, q, rebind, if up.dot.Some? then up.dot else up.udp, response)
    {
      UpstreamPassedOn(h, q, rebind, up);
      if up.dot.Some? {
        response := up.dot.value;
      } else if up.udp.Some? {
        response := up.udp.value;
      } else {
        response := BuildEmptyResponse(h, q);
      }
      if response != [] && rebind {
        var packet := new byte[|response|](i requires 0 <= i < |response| => response[i]);
        assert packet[..] == response;
        var ok, _ := RewritePrivateARecordsToZero(packet);
        if !ok {
          response := BuildEmptyResponse(h, q);
        } else {
          response := packet[..];
        }
      }
    }

    /** A packet that is no query does nothing. A query is resolved and answered; then, if there is a
        query log, the client's name is looked up, in the cache as the answer left it. */
    method HandleQuery(lib: Library, packet: Bytes, up: Upstream, clock: Clock, log: Option<Client>)
      returns (ok: bool, sent: Option<Bytes>, logged: Option<LogLine>)
      requires local.Valid() && cache.Valid()
      modifies cache
      ensures cache.Valid()
      ensures ok <==> QuestionOf(packet).Some?
      ensures !ok ==> sent == None && logged == None && cache.View() == old(cache.View())
      ensures ok ==>
                var h, q := HeaderOf(packet), QuestionOf(packet).value;
                var o := old(Resolved(lib, h, q, up, clock));
                && sent == Outgoing(o.result, h.id)
                && if log.None? then logged == None && cache.View() == o.cache
                   else
                     var client := log.value;
                     var named := NameFor(blocklist.domains, local.loaded, o.cache, rebind, lib,
                                          client.addr, client.up, client.clock);
                     logged.Some? && RightLine(logged.value, o.result.source, client.addr, named.name, q, up) &&
                     cache.View() == named.cache
    {
      assert Ascii("unknown") == NO_ADDRESS;
      sent, logged := None, None;
      var h, q;
      ok, h, q := ParseDnsQuery(packet);
      if !ok {
        return;
      }
      var result := ResolveQuery(lib, h, q, up, clock);
      if result.response != [] {
        sent := Some(result.response);
        if result.source == FromCache {
          var patched := Patch(result.response, h.id);
          sent := Some(patched);
        }
      }
      if log.Some? {
        var client := log.value;
        var ip := if client.addr.Some? then client.addr.value else NO_ADDRESS;
        var name := ResolveClientName(lib, client.addr, client.up, client.clock);
        var server := if result.source == FromUpstream then up.server else [];
        logged := Some(LogLine(result.source, ip, name, q.qname, q.qtype, server));
      }
    }

    ghost function NamedNow(lib: Library, addr: Option<Bytes>, up: Upstream, clock: Clock): Named
      reads blocklist, local, cache
      requires cache.Valid()
    {
      NameFor(blocklist.domains, local.loaded, cache.View(), rebind, lib, addr, up, clock)
    }

    method ResolveClientName(lib: Library, addr: Option<Bytes>, up: Upstream, clock: Clock) returns (name: Bytes)
      requires local.Valid() && cache.Valid()
      modifies cache
      ensures cache.Valid()
      ensures Named(name, cache.View()) == old(NamedNow(lib, addr, up, clock))
    {
      name := UNKNOWN;
      if addr.None? {
        return;
      }
      var query := BuildReverseQuery(addr.value);
      if query.None? {
        return;
      }
      var ok, h, q := ParseDnsQuery(query.value);
      if !ok {
        return;
      }
      var result := ResolveQuery(lib, h, q, up, clock);
      var found, target := ExtractFirstPtrTarget(result.response);
      if !found || target == [] {
        return;
      }
      name := target;
    }

    method Patch(response: Bytes, id: u16) returns (patched: Bytes)
      ensures patched == WithId(response, id)
    {
      var packet := new byte[|response|](i requires 0 <= i < |response| => response[i]);
      assert packet[..] == response;
      PatchResponseId(packet, id);
      patched := packet[..];
    }
  }

  /** With rebind protection no upstream answer holds a private A record, then or after its
      identifier is patched. */
  lemma UpstreamShielded(h: Header, q: Question, dot: Option<Bytes>, udp: Option<Bytes>)
    ensures var r := UpstreamAnswer(h, q, true, dot, udp);
            r != [] ==> Shielded(r)
  {
    var r := UpstreamAnswer(h, q, true, dot, udp);
    var raw := if dot.Some? then dot.value else if udp.Some? then udp.value else EmptyBytes(h, q);
    if r != [] {
      if RewriteAll(raw).ok {
        RewriteShields(raw);
      } else {
        EmptyHasNoRecords(h, q);
        EmptyShielded(r);
      }
    }
  }

  lemma AnswerCarriesId(h: Header, q: Question, rtype: u16, rdata: Bytes)
    ensures ReadU16(AnswerBytes(h, q, rtype, rdata), 0) == h.id
  {
    var b := HeaderBytes(h, 1, 1);
    ResponseLaws.HeaderReadsBack(h, 1, 1, []);
    assert b + [] == b;
    assert forall i :: 0 <= i < 12 ==> AnswerBytes(h, q, rtype, rdata)[i] == b[i];
  }

  lemma LocalCarriesId(lib: Library, h: Header, q: Question, value: Bytes)
    ensures LocalAnswer(lib, h, q, value) == [] || ReadU16(LocalAnswer(lib, h, q, value), 0) == h.id
  {
    var p := LocalAnswer(lib, h, q, value);
    if p != [] {
      var rdata :| p == AnswerBytes(h, q, q.qtype, rdata);
      AnswerCarriesId(h, q, q.qtype, rdata);
    }
  }

  /** What is sent of a result: nothing exactly if it is empty, its bytes as they are unless they come
      from the cache, and then all but the first two octets. */
  lemma OutgoingBytes(r: Result, id: u16)
    ensures var out := Outgoing(r, id);
            && (out.None? <==> r.response == [])
            && (out.Some? && !r.source.FromCache? ==> out.value == r.response)
            && (out.Some? ==> |out.value| == |r.response| && (|out.value| >= 2 ==> out.value[2..] == r.response[2..]))
  {
  }

  /** Everything sent that the server wrote itself or took from its cache carries the identifier
      of the query it answers; only a fresh upstream answer brings its own. */
  lemma AnswersCarryQueryId(domains: set<Bytes>, records: seq<LR.LocalRecord>, c: State, rebind: bool,
                            lib: Library, h: Header, q: Question, up: Upstream, clock: Clock)
    ensures var r := Resolution(domains, records, c, rebind, lib, h, q, up, clock).result;
            var out := Outgoing(r, h.id);
            !r.source.FromUpstream? && out.Some? && |out.value| >= 2 ==> ReadU16(out.value, 0) == h.id
  {
    var r := Resolution(domains, records, c, rebind, lib, h, q, up, clock).result;
    if r.source.FromBlocklist? && q.qtype != TYPE_A && q.qtype != TYPE_AAAA {
      ResponseLaws.HeaderReadsBack(h, 1, 0, QuestionBytes(q));
    } else if r.source.FromBlocklist? {
      AnswerCarriesId(h, q, q.qtype, if q.qtype == TYPE_A then NULL4 else LOOPBACK6);
    } else if r.source.FromLocal? {
      LocalCarriesId(lib, h, q, LR.LastAnswering(records, q.qname, q.qtype).value.value);
    }
  }

  /** 0.0.0.0 for type A (1), ::1 for type AAAA (28). */
  ghost function BlockRdata(qtype: u16): Bytes
  {
    if qtype == 1 then [0, 0, 0, 0] else [0, 0, 0, 0, 0, 0, 0, 0, 0, 0, 0, 0, 0, 0, 0, 1]
  }

  lemma BlockAnswerIs(h: Header, q: Question)
    ensures BlockAnswer(h, q) ==
            if q.qtype == 1 || q.qtype == 28 then AnswerBytes(h, q, q.qtype, BlockRdata(q.qtype)) else EmptyBytes(h, q)
  {
  }

  /** A blocked name is answered the same whatever the cache holds and the upstream would say,
      without touching either; well-formed questions get exactly the address 0.0.0.0 for type A (1), the
      address ::1 for type AAAA (28), and no answer for every other type. */
  lemma BlockedFirst(domains: set<Bytes>, records: seq<LR.LocalRecord>, c: State, rebind: bool,
                     lib: Library, h: Header, q: Question, up: Upstream, clock: Clock)
    requires BL.Blocked(domains, q.qname) && WellFormed(q.qname)
    ensures var o := Resolution(domains, records, c, rebind, lib, h, q, up, clock);
            var p := o.result.response;
            && o.result.source == FromBlocklist && o.cache == c
            && if q.qtype == 1 || q.qtype == 28 then ResponseLaws.OneAnswer(p, h, q, q.qtype, BlockRdata(q.qtype))
               else ResponseLaws.NoAnswer(p, h, q)
  {
    BlockAnswerIs(h, q);
    if q.qtype == 1 || q.qtype == 28 {
      ResponseLaws.AnswerWalks(h, q, q.qtype, BlockRdata(q.qtype));
    } else {
      ResponseLaws.EmptyWalks(h, q);
    }
  }

  /** The RDATA that the value of a local record stands for, by type: A (1) and AAAA (28) the address in
      the text, or all zeros; CNAME (5) and PTR (12) the encoded name; MX (15) preference and encoded
      exchange; TXT (16) the text in chunks. */
  ghost function RdataOf(lib: Library, qtype: u16, value: Bytes): Bytes
  {
    if qtype == 1 then (if lib.inet4(value).Some? then lib.inet4(value).value else [0, 0, 0, 0])
    else if qtype == 28 then
      (if lib.inet6(value).Some? then lib.inet6(value).value else [0, 0, 0, 0, 0, 0, 0, 0, 0, 0, 0, 0, 0, 0, 0, 0])
    else if qtype == 15 then U16(lib.mx(value).0) + QName(lib.mx(value).1)
    else if qtype == 16 then TxtData(value)
    else QName(value)
  }

  lemma LocalAnswerIs(lib: Library, h: Header, q: Question, value: Bytes)
    requires LR.IsKnown(q.qtype)
    ensures LocalAnswer(lib, h, q, value) == AnswerBytes(h, q, q.qtype, RdataOf(lib, q.qtype, value))
  {
  }

  lemma LocalResolution(domains: set<Bytes>, records: seq<LR.LocalRecord>, i: nat, c: State, rebind: bool,
                        lib: Library, h: Header, q: Question, up: Upstream, clock: Clock)
    requires !BL.Blocked(domains, q.qname) && LR.IsLast(records, i, q.qname, q.qtype)
    ensures var response := AnswerBytes(h, q, q.qtype, RdataOf(lib, q.qtype, records[i].value));
            Resolution(domains, records, c, rebind, lib, h, q, up, clock) == Outcome(Result(FromLocal, response), c)
  {
    LR.LastAnsweringIff(records, q.qname, q.qtype, records[i]);
    LocalAnswerIs(lib, h, q, records[i].value);
  }

  /** A name that is not blocked and has a local record of the queried type gets one answer with the
      value of the last such record, without touching cache or upstream. */
  lemma LocalSecond(domains: set<Bytes>, records: seq<LR.LocalRecord>, i: nat, c: State, rebind: bool,
                    lib: Library, h: Header, q: Question, up: Upstream, clock: Clock)
    requires !BL.Blocked(domains, q.qname) && LR.IsLast(records, i, q.qname, q.qtype) && WellFormed(q.qname)
    requires |RdataOf(lib, q.qtype, records[i].value)| <= 0xFFFF
    ensures var o := Resolution(domains, records, c, rebind, lib, h, q, up, clock);
            && o.result.source == FromLocal && o.cache == c
            && ResponseLaws.OneAnswer(o.result.response, h, q, q.qtype, RdataOf(lib, q.qtype, records[i].value))
  {
    LocalResolution(domains, records, i, c, rebind, lib, h, q, up, clock);
    ResponseLaws.AnswerWalks(h, q, q.qtype, RdataOf(lib, q.qtype, records[i].value));
  }

  /** A name that is neither blocked nor has a local record gets what the cache has for it, if anything. */
  lemma CacheThird(domains: set<Bytes>, records: seq<LR.LocalRecord>, c: State, rebind: bool,
                   lib: Library, h: Header, q: Question, up: Upstream, clock: Clock)
    requires !BL.Blocked(domains, q.qname) && LR.NoneAnswers(records, 0, q.qname, q.qtype)
    requires Hit(c, Key(q.qname, q.qtype), clock.got).Some?
    ensures Resolution(domains, records, c, rebind, lib, h, q, up, clock) ==
            Outcome(Result(FromCache, Hit(c, Key(q.qname, q.qtype), clock.got).value),
                    GetStep(c, Key(q.qname, q.qtype), clock.got))
  {
    LR.LastAnsweringIff(records, q.qname, q.qtype, LR.LocalRecord([], [], []));
  }

  /** Neither blocked, nor a local record, nor in the cache. */
  ghost predicate Missing(domains: set<Bytes>, records: seq<LR.LocalRecord>, c: State, q: Question, now: int)
  {
    !BL.Blocked(domains, q.qname) && LR.NoneAnswers(records, 0, q.qname, q.qtype) &&
    Hit(c, Key(q.qname, q.qtype), now).None?
  }

  /** Then, and only then, upstream is asked; what becomes of its answer is PassedOn. */
  lemma UpstreamLast(domains: set<Bytes>, records: seq<LR.LocalRecord>, c: State, rebind: bool,
                     lib: Library, h: Header, q: Question, up: Upstream, clock: Clock)
    ensures var r := Resolution(domains, records, c, rebind, lib, h, q, up, clock).result;
            && (r.source == FromUpstream <==> Missing(domains, records, c, q, clock.got))
            && (r.source == FromUpstream ==>
                  PassedOn(h, q, rebind, if up.dot.Some? then up.dot else up.udp, r.response))
  {
    LR.LastAnsweringIff(records, q.qname, q.qtype, LR.LocalRecord([], [], []));
    UpstreamPassedOn(h, q, rebind, up);
  }

  // ----- What the cache key leaves out -----

  lemma {:induction false} SameLocalAnswer(records: seq<LR.LocalRecord>, n1: Bytes, n2: Bytes, qtype: u16)
    requires Canon(n1) == Canon(n2)
    ensures LR.LastAnswering(records, n1, qtype) == LR.LastAnswering(records, n2, qtype)
  {
    if records == [] {
    } else {
      SameLocalAnswer(records[..|records| - 1], n1, n2, qtype);
    }
  }

  /** Whatever else differs, within the lifetime the next query for the same canonical name and type
      gets the upstream answer to the first one, out of the cache. */
  lemma SecondFromCache(domains: set<Bytes>, records: seq<LR.LocalRecord>, c: State, rebind: bool, lib: Library,
                        h1: Header, q1: Question, up1: Upstream, clock1: Clock,
                        h2: Header, q2: Question, up2: Upstream, clock2: Clock)
    requires var o := Resolution(domains, records, c, rebind, lib, h1, q1, up1, clock1);
             o.result.source.FromUpstream? && 0 < |o.result.response| <= c.maxBytes
    requires Canon(q1.qname) == Canon(q2.qname) && q1.qtype == q2.qtype && clock2.got < clock1.stamped + c.ttl
    ensures var o := Resolution(domains, records, c, rebind, lib, h1, q1, up1, clock1);
            Resolution(domains, records, o.cache, rebind, lib, h2, q2, up2, clock2).result ==
            Result(FromCache, o.result.response)
  {
    var o := Resolution(domains, records, c, rebind, lib, h1, q1, up1, clock1);
    var key := Key(q1.qname, q1.qtype);
    SameLocalAnswer(records, q1.qname, q2.qname, q1.qtype);
    CacheLaws.PutThenHit(GetStep(c, key, clock1.got), key, o.result.response, clock1.put, clock1.stamped, clock2.got);
  }

  /** What is answered over TLS decides alone: what UDP would say does not matter then, and without rebind
      protection the answer is passed on byte for byte; so is that over UDP when there is none over TLS. */
  lemma DotFirst(domains: set<Bytes>, records: seq<LR.LocalRecord>, c: State, rebind: bool,
                 lib: Library, h: Header, q: Question, up: Upstream, clock: Clock, udp: Option<Bytes>)
    ensures var o := Resolution(domains, records, c, rebind, lib, h, q, up, clock);
            && (up.dot.Some? ==> o == Resolution(domains, records, c, rebind, lib, h, q, up.(udp := udp), clock))
            && (o.result.source == FromUpstream && !rebind && up.dot.Some? ==> o.result.response == up.dot.value)
            && (o.result.source == FromUpstream && !rebind && up.dot.None? && up.udp.Some? ==>
                  o.result.response == up.udp.value)
  {
  }

  lemma StillMissed(c: State, key: Bytes, now: int, later: int)
    requires Hit(c, key, now).None?
    ensures Hit(GetStep(c, key, now), key, later).None?
  {
    var live := Keep(c.items, now, None);
    var found := Lookup(Keep(live, later, None), key);
    if found.Some? {
      CacheLaws.KeepMembers(live, later, None, found.value);
    }
  }

  /** An empty upstream answer is not kept: the next query for the same canonical name and type is put to
      upstream again. */
  lemma EmptyNotCached(domains: set<Bytes>, records: seq<LR.LocalRecord>, c: State, rebind: bool, lib: Library,
                       h1: Header, q1: Question, up1: Upstream, clock1: Clock,
                       h2: Header, q2: Question, up2: Upstream, clock2: Clock)
    requires var o := Resolution(domains, records, c, rebind, lib, h1, q1, up1, clock1);
             o.result == Result(FromUpstream, [])
    requires Canon(q1.qname) == Canon(q2.qname) && q1.qtype == q2.qtype
    ensures var o := Resolution(domains, records, c, rebind, lib, h1, q1, up1, clock1);
            Resolution(domains, records, o.cache, rebind, lib, h2, q2, up2, clock2).result.source.FromUpstream?
  {
    SameLocalAnswer(records, q1.qname, q2.qname, q1.qtype);
    StillMissed(c, Key(q1.qname, q1.qtype), clock1.got, clock2.got);
  }

  /** Recursion desired. */
  function Rd(h: Header): nat
  {
    h.flags / 0x100 % 2
  }

  lemma HeaderTail(h: Header, id: u16)
    ensures HeaderBytes(h.(id := id), 1, 0)[2..] == HeaderBytes(h, 1, 0)[2..]
    ensures HeaderBytes(h.(id := id), 1, 0)[..2] == U16(id)
  {
  }

  lemma ReplacedId(b: Bytes, rest: Bytes, id: u16)
    requires |b| >= 2
    ensures WithId(b + rest, id) == U16(id) + b[2..] + rest
  {
  }

  lemma HeaderWithId(h: Header, rest: Bytes, id: u16)
    ensures WithId(HeaderBytes(h, 1, 0) + rest, id) == HeaderBytes(h.(id := id), 1, 0) + rest
  {
    var b, b' := HeaderBytes(h, 1, 0), HeaderBytes(h.(id := id), 1, 0);
    HeaderTail(h, id);
    assert b' == U16(id) + b'[2..];
    ReplacedId(b, rest, id);
  }

  lemma HeadersAlike(h1: Header, h2: Header)
    requires h1.id == h2.id
    ensures HeaderBytes(h1, 1, 0) == HeaderBytes(h2, 1, 0) <==> Rd(h1) == Rd(h2)
  {
    ResponseLaws.HeaderReadsBack(h1, 1, 0, []);
    ResponseLaws.HeaderReadsBack(h2, 1, 0, []);
    assert HeaderBytes(h1, 1, 0) + [] == HeaderBytes(h1, 1, 0) && HeaderBytes(h2, 1, 0) + [] == HeaderBytes(h2, 1, 0);
  }

  lemma SameParts(a1: Bytes, b1: Bytes, a2: Bytes, b2: Bytes)
    requires |a1| == |a2|
    ensures a1 + b1 == a2 + b2 <==> a1 == a2 && b1 == b2
  {
    if a1 + b1 == a2 + b2 {
      assert a1 == (a1 + b1)[..|a1|] && a2 == (a2 + b2)[..|a2|];
      assert b1 == (a1 + b1)[|a1|..] && b2 == (a2 + b2)[|a2|..];
    }
  }

  lemma QuestionsAlikeIff(q1: Question, q2: Question)
    ensures QuestionBytes(q1) == QuestionBytes(q2) <==>
            QName(q1.qname) == QName(q2.qname) && q1.qtype == q2.qtype && q1.qclass == q2.qclass
  {
    var w1, w2 := U16(q1.qtype) + U16(q1.qclass), U16(q2.qtype) + U16(q2.qclass);
    assert w1 == w2 <==> q1.qtype == q2.qtype && q1.qclass == q2.qclass by {
      assert ReadU16(w1, 0) == q1.qtype && ReadU16(w1, 2) == q1.qclass;
      assert ReadU16(w2, 0) == q2.qtype && ReadU16(w2, 2) == q2.qclass;
    }
    if QuestionBytes(q1) == QuestionBytes(q2) {
      assert |QuestionBytes(q1)| == |QName(q1.qname)| + 4 && |QuestionBytes(q2)| == |QName(q2.qname)| + 4;
      SameParts(QName(q1.qname), w1, QName(q2.qname), w2);
    }
  }

  /** An empty response out of the cache, for a query with the same key, is the one the server would
      write for that query exactly if encoded name, type, class and RD are the same. */
  lemma CachedEmptyIff(h1: Header, q1: Question, h2: Header, q2: Question)
    ensures WithId(EmptyBytes(h1, q1), h2.id) == EmptyBytes(h2, q2) <==>
            QName(q1.qname) == QName(q2.qname) && q1.qtype == q2.qtype && q1.qclass == q2.qclass && Rd(h1) == Rd(h2)
  {
    var b1, b2 := HeaderBytes(h1.(id := h2.id), 1, 0), HeaderBytes(h2, 1, 0);
    assert WithId(EmptyBytes(h1, q1), h2.id) == b1 + QuestionBytes(q1) by {
      HeaderWithId(h1, QuestionBytes(q1), h2.id);
    }
    assert b1 == b2 <==> Rd(h1) == Rd(h2) by { HeadersAlike(h1.(id := h2.id), h2); }
    QuestionsAlikeIff(q1, q2);
    SameParts(b1, QuestionBytes(q1), b2, QuestionBytes(q2));
  }

  /** A query for class 3 gets the empty response to one for class 1. */
  lemma ClassIgnored(h: Header, lib: Library) returns (c: State, q1: Question, q2: Question, up: Upstream, clock: Clock)
    ensures q2 == q1.(qclass := 3)
    ensures var o := Resolution({}, [], c, false, lib, h, q1, up, clock);
            var r := Resolution({}, [], o.cache, false, lib, h, q2, up, clock).result;
            r == Result(FromCache, EmptyBytes(h, q1)) && WithId(r.response, h.id) != EmptyBytes(h, q2)
  {
    c, up, clock := State([], 100, 60), Upstream(None, None, []), Clock(0, 0, 0);
    q1 := Question([], TYPE_A, 1, 12, 5);
    q2 := q1.(qclass := 3);
    assert QName([]) == [0] && |EmptyBytes(h, q1)| == 17;
    SecondFromCache({}, [], c, false, lib, h, q1, up, clock, h, q2, up, clock);
    CachedEmptyIff(h, q1, h, q2);
  }

  // ----- The name of a client -----

  /** Without an address of four parts the name is a hyphen, and nothing is looked up. */
  lemma NoNameWithoutParts(domains: set<Bytes>, records: seq<LR.LocalRecord>, c: State, rebind: bool,
                           lib: Library, addr: Option<Bytes>, up: Upstream, clock: Clock)
    requires addr.Some? ==> |Split(addr.value, DOT)| != 4
    ensures NameFor(domains, records, c, rebind, lib, addr, up, clock) == Named(Ascii("-"), c)
  {
    assert Ascii("-") == UNKNOWN;
  }

  /** The question the server puts to itself for an address. */
  ghost function ReverseQuestion(addr: Bytes): Question
    requires |Split(addr, DOT)| == 4
  {
    var name := ArpaName(Split(addr, DOT));
    Question(name, 12, 1, 12, |PtrQuery(name)| - 12)
  }

  /** The header of that query: identifier 0x4242, recursion desired, one question. */
  const REVERSE_HEADER: Header := Header(0x4242, 0x0100, 1, 0, 0, 0)

  lemma ReverseAsked(addr: Bytes)
    requires |Split(addr, DOT)| == 4 && Sized(Split(addr, DOT))
    ensures var query := ReverseQuery(addr);
            && query.Some? && |query.value| >= 12 && HeaderOf(query.value) == REVERSE_HEADER
            && QuestionOf(query.value) == Some(ReverseQuestion(addr))
  {
    ReverseQueryParses(addr);
    ReverseJoined(Split(addr, DOT));
  }

  lemma Hyphen()
    ensures Ascii("-") == UNKNOWN
  {
  }

  /** The name in a response is the target of its first PTR answer, or a hyphen when there is none or it
      is the root. */
  lemma NameFromIs(p: Bytes)
    ensures forall t :: t != [] && PtrAnswer(p, t) ==> NameFrom(p) == t
    ensures (forall t :: PtrAnswer(p, t) ==> t == []) ==> NameFrom(p) == Ascii("-")
  {
    Hyphen();
    forall t
      ensures PtrTarget(p) == Some(t) <==> PtrAnswer(p, t)
    {
      PtrTargetIff(p, t);
    }
  }

  lemma NameForIs(domains: set<Bytes>, records: seq<LR.LocalRecord>, c: State, rebind: bool,
                  lib: Library, addr: Bytes, up: Upstream, clock: Clock, o: Outcome)
    requires |Split(addr, DOT)| == 4 && Sized(Split(addr, DOT))
    requires o == Resolution(domains, records, c, rebind, lib, REVERSE_HEADER, ReverseQuestion(addr), up, clock)
    ensures NameFor(domains, records, c, rebind, lib, Some(addr), up, clock) ==
            Named(NameFrom(o.result.response), o.cache)
  {
    ReverseAsked(addr);
  }

  /** The name is the target of the first PTR record in what the reverse query resolves to, or a hyphen
      when there is none or it is the root. */
  lemma ClientNameIs(domains: set<Bytes>, records: seq<LR.LocalRecord>, c: State, rebind: bool,
                     lib: Library, addr: Bytes, up: Upstream, clock: Clock, o: Outcome)
    requires |Split(addr, DOT)| == 4 && Sized(Split(addr, DOT))
    requires o == Resolution(domains, records, c, rebind, lib, REVERSE_HEADER, ReverseQuestion(addr), up, clock)
    ensures var named, p := NameFor(domains, records, c, rebind, lib, Some(addr), up, clock), o.result.response;
            && named.cache == o.cache
            && (forall t :: t != [] && PtrAnswer(p, t) ==> named.name == t)
            && ((forall t :: PtrAnswer(p, t) ==> t == []) ==> named.name == Ascii("-"))
  {
    NameForIs(domains, records, c, rebind, lib, addr, up, clock, o);
    NameFromIs(o.result.response);
  }

  /** End to end: a client whose address has a local PTR record, last of its kind and not blocked, goes
      by the name in it, less a trailing dot. */
  lemma ClientNamedByRecord(domains: set<Bytes>, records: seq<LR.LocalRecord>, i: nat, c: State, rebind: bool,
                            lib: Library, addr: Bytes, up: Upstream, clock: Clock)
    requires |Split(addr, DOT)| == 4 && Sized(Split(addr, DOT))
    requires var name := ArpaName(Split(addr, DOT)); !BL.Blocked(domains, name) && LR.IsLast(records, i, name, 12)
    requires var target := records[i].value;
             WellFormed(target) && |QName(target)| <= 0xFFFF && Undotted(target) != []
    ensures NameFor(domains, records, c, rebind, lib, Some(addr), up, clock) == Named(Undotted(records[i].value), c)
  {
    var h, q, target := REVERSE_HEADER, ReverseQuestion(addr), records[i].value;
    var o := Outcome(Result(FromLocal, AnswerBytes(h, q, TYPE_PTR, QName(target))), c);
    assert WellFormed(q.qname) by { ReverseQueryParses(addr); }
    LocalResolution(domains, records, i, c, rebind, lib, h, q, up, clock);
    NameForIs(domains, records, c, rebind, lib, addr, up, clock, o);
    ResponseLaws.PtrRoundTrip(h, q, target);
  }
}
