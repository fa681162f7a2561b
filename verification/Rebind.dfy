/** What rebind protection guarantees: the interleaved walk refines "walk, then zero", it is
    idempotent on every packet, and its output stays free of private addresses whatever
    identifier is patched in afterwards. */
module Rebind {
  import opened Bytes
  import opened Names
  import opened Message
  import opened Rewrite

  /** Octet `i` of `p` belongs to the RDATA of a private A record among `records`. */
  ghost predicate InPrivateRdata(p: Bytes, records: seq<Record>, i: nat)
  {
    exists k :: 0 <= k < |records| && IsPrivate(p, records[k]) && records[k].Rdata() <= i < records[k].Next()
  }

  ghost predicate HasPrivate(p: Bytes, records: seq<Record>)
  {
    exists k :: 0 <= k < |records| && IsPrivate(p, records[k])
  }

  /** The second phase on its own: given what a read-only walk found, zero the four octets of
      every private A record and nothing else. */
  ghost function ZeroPrivate(p: Bytes, records: seq<Record>): Bytes
  {
    seq(|p|, i requires 0 <= i < |p| => if InPrivateRdata(p, records, i) then 0 else p[i])
  }

  lemma {:induction false} RecordItem(p: Bytes, off: nat, n: nat, i: nat)
    requires Records(p, off, n).Walked? && i < n
    ensures var w := Records(p, off, n);
            RecordAt(p, w.items[i].start) == Some(w.items[i]) &&
            off <= w.items[i].start && w.items[i].Next() <= w.end
    decreases n
  {
    if i == 0 {
    } else {
      var next := RecordAt(p, off).value.Next();
      RecordItem(p, next, n - 1, i - 1);
      assert Records(p, off, n).items[i] == Records(p, next, n - 1).items[i - 1];
    }
  }

  lemma HasPrivateCons(p: Bytes, r: Record, rest: seq<Record>)
    ensures HasPrivate(p, [r] + rest) <==> IsPrivate(p, r) || HasPrivate(p, rest)
  {
    var all := [r] + rest;
    assert all[0] == r;
    assert forall k :: 0 <= k < |rest| ==> rest[k] == all[k + 1];
  }

  lemma InPrivateCons(p: Bytes, r: Record, rest: seq<Record>, i: nat)
    ensures InPrivateRdata(p, [r] + rest, i) <==>
            (IsPrivate(p, r) && r.Rdata() <= i < r.Next()) || InPrivateRdata(p, rest, i)
  {
    var all := [r] + rest;
    assert all[0] == r;
    assert forall k :: 0 <= k < |rest| ==> rest[k] == all[k + 1];
  }

  /** Scrubbing a record does not change which later records are private. */
  lemma ScrubKeepsLater(p: Bytes, r: Record, n: nat)
    requires RecordAt(p, r.start) == Some(r) && Records(p, r.Next(), n).Walked?
    ensures var rest, q := Records(p, r.Next(), n), Scrub(p, r);
            && Records(q, r.Next(), n) == rest
            && (HasPrivate(q, rest.items) <==> HasPrivate(p, rest.items))
            && forall i: nat :: InPrivateRdata(q, rest.items, i) <==> InPrivateRdata(p, rest.items, i)
  {
    var rest, q := Records(p, r.Next(), n), Scrub(p, r);
    if IsPrivate(p, r) {
      ZeroKeepsLaterRecords(p, r.Rdata(), r.Next(), n);
    }
    forall k | 0 <= k < |rest.items|
      ensures IsPrivate(q, rest.items[k]) <==> IsPrivate(p, rest.items[k])
    {
      RecordItem(p, r.Next(), n, k);
    }
  }

  /** The interleaved loop goes through `records`, zeroes exactly their private RDATA, and tells. */
  ghost predicate Refined(p: Bytes, w: Rewritten, records: seq<Record>)
  {
    w.ok && w.records == records && w.bytes == ZeroPrivate(p, records) && (w.replaced <==> HasPrivate(p, records))
  }

  lemma ZeroPrivateCons(p: Bytes, r: Record, rest: seq<Record>)
    requires forall i: nat :: InPrivateRdata(Scrub(p, r), rest, i) <==> InPrivateRdata(p, rest, i)
    ensures ZeroPrivate(Scrub(p, r), rest) == ZeroPrivate(p, [r] + rest)
  {
    forall i | 0 <= i < |p|
      ensures ZeroPrivate(Scrub(p, r), rest)[i] == ZeroPrivate(p, [r] + rest)[i]
    {
      InPrivateCons(p, r, rest, i);
    }
  }

  /** Scrubbing the first record and zeroing the others is zeroing all. */
  lemma ScrubThenZero(p: Bytes, r: Record, n: nat)
    requires RecordAt(p, r.start) == Some(r) && Records(p, r.Next(), n).Walked?
    ensures var rest, q := Records(p, r.Next(), n).items, Scrub(p, r);
            && ZeroPrivate(q, rest) == ZeroPrivate(p, [r] + rest)
            && (IsPrivate(p, r) || HasPrivate(q, rest) <==> HasPrivate(p, [r] + rest))
  {
    ScrubKeepsLater(p, r, n);
    HasPrivateCons(p, r, Records(p, r.Next(), n).items);
    ZeroPrivateCons(p, r, Records(p, r.Next(), n).items);
  }

  lemma RefinedCons(p: Bytes, r: Record, q: Bytes, v: Rewritten, w: Rewritten, rest: seq<Record>)
    requires Refined(q, v, rest) && ZeroPrivate(q, rest) == ZeroPrivate(p, [r] + rest)
    requires IsPrivate(p, r) || HasPrivate(q, rest) <==> HasPrivate(p, [r] + rest)
    requires w == Rewritten(v.ok, v.bytes, IsPrivate(p, r) || v.replaced, [r] + v.records)
    ensures Refined(p, w, [r] + rest)
  {
  }

  /** The interleaved record loop refines the two phases. */
  lemma {:induction false} RecordsRefine(p: Bytes, off: nat, n: nat)
    requires Records(p, off, n).Walked?
    ensures Refined(p, RewriteRecords(p, off, n), Records(p, off, n).items)
    decreases n
  {
    if n == 0 {
    } else {
      var r := RecordAt(p, off).value;
      var q, rest := Scrub(p, r), Records(p, r.Next(), n - 1).items;
      ScrubKeepsLater(p, r, n - 1);
      RecordsRefine(q, r.Next(), n - 1);
      ScrubThenZero(p, r, n - 1);
      RefinedCons(p, r, q, RewriteRecords(q, r.Next(), n - 1), RewriteRecords(p, off, n), rest);
    }
  }

  /** Whenever a read-only walk of a packet succeeds, the in-place rewrite succeeds with the same
      records, zeroes exactly the RDATA of the private A records that walk found, and reports
      whether there was one. */
  lemma RewriteRefinesTwoPhases(p: Bytes)
    requires Walk(p).Some?
    ensures var w, records := RewriteAll(p), Walk(p).value.records;
            w.ok && w.records == records && w.bytes == ZeroPrivate(p, records) &&
            (w.replaced <==> HasPrivate(p, records))
  {
    RecordsRefine(p, Questions(p, 12, ReadU16(p, 4)).end, RecordCount(p));
  }

  /** A read-only walk of `q` finds exactly `records`, none of them private. */
  ghost predicate Settled(q: Bytes, off: nat, n: nat, records: seq<Record>)
  {
    Records(q, off, n).Walked? && Records(q, off, n).items == records && !HasPrivate(q, records)
  }

  lemma SettledCons(q: Bytes, off: nat, n: nat, r: Record, rest: seq<Record>)
    requires RecordAt(q, off) == Some(r) && !IsPrivate(q, r) && Settled(q, r.Next(), n, rest)
    ensures Settled(q, off, n + 1, [r] + rest)
  {
    HasPrivateCons(q, r, rest);
  }

  lemma ScrubSettles(p: Bytes, r: Record)
    requires RecordAt(p, r.start) == Some(r)
    ensures RecordAt(Scrub(p, r), r.start) == Some(r) && !IsPrivate(Scrub(p, r), r)
  {
    if IsPrivate(p, r) {
      ZeroKeepsRecord(p, r.Rdata(), r.start);
    }
  }

  /** A record is what its octets and the end of its name say. */
  lemma SameOctetsSameRecord(p: Bytes, q: Bytes, r: Record)
    requires RecordAt(p, r.start) == Some(r)
    requires |q| == |p| && q[..r.Next()] == p[..r.Next()]
    requires Decode(q, r.start, MAX_JUMPS).Name? && Decode(q, r.start, MAX_JUMPS).end == r.nameEnd
    ensures RecordAt(q, r.start) == Some(r) && (IsPrivate(q, r) <==> IsPrivate(p, r))
  {
    assert forall i :: 0 <= i < r.Next() ==> q[i] == q[..r.Next()][i] == p[..r.Next()][i] == p[i];
  }

  /** Rewriting from the end of a record on leaves that record, and its privacy, as it was. */
  lemma LaterRewriteKeepsRecord(p: Bytes, r: Record, n: nat)
    requires RecordAt(p, r.start) == Some(r)
    ensures var q := RewriteRecords(p, r.Next(), n).bytes;
            RecordAt(q, r.start) == Some(r) && (IsPrivate(q, r) <==> IsPrivate(p, r))
  {
    RewriteKeepsName(p, r.Next(), n, r.start, MAX_JUMPS);
    RewriteKeepsEarlier(p, r.Next(), n);
    SameOctetsSameRecord(p, RewriteRecords(p, r.Next(), n).bytes, r);
  }

  /** Once dealt with, a record is found again and is not private, whatever happens later. */
  lemma ScrubbedStays(p: Bytes, r: Record, n: nat)
    requires RecordAt(p, r.start) == Some(r)
    ensures var q := RewriteRecords(Scrub(p, r), r.Next(), n).bytes;
            RecordAt(q, r.start) == Some(r) && !IsPrivate(q, r)
  {
    ScrubSettles(p, r);
    LaterRewriteKeepsRecord(Scrub(p, r), r, n);
  }

  lemma SettleRest(p: Bytes, r: Record, n: nat)
    requires RecordAt(p, r.start) == Some(r)
    ensures var rest := RewriteRecords(Scrub(p, r), r.Next(), n);
            Settled(rest.bytes, r.Next(), n, rest.records) ==>
            Settled(rest.bytes, r.start, n + 1, [r] + rest.records)
  {
    var rest := RewriteRecords(Scrub(p, r), r.Next(), n);
    ScrubbedStays(p, r, n);
    if Settled(rest.bytes, r.Next(), n, rest.records) {
      SettledCons(rest.bytes, r.start, n, r, rest.records);
    }
  }

  lemma SettleStep(p: Bytes, off: nat, n: nat, r: Record)
    requires n > 0 && RecordAt(p, off) == Some(r)
    ensures var w, rest := RewriteRecords(p, off, n), RewriteRecords(Scrub(p, r), r.Next(), n - 1);
            Settled(rest.bytes, r.Next(), n - 1, rest.records) ==> Settled(w.bytes, off, n, w.records)
  {
    RewriteUnfolds(p, off, n, r);
    SettleRest(p, r, n - 1);
  }

  /** After a successful record loop the same records are found again, none of them private. */
  lemma {:induction false} RecordsSettle(p: Bytes, off: nat, n: nat)
    requires RewriteRecords(p, off, n).ok
    ensures var w := RewriteRecords(p, off, n); Settled(w.bytes, off, n, w.records)
    decreases n
  {
    if n == 0 {
    } else {
      var r := RecordAt(p, off).value;
      RecordsSettle(Scrub(p, r), r.Next(), n - 1);
      SettleStep(p, off, n, r);
    }
  }

  lemma SamePrefixSameHeader(p: Bytes, q: Bytes, n: nat)
    requires 12 <= n <= |p| == |q| && p[..n] == q[..n]
    ensures HeaderOf(p) == HeaderOf(q)
  {
    assert forall i :: 0 <= i < n ==> q[i] == q[..n][i] == p[..n][i] == p[i];
  }

  lemma {:induction false} EndInBounds(p: Bytes, off: nat, n: nat)
    requires Questions(p, off, n).Walked? && off <= |p|
    ensures Questions(p, off, n).end <= |p|
    decreases n
  {
    if n == 0 {
    } else {
      EndInBounds(p, QuestionAt(p, off).value.nameEnd + 4, n - 1);
    }
  }

  /** Whatever the rewrite does, the header stays. */
  lemma RewriteKeepsHeader(p: Bytes)
    requires |p| >= 12
    ensures HeaderOf(RewriteAll(p).bytes) == HeaderOf(p)
  {
    var questions := Questions(p, 12, ReadU16(p, 4));
    if questions.Walked? {
      EndInBounds(p, 12, ReadU16(p, 4));
      RewriteKeepsEarlier(p, questions.end, RecordCount(p));
      SamePrefixSameHeader(p, RewriteAll(p).bytes, questions.end);
    }
  }

  /** A second walk of rewritten bytes finds the layout the rewrite went through. */
  lemma RewrittenWalks(p: Bytes)
    requires RewriteAll(p).ok
    ensures var w := RewriteAll(p);
            var layout := Walk(w.bytes);
            layout.Some? && layout.value.records == w.records && !HasPrivate(w.bytes, w.records) &&
            layout.value.questions == Questions(p, 12, ReadU16(p, 4)).items
  {
    var q, qdcount := RewriteAll(p).bytes, ReadU16(p, 4);
    var off := Questions(p, 12, qdcount).end;
    RewriteKeepsHeader(p);
    RewriteKeepsQuestions(p, 12, qdcount, off, RecordCount(p));
    RecordsSettle(p, off, RecordCount(p));
  }

  // ----- The rewrite, octet by octet -----

  /** An A record, type 1, with an address in 10.0.0.0/8, 172.16.0.0/12 or 192.168.0.0/16. */
  ghost predicate PrivateAddress(p: Bytes, r: Record)
  {
    var at := r.nameEnd + 10;
    r.rtype == 1 && r.rdlength == 4 && at + 4 <= |p| &&
    var n := Number(p[at], p[at + 1], p[at + 2], p[at + 3]);
    0x0A00_0000 <= n <= 0x0AFF_FFFF || 0xAC10_0000 <= n <= 0xAC1F_FFFF || 0xC0A8_0000 <= n <= 0xC0A8_FFFF
  }

  ghost predicate AnyPrivate(p: Bytes, records: seq<Record>)
  {
    exists k :: 0 <= k < |records| && PrivateAddress(p, records[k])
  }

  ghost predicate InPrivateAddress(p: Bytes, records: seq<Record>, i: nat)
  {
    exists k :: 0 <= k < |records| && PrivateAddress(p, records[k]) &&
                records[k].nameEnd + 10 <= i < records[k].nameEnd + 14
  }

  /** `q` is `p` with the four octets of each private address among the records zeroed and every other
      octet as it was; `replaced` says whether there was one. */
  ghost predicate Zeroed(p: Bytes, q: Bytes, replaced: bool, records: seq<Record>)
  {
    && |q| == |p| && (replaced <==> AnyPrivate(p, records))
    && forall i :: 0 <= i < |p| ==> q[i] == if InPrivateAddress(p, records, i) then 0 else p[i]
  }

  lemma PrivateIff(p: Bytes, r: Record)
    ensures IsPrivate(p, r) <==> PrivateAddress(p, r)
  {
    var at := r.nameEnd + 10;
    if at + 4 <= |p| {
      PrivateBlocks(p[at], p[at + 1], p[at + 2], p[at + 3]);
    }
  }

  lemma ZeroedIff(p: Bytes, q: Bytes, replaced: bool, records: seq<Record>)
    ensures Zeroed(p, q, replaced, records) <==>
            q == ZeroPrivate(p, records) && (replaced <==> HasPrivate(p, records))
  {
    forall k | 0 <= k < |records|
      ensures IsPrivate(p, records[k]) <==> PrivateAddress(p, records[k])
    {
      PrivateIff(p, records[k]);
    }
    assert forall i: nat :: InPrivateAddress(p, records, i) <==> InPrivateRdata(p, records, i);
  }

  /** The records the loop goes through from `off` on start there or later. */
  lemma RewrittenStarts(p: Bytes, off: nat, n: nat)
    requires RewriteRecords(p, off, n).ok
    ensures var records := RewriteRecords(p, off, n).records;
            forall k :: 0 <= k < |records| ==> off <= records[k].start < records[k].nameEnd
  {
    var w := RewriteRecords(p, off, n);
    RecordsSettle(p, off, n);
    forall k | 0 <= k < |w.records|
      ensures off <= w.records[k].start < w.records[k].nameEnd
    {
      RecordItem(w.bytes, off, n, k);
    }
  }

  /** Scrubbing a record does not change which of the later ones are private. */
  lemma ScrubKeepsPrivate(p: Bytes, r: Record, rest: seq<Record>)
    requires forall k :: 0 <= k < |rest| ==> r.Next() <= rest[k].start < rest[k].nameEnd
    ensures HasPrivate(Scrub(p, r), rest) <==> HasPrivate(p, rest)
    ensures forall i: nat :: InPrivateRdata(Scrub(p, r), rest, i) <==> InPrivateRdata(p, rest, i)
  {
    assert forall k :: 0 <= k < |rest| ==> (IsPrivate(Scrub(p, r), rest[k]) <==> IsPrivate(p, rest[k]));
  }

  /** Whenever the record loop gets through, it has zeroed exactly the private RDATA of the records it
      went through. */
  lemma {:induction false} RecordsZeroed(p: Bytes, off: nat, n: nat)
    requires RewriteRecords(p, off, n).ok
    ensures var w := RewriteRecords(p, off, n);
            w.bytes == ZeroPrivate(p, w.records) && (w.replaced <==> HasPrivate(p, w.records))
    decreases n
  {
    if n == 0 {
    } else {
      var r := RecordAt(p, off).value;
      var rest := RewriteRecords(Scrub(p, r), r.Next(), n - 1);
      RecordsZeroed(Scrub(p, r), r.Next(), n - 1);
      RewrittenStarts(Scrub(p, r), r.Next(), n - 1);
      ScrubKeepsPrivate(p, r, rest.records);
      RewriteUnfolds(p, off, n, r);
      HasPrivateCons(p, r, rest.records);
      ZeroPrivateCons(p, r, rest.records);
    }
  }

  /** Whenever the rewrite succeeds, what it leaves behind is laid out, and is the packet with exactly
      the private addresses of that layout zeroed. */
  lemma RewriteZeroes(p: Bytes) returns (layout: Layout)
    requires RewriteAll(p).ok
    ensures LaidOut(RewriteAll(p).bytes, layout)
    ensures Zeroed(p, RewriteAll(p).bytes, RewriteAll(p).replaced, layout.records)
  {
    RewrittenWalks(p);
    layout := Walk(RewriteAll(p).bytes).value;
    WalkIffLaidOut(RewriteAll(p).bytes, layout);
    RecordsZeroed(p, Questions(p, 12, ReadU16(p, 4)).end, RecordCount(p));
    ZeroedIff(p, RewriteAll(p).bytes, RewriteAll(p).replaced, layout.records);
  }

  /** A message with records in all three sections: the rewrite gets to each of them, the last of the
      additional section included. */
  lemma RewriteReachesAll(p: Bytes, layout: Layout)
    requires LaidOut(p, layout)
    ensures RewriteAll(p).ok && Zeroed(p, RewriteAll(p).bytes, RewriteAll(p).replaced, layout.records)
  {
    WalkIffLaidOut(p, layout);
    RewriteRefinesTwoPhases(p);
    ZeroedIff(p, RewriteAll(p).bytes, RewriteAll(p).replaced, layout.records);
  }

  /** What the rewrite of `p` to `q` is for: on a message that is laid out it succeeds and zeroes the
      private addresses in all sections; whenever it succeeds, `q` is laid out and differs just so. */
  ghost predicate RightRewrite(p: Bytes, q: Bytes, ok: bool, rewritten: bool)
  {
    && (forall layout :: LaidOut(p, layout) ==> ok && Zeroed(p, q, rewritten, layout.records))
    && (ok ==> exists layout :: LaidOut(q, layout) && Zeroed(p, q, rewritten, layout.records))
  }

  lemma RewriteIsRight(p: Bytes)
    ensures RightRewrite(p, RewriteAll(p).bytes, RewriteAll(p).ok, RewriteAll(p).replaced)
  {
    forall layout | LaidOut(p, layout)
      ensures RewriteAll(p).ok && Zeroed(p, RewriteAll(p).bytes, RewriteAll(p).replaced, layout.records)
    {
      RewriteReachesAll(p, layout);
    }
    if RewriteAll(p).ok {
      var layout := RewriteZeroes(p);
    }
  }

  lemma FailureIsRight(p: Bytes, q: Bytes, replaced: bool, other: bool)
    requires RightRewrite(p, q, false, replaced)
    ensures RightRewrite(p, q, false, other)
  {
  }

  method RewritePrivateARecordsToZero(packet: array<byte>) returns (ok: bool, rewritten: bool)
    modifies packet
    ensures var w := RewriteAll(old(packet[..]));
            ok == w.ok && packet[..] == w.bytes && (ok ==> rewritten == w.replaced)
    ensures RightRewrite(old(packet[..]), packet[..], ok, rewritten)
  {
    ghost var p := packet[..];
    RewriteIsRight(p);
    if !RewriteAll(p).ok {
      FailureIsRight(p, RewriteAll(p).bytes, RewriteAll(p).replaced, false);
      FailureIsRight(p, RewriteAll(p).bytes, RewriteAll(p).replaced, true);
    }
    ok, rewritten := false, false;
    if packet.Length < 12 {
      return;
    }
    var header := HeaderOf(packet[..]);
    var walked, offset: nat := WalkQuestions(packet[..], header.qdcount);
    if !walked {
      return;
    }
    var rrCount: nat := header.ancount as int + header.nscount as int + header.arcount as int;
    ok, rewritten := RewriteRest(packet, offset, rrCount);
  }

  /** Idempotence on every packet: after a successful rewrite a second one succeeds, reports
      nothing rewritten, goes through the same records and changes nothing. */
  lemma RewriteIdempotent(p: Bytes)
    requires RewriteAll(p).ok
    ensures var w := RewriteAll(p);
            RewriteAll(w.bytes) == Rewritten(true, w.bytes, false, w.records)
  {
    var w := RewriteAll(p);
    RewrittenWalks(p);
    RewriteRefinesTwoPhases(w.bytes);
    assert forall i: nat :: !InPrivateRdata(w.bytes, w.records, i);
  }

  /** An A record for 172.16.x.x at offset 12 and a record whose name points at its address. */
  ghost predicate PointsAtAddress(p: Bytes)
  {
    && |p| == 39
    && ReadU16(p, 4) == 0 && ReadU16(p, 6) == 2 && ReadU16(p, 8) == 0 && ReadU16(p, 10) == 0
    && p[12] == 0 && ReadU16(p, 13) == TYPE_A && ReadU16(p, 21) == 4 && p[23] == 172 && p[24] == 16
    && p[27] == 192 && p[28] == 23 && ReadU16(p, 37) == 0
  }

  /** A walk of `n` records from `off` breaks off. */
  ghost predicate Breaks(q: Bytes, off: nat, n: nat)
  {
    Records(q, off, n).Stuck?
  }

  lemma StickRest(p: Bytes, r: Record, n: nat)
    requires RecordAt(p, r.start) == Some(r)
    ensures var q := RewriteRecords(Scrub(p, r), r.Next(), n).bytes;
            Breaks(q, r.Next(), n) ==> Breaks(q, r.start, n + 1)
  {
    ScrubbedStays(p, r, n);
  }

  lemma StickStep(p: Bytes, off: nat, n: nat, r: Record)
    requires n > 0 && RecordAt(p, off) == Some(r)
    requires Breaks(RewriteRecords(Scrub(p, r), r.Next(), n - 1).bytes, r.Next(), n - 1)
    ensures Breaks(RewriteRecords(p, off, n).bytes, off, n)
  {
    RewriteUnfolds(p, off, n, r);
    StickRest(p, r, n - 1);
  }

  /** A failing record loop leaves bytes on which a read-only walk is stuck too. */
  lemma {:induction false} FailedRecordsStick(p: Bytes, off: nat, n: nat)
    requires !RewriteRecords(p, off, n).ok
    ensures Breaks(RewriteRecords(p, off, n).bytes, off, n)
    decreases n
  {
    if RecordAt(p, off).None? {
    } else {
      var r := RecordAt(p, off).value;
      FailedRecordsStick(Scrub(p, r), r.Next(), n - 1);
      StickStep(p, off, n, r);
    }
  }

  lemma StuckWalk(q: Bytes, off: nat, n: nat)
    requires |q| >= 12 && n == RecordCount(q) && Records(q, off, n).Stuck?
    requires Questions(q, 12, ReadU16(q, 4)).Walked? && Questions(q, 12, ReadU16(q, 4)).end == off
    ensures Walk(q).None?
  {
  }

  lemma FailedRewriteSticks(p: Bytes)
    requires !RewriteAll(p).ok
    ensures Walk(RewriteAll(p).bytes).None?
  {
    if |p| >= 12 && Questions(p, 12, ReadU16(p, 4)).Walked? {
      var w, off := RewriteAll(p), Questions(p, 12, ReadU16(p, 4)).end;
      RewriteKeepsHeader(p);
      RewriteKeepsQuestions(p, 12, ReadU16(p, 4), off, RecordCount(p));
      FailedRecordsStick(p, off, RecordCount(p));
      StuckWalk(w.bytes, off, RecordCount(p));
    }
  }

  /** The rewrite succeeds exactly when the bytes it leaves behind can be walked. */
  lemma RewriteOkIffOutputWalks(p: Bytes)
    ensures RewriteAll(p).ok <==> Walk(RewriteAll(p).bytes).Some?
  {
    if RewriteAll(p).ok {
      RewrittenWalks(p);
    } else {
      FailedRewriteSticks(p);
    }
  }

  lemma PointerToAddress(p: Bytes)
    requires PointsAtAddress(p)
    ensures RecordAt(p, 27).None?
    ensures var q := Zero4(p, 23); RecordAt(q, 27) == Some(Record(27, 29, ReadU16(q, 29), 0))
  {
    assert Target(p, 27) == 23 && Decode(p, 23, 15).Malformed?;
    var q := Zero4(p, 23);
    assert Target(q, 27) == 23 && Decode(q, 23, 15) == Name([], 24);
  }

  /** The converse of RewriteRefinesTwoPhases fails: 172 is no label length, so a read-only walk
      stops at the second name; the rewrite has zeroed that octet by then and reads the root. */
  lemma RewriteAcceptsMore(p: Bytes)
    requires PointsAtAddress(p)
    ensures RewriteAll(p).ok && Walk(p).None?
  {
    var r := Record(12, 13, TYPE_A, 4);
    assert RecordAt(p, 12) == Some(r);
    PointerToAddress(p);
    assert Records(p, 27, 1).Stuck?;
    var q := Zero4(p, 23);
    assert Scrub(p, r) == q && r.Next() == 27;
    var s := Record(27, 29, ReadU16(q, 29), 0);
    assert RewriteRecords(Scrub(q, s), 39, 0).ok;
    assert RewriteRecords(q, 27, 1).ok;
    assert Questions(p, 12, 0) == Walked([], 12);
  }

  lemma AddressPointerExists() returns (p: Bytes)
    ensures PointsAtAddress(p)
  {
    var header: Bytes := [0, 0, 0, 0, 0, 0, 0, 2, 0, 0, 0, 0];
    var first: Bytes := [0, 0, 1, 0, 1, 0, 0, 0, 60, 0, 4, 172, 16, 1, 1];
    var second: Bytes := [192, 23, 0, 16, 0, 1, 0, 0, 0, 60, 0, 0];
    p := header + first + second;
  }

  /** Every record name that a read-only walk of `n` records from `off` gets to can be read. */
  ghost predicate NamesReadable(p: Bytes, off: nat, n: nat)
  {
    forall k: nat :: k < n && Records(p, off, k).Walked? ==> Decode(p, Records(p, off, k).end, MAX_JUMPS).Name?
  }

  /** One more record can be walked exactly when there is one at the end of those before. */
  lemma {:induction false} RecordsSnoc(p: Bytes, off: nat, k: nat)
    requires Records(p, off, k).Walked?
    ensures Records(p, off, k + 1).Walked? <==> RecordAt(p, Records(p, off, k).end).Some?
    decreases k
  {
    if k == 0 {
      assert RecordAt(p, off).Some? ==> Records(p, RecordAt(p, off).value.Next(), 0).Walked?;
    } else {
      RecordsSnoc(p, RecordAt(p, off).value.Next(), k - 1);
    }
  }

  /** What can be walked can be walked in part, and finds the first of the same records. */
  lemma {:induction false} RecordsPrefix(p: Bytes, off: nat, n: nat, k: nat)
    requires k <= n && Records(p, off, n).Walked?
    ensures Records(p, off, k).Walked? && Records(p, off, k).items == Records(p, off, n).items[..k]
    decreases k
  {
    if k == 0 {
    } else {
      var r := RecordAt(p, off).value;
      RecordsPrefix(p, r.Next(), n - 1, k - 1);
      assert ([r] + Records(p, r.Next(), n - 1).items)[..k] == [r] + Records(p, r.Next(), n - 1).items[..k - 1];
    }
  }

  lemma SameOctetsBehind(p: Bytes, q: Bytes, r: Record, from: nat)
    requires |p| == |q| && from <= r.start && forall i :: from <= i < |p| ==> p[i] == q[i]
    requires RecordAt(q, r.start) == Some(r)
    requires Decode(p, r.start, MAX_JUMPS).Name? && Decode(p, r.start, MAX_JUMPS).end == r.nameEnd
    ensures RecordAt(p, r.start) == Some(r)
  {
  }

  lemma RecordBeforeZero(p: Bytes, q: Bytes, at: nat, r: Record)
    requires Zeroable(p, at) && at + 4 <= r.start && q == Zero4(p, at)
    requires RecordAt(q, r.start) == Some(r) && Decode(p, r.start, MAX_JUMPS).Name?
    ensures RecordAt(p, r.start) == Some(r)
  {
    assert Decode(p, r.start, MAX_JUMPS).end == r.nameEnd by { ZeroKeepsName(p, at, r.start, MAX_JUMPS); }
    SameOctetsBehind(p, q, r, at + 4);
  }

  /** Scrubbing a record neither moves the walk over later ones nor spoils a name. */
  lemma ScrubKeepsPart(p: Bytes, q: Bytes, r: Record, k: nat, end: nat)
    requires RecordAt(p, r.start) == Some(r) && q == Scrub(p, r)
    requires Records(p, r.Next(), k).Walked? && Records(p, r.Next(), k).end == end
    requires Decode(p, end, MAX_JUMPS).Name?
    ensures Records(q, r.Next(), k).Walked? && Records(q, r.Next(), k).end == end
    ensures Decode(q, end, MAX_JUMPS).Name?
  {
    if IsPrivate(p, r) {
      ZeroKeepsLaterRecords(p, r.Rdata(), r.Next(), k);
      ZeroKeepsName(p, r.Rdata(), end, MAX_JUMPS);
    }
  }

  lemma RecordBeforeScrub(p: Bytes, q: Bytes, r: Record, later: Record)
    requires RecordAt(p, r.start) == Some(r) && q == Scrub(p, r) && r.Next() <= later.start
    requires RecordAt(q, later.start) == Some(later) && Decode(p, later.start, MAX_JUMPS).Name?
    ensures RecordAt(p, later.start) == Some(later)
  {
    if IsPrivate(p, r) {
      RecordBeforeZero(p, q, r.Rdata(), later);
    }
  }

  /** Where a read-only walk stands after `k` records, the rewrite found a record; if its name can
      be read in the original, so can the record. */
  lemma {:induction false} NextRecord(p: Bytes, off: nat, n: nat, k: nat, end: nat)
    requires k < n && RewriteRecords(p, off, n).ok
    requires Records(p, off, k).Walked? && Records(p, off, k).end == end && Decode(p, end, MAX_JUMPS).Name?
    ensures RecordAt(p, end).Some?
    decreases k
  {
    if k == 0 {
    } else {
      var r := RecordAt(p, off).value;
      var q := Scrub(p, r);
      ScrubKeepsPart(p, q, r, k - 1, end);
      NextRecord(q, r.Next(), n - 1, k - 1, end);
      RecordBeforeScrub(p, q, r, RecordAt(q, end).value);
    }
  }

  lemma ReadableStep(p: Bytes, off: nat, n: nat, k: nat)
    requires RewriteRecords(p, off, n).ok && NamesReadable(p, off, n) && k < n && Records(p, off, k).Walked?
    ensures Records(p, off, k + 1).Walked?
  {
    NextRecord(p, off, n, k, Records(p, off, k).end);
    RecordsSnoc(p, off, k);
  }

  /** From every record a walk gets to it gets to the next. */
  ghost predicate GoesOn(p: Bytes, off: nat, n: nat)
  {
    forall k: nat :: k < n && Records(p, off, k).Walked? ==> Records(p, off, k + 1).Walked?
  }

  lemma {:induction false} GoesToTheEnd(p: Bytes, off: nat, n: nat, k: nat)
    requires GoesOn(p, off, n) && k <= n
    ensures Records(p, off, k).Walked?
    decreases k
  {
    if k == 0 {
    } else {
      GoesToTheEnd(p, off, n, k - 1);
    }
  }

  lemma ReadableRecordsWalk(p: Bytes, off: nat, n: nat)
    requires RewriteRecords(p, off, n).ok && NamesReadable(p, off, n)
    ensures Records(p, off, n).Walked?
  {
    forall k: nat | k < n && Records(p, off, k).Walked?
      ensures Records(p, off, k + 1).Walked?
    {
      ReadableStep(p, off, n, k);
    }
    GoesToTheEnd(p, off, n, n);
  }

  lemma WalkedNamesReadable(p: Bytes, off: nat, n: nat)
    requires Records(p, off, n).Walked?
    ensures NamesReadable(p, off, n)
  {
    forall k: nat | k < n && Records(p, off, k).Walked?
      ensures Decode(p, Records(p, off, k).end, MAX_JUMPS).Name?
    {
      RecordsPrefix(p, off, n, k + 1);
      RecordsSnoc(p, off, k);
    }
  }

  /** When the rewrite succeeds, a read-only walk of the packet does too exactly if the packet
      itself lets every name that such a walk gets to be read. */
  lemma WalksIffNamesReadable(p: Bytes)
    requires RewriteAll(p).ok
    ensures Walk(p).Some? <==> NamesReadable(p, Questions(p, 12, ReadU16(p, 4)).end, RecordCount(p))
  {
    var off := Questions(p, 12, ReadU16(p, 4)).end;
    if Walk(p).Some? {
      WalkedNamesReadable(p, off, RecordCount(p));
    }
    if NamesReadable(p, off, RecordCount(p)) {
      ReadableRecordsWalk(p, off, RecordCount(p));
    }
  }

  // ----- Patching the identifier -----

  /** `p` with the first two octets replaced by `id`. */
  function WithId(p: Bytes, id: u16): Bytes
  {
    if |p| < 2 then p else [id / 256, id % 256] + p[2..]
  }

  method PatchResponseId(packet: array<byte>, id: u16)
    modifies packet
    ensures packet[..] == WithId(old(packet[..]), id)
  {
    if packet.Length < 2 {
      return;
    }
    packet[0] := id / 256;
    packet[1] := id % 256;
  }

  /** The packets differ at most in the identifier, octets 0 and 1. */
  ghost predicate SameAfterId(p: Bytes, q: Bytes)
  {
    |p| == |q| && forall i :: 2 <= i < |p| ==> p[i] == q[i]
  }

  /** Patching sets the identifier and leaves the other header words and everything else alone. */
  lemma PatchedHeader(p: Bytes, id: u16)
    requires |p| >= 12
    ensures HeaderOf(WithId(p, id)) == HeaderOf(p).(id := id) && SameAfterId(p, WithId(p, id))
  {
    assert ReadU16(WithId(p, id), 0) == id;
  }

  /** Names may point at the identifier, so patching it can change what they say or whether they
      can be read, but never where a name starting after it ends. */
  lemma {:induction false} NameEndsAlike(p: Bytes, q: Bytes, pos: nat, j: nat, k: nat)
    requires SameAfterId(p, q) && 2 <= pos
    requires Decode(p, pos, j).Name? && Decode(q, pos, k).Name?
    ensures Decode(p, pos, j).end == Decode(q, pos, k).end
    decreases |p| - pos
  {
    var hop := HopAt(p, pos);
    if !hop.Go? || hop.jump {
    } else {
      NameEndsAlike(p, q, hop.next, j, k);
    }
  }

  lemma {:induction false} QuestionsAlike(p: Bytes, q: Bytes, off: nat, n: nat)
    requires SameAfterId(p, q) && 2 <= off && Questions(p, off, n).Walked? && Questions(q, off, n).Walked?
    ensures Questions(p, off, n) == Questions(q, off, n)
    decreases n
  {
    if n == 0 {
    } else {
      NameEndsAlike(p, q, off, MAX_JUMPS, MAX_JUMPS);
      QuestionsAlike(p, q, QuestionAt(p, off).value.nameEnd + 4, n - 1);
    }
  }

  lemma RecordAlike(p: Bytes, q: Bytes, off: nat)
    requires SameAfterId(p, q) && 2 <= off && RecordAt(p, off).Some? && RecordAt(q, off).Some?
    ensures RecordAt(p, off) == RecordAt(q, off)
    ensures IsPrivate(p, RecordAt(p, off).value) <==> IsPrivate(q, RecordAt(q, off).value)
  {
    NameEndsAlike(p, q, off, MAX_JUMPS, MAX_JUMPS);
  }

  lemma {:induction false} RecordsAlike(p: Bytes, q: Bytes, off: nat, n: nat)
    requires SameAfterId(p, q) && 2 <= off && Records(p, off, n).Walked? && Records(q, off, n).Walked?
    ensures Records(p, off, n) == Records(q, off, n)
    decreases n
  {
    if n == 0 {
    } else {
      RecordAlike(p, q, off);
      RecordsAlike(p, q, RecordAt(p, off).value.Next(), n - 1);
    }
  }

  /** The two halves of a successful walk. */
  lemma WalkParts(p: Bytes) returns (off: nat)
    requires Walk(p).Some?
    ensures Questions(p, 12, ReadU16(p, 4)) == Walked(Walk(p).value.questions, off) && 12 <= off
    ensures Records(p, off, RecordCount(p)) == Walked(Walk(p).value.records, Walk(p).value.end)
  {
    off := Questions(p, 12, ReadU16(p, 4)).end;
  }

  /** What is private among the records after the identifier does not depend on it. */
  lemma PrivateAlike(p: Bytes, q: Bytes, off: nat, n: nat, records: seq<Record>)
    requires SameAfterId(p, q) && 2 <= off && Records(p, off, n).Walked? && Records(p, off, n).items == records
    ensures HasPrivate(p, records) <==> HasPrivate(q, records)
  {
    forall k | 0 <= k < n
      ensures IsPrivate(p, records[k]) <==> IsPrivate(q, records[k])
    {
      RecordItem(p, off, n, k);
    }
  }

  /** Two walks that both succeed agree, and agree on what is private. */
  lemma WalksAlike(p: Bytes, q: Bytes)
    requires SameAfterId(p, q) && Walk(p).Some? && Walk(q).Some?
    ensures Walk(p) == Walk(q)
    ensures HasPrivate(p, Walk(p).value.records) <==> HasPrivate(q, Walk(q).value.records)
  {
    var off := WalkParts(p);
    var off' := WalkParts(q);
    QuestionsAlike(p, q, 12, ReadU16(p, 4));
    RecordsAlike(p, q, off, RecordCount(p));
    PrivateAlike(p, q, off, RecordCount(p), Walk(p).value.records);
  }

  ghost predicate NonePrivate(p: Bytes, off: nat, n: nat)
  {
    forall k: nat :: k <= n && Records(p, off, k).Walked? ==> !HasPrivate(p, Records(p, off, k).items)
  }

  /** However far a walk of the records of `p` gets, it finds no private A record. */
  ghost predicate Harmless(p: Bytes)
  {
    |p| >= 12 && Questions(p, 12, ReadU16(p, 4)).Walked? ==>
      NonePrivate(p, Questions(p, 12, ReadU16(p, 4)).end, RecordCount(p))
  }

  /** Whatever the identifier becomes, no walk finds a private A record, even one that breaks. */
  ghost predicate Shielded(p: Bytes)
  {
    forall q :: SameAfterId(p, q) ==> Harmless(q)
  }

  /** A walk of `q`, as far as it gets, finds what a whole walk of `p` does. */
  lemma PartlyAlike(p: Bytes, q: Bytes, off: nat, n: nat)
    requires SameAfterId(p, q) && 2 <= off && Records(p, off, n).Walked?
    requires !HasPrivate(p, Records(p, off, n).items)
    ensures NonePrivate(q, off, n)
  {
    forall k: nat | k <= n && Records(q, off, k).Walked?
      ensures !HasPrivate(q, Records(q, off, k).items)
    {
      RecordsPrefix(p, off, n, k);
      RecordsAlike(p, q, off, k);
      PrivateAlike(p, q, off, k, Records(p, off, k).items);
    }
  }

  lemma AlikeHarmless(p: Bytes, q: Bytes, off: nat, n: nat)
    requires SameAfterId(p, q) && |p| >= 12 && n == RecordCount(p)
    requires Questions(p, 12, ReadU16(p, 4)).Walked? && Questions(p, 12, ReadU16(p, 4)).end == off
    requires Records(p, off, n).Walked? && !HasPrivate(p, Records(p, off, n).items)
    ensures Harmless(q)
  {
    assert ReadU16(q, 4) == ReadU16(p, 4) && RecordCount(q) == n;
    if Questions(q, 12, ReadU16(q, 4)).Walked? {
      QuestionsAlike(p, q, 12, ReadU16(p, 4));
      PartlyAlike(p, q, off, n);
    }
  }

  /** A successful rewrite shields the packet, before and after patching the identifier. */
  lemma RewriteShields(p: Bytes)
    requires RewriteAll(p).ok
    ensures Shielded(RewriteAll(p).bytes)
  {
    var w := RewriteAll(p).bytes;
    RewrittenWalks(p);
    var off := WalkParts(w);
    forall q | SameAfterId(w, q)
      ensures Harmless(q)
    {
      AlikeHarmless(w, q, off, RecordCount(w));
    }
  }

  /** A packet that announces no records holds no private ones. */
  lemma EmptyShielded(p: Bytes)
    requires |p| >= 12 && RecordCount(p) == 0
    ensures Shielded(p)
  {
    forall q | SameAfterId(p, q)
      ensures Harmless(q)
    {
      assert RecordCount(q) == 0;
    }
  }

  lemma PatchedHarmless(p: Bytes, id: u16)
    requires Shielded(p)
    ensures Harmless(p) && Harmless(WithId(p, id)) && Shielded(WithId(p, id))
  {
    assert SameAfterId(p, p) && SameAfterId(p, WithId(p, id));
    forall q | SameAfterId(WithId(p, id), q)
      ensures Harmless(q)
    {
      assert forall i :: 2 <= i < |p| ==> p[i] == WithId(p, id)[i];
      assert SameAfterId(p, q);
    }
  }
}
