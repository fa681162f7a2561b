/** Rebind protection: zeroing the private addresses of an upstream response while walking it.
    The walk reads names through compression pointers, so a name may lead into bytes that the
    same walk has zeroed or will zero. */
module Rewrite {
  import opened Bytes
  import opened Names
  import opened Message

  /** RFC 1918, section 3. */
  predicate IsPrivateIPv4(a: byte, b: byte)
  {
    a == 10 || (a == 192 && b == 168) || (a == 172 && 16 <= b <= 31)
  }

  /** The address as a 32-bit number. */
  function Number(a: byte, b: byte, c: byte, d: byte): nat
  {
    ((a as int * 256 + b as int) * 256 + c as int) * 256 + d as int
  }

  /** The test covers exactly 10.0.0.0/8, 172.16.0.0/12 and 192.168.0.0/16: the top 8, 12 or 16
      bits of the address are those of the block. */
  lemma PrivateBlocks(a: byte, b: byte, c: byte, d: byte)
    ensures var n := Number(a, b, c, d);
            IsPrivateIPv4(a, b) <==>
            || 0x0A00_0000 <= n < 0x0A00_0000 + 0x100_0000
            || 0xAC10_0000 <= n < 0xAC10_0000 + 0x10_0000
            || 0xC0A8_0000 <= n < 0xC0A8_0000 + 0x1_0000
  {
    var n := Number(a, b, c, d);
    assert n == a as int * 0x100_0000 + b as int * 0x1_0000 + c as int * 0x100 + d as int;
  }

  /** An A record with four octets of RDATA. */
  predicate IsAddress(r: Record)
  {
    r.rtype == TYPE_A && r.rdlength == 4
  }

  predicate IsPrivate(p: Bytes, r: Record)
  {
    IsAddress(r) && r.Next() <= |p| && IsPrivateIPv4(p[r.Rdata()], p[r.Rdata() + 1])
  }

  /** `p` with the four octets at `at` zeroed. */
  function Zero4(p: Bytes, at: nat): (q: Bytes)
    requires at + 4 <= |p|
    ensures |q| == |p|
    ensures forall i :: 0 <= i < |p| ==> q[i] == if at <= i < at + 4 then 0 else p[i]
  {
    p[at := 0][at + 1 := 0][at + 2 := 0][at + 3 := 0]
  }

  /** The packet after the record `r` has been dealt with. */
  function Scrub(p: Bytes, r: Record): (q: Bytes)
    ensures |q| == |p|
  {
    if IsPrivate(p, r) then Zero4(p, r.Rdata()) else p
  }

  /** Outcome of the interleaved walk: whether it reached the end, the bytes it leaves behind in
      either case, whether it zeroed anything, and the records it went through. */
  datatype Rewritten = Rewritten(ok: bool, bytes: Bytes, replaced: bool, records: seq<Record>)

  /** The record loop: each name is read in the packet as the records before it left it. */
  function RewriteRecords(p: Bytes, off: nat, n: nat): (w: Rewritten)
    ensures |w.bytes| == |p|
    decreases n
  {
    if n == 0 then Rewritten(true, p, false, [])
    else
      match RecordAt(p, off)
      case None => Rewritten(false, p, false, [])
      case Some(r) =>
        var rest := RewriteRecords(Scrub(p, r), r.Next(), n - 1);
        Rewritten(rest.ok, rest.bytes, IsPrivate(p, r) || rest.replaced, [r] + rest.records)
  }

  /** What dealing with one record leaves to the rest of the loop. */
  lemma RewriteUnfolds(p: Bytes, off: nat, n: nat, r: Record)
    requires n > 0 && RecordAt(p, off) == Some(r)
    ensures var w, rest := RewriteRecords(p, off, n), RewriteRecords(Scrub(p, r), r.Next(), n - 1);
            w.bytes == rest.bytes && w.records == [r] + rest.records && w.ok == rest.ok &&
            w.replaced == (IsPrivate(p, r) || rest.replaced)
  {
  }

  function RewriteAll(p: Bytes): (w: Rewritten)
    ensures |w.bytes| == |p|
  {
    if |p| < 12 then Rewritten(false, p, false, [])
    else
      match Questions(p, 12, ReadU16(p, 4))
      case Stuck => Rewritten(false, p, false, [])
      case Walked(_, off) => RewriteRecords(p, off, RecordCount(p))
  }

  /** Zeroes the record's address in place when it is private. */
  method ScrubRecord(packet: array<byte>, r: Record) returns (replaced: bool)
    requires r.Next() <= packet.Length
    modifies packet
    ensures packet[..] == Scrub(old(packet[..]), r) && replaced == IsPrivate(old(packet[..]), r)
  {
    replaced := false;
    var addr := r.Rdata();
    if r.rtype == TYPE_A && r.rdlength == 4 {
      if IsPrivateIPv4(packet[addr], packet[addr + 1]) {
        packet[addr] := 0;
        packet[addr + 1] := 0;
        packet[addr + 2] := 0;
        packet[addr + 3] := 0;
        replaced := true;
      }
    }
  }

  /** The body of the record loop: reads the record at `offset` and deals with it. */
  method RewriteRecord(packet: array<byte>, offset: nat) returns (read: bool, replaced: bool, next: nat)
    modifies packet
    ensures match RecordAt(old(packet[..]), offset)
            case None => !read && packet[..] == old(packet[..])
            case Some(r) => read && next == r.Next() && packet[..] == Scrub(old(packet[..]), r) &&
                            replaced == IsPrivate(old(packet[..]), r)
  {
    replaced, next := false, offset;
    var r;
    read, r := ReadRecord(packet[..], offset);
    if read {
      replaced := ScrubRecord(packet, r);
      next := r.Next();
    }
  }

  /** The record loop. */
  method RewriteRest(packet: array<byte>, start: nat, rrCount: nat) returns (ok: bool, replaced: bool)
    modifies packet
    ensures var w := RewriteRecords(old(packet[..]), start, rrCount);
            ok == w.ok && packet[..] == w.bytes && (ok ==> replaced == w.replaced)
  {
    ghost var w := RewriteRecords(packet[..], start, rrCount);
    ok, replaced := false, false;
    var offset := start;
    for i := 0 to rrCount
      invariant !ok
      invariant var rest := RewriteRecords(packet[..], offset, rrCount - i);
                w.ok == rest.ok && w.bytes == rest.bytes && w.replaced == (replaced || rest.replaced)
    {
      ghost var before, at := packet[..], offset;
      var read, scrubbed;
      read, scrubbed, offset := RewriteRecord(packet, offset);
      if !read {
        return;
      }
      RewriteUnfolds(before, at, rrCount - i, RecordAt(before, at).value);
      replaced := replaced || scrubbed;
    }
    ok := true;
  }

  // ----- Zeroing an address keeps every name readable -----

  /** The four octets at `at` can be zeroed under the feet of a name reader: the octet before
      them is the 4 of the RDATA length, which neither is nor ends a pointer, and as a label
      length steps exactly over them. */
  ghost predicate Zeroable(p: Bytes, at: nat)
  {
    1 <= at && at + 4 <= |p| && p[at - 1] == 4
  }

  lemma AddressZeroable(p: Bytes, off: nat)
    requires RecordAt(p, off).Some? && IsAddress(RecordAt(p, off).value)
    ensures Zeroable(p, RecordAt(p, off).value.Rdata())
  {
  }

  /** Zeroing four octets behind a 4 turns a hop into a stop or leaves it alone, and outside them
      a hop does stay. */
  lemma ZeroKeepsHop(p: Bytes, at: nat, pos: nat)
    requires Zeroable(p, at) && !HopAt(p, pos).Broken?
    ensures var q := Zero4(p, at);
            if at <= pos < at + 4 then HopAt(q, pos).Stop? else HopAt(q, pos) == HopAt(p, pos)
  {
  }

  /** A name that can be read before can be read after, from any offset; its end moves only if
      the name itself runs into the zeroed octets. */
  lemma {:induction false} ZeroKeepsName(p: Bytes, at: nat, pos: nat, jumps: nat)
    requires Zeroable(p, at) && Decode(p, pos, jumps).Name?
    ensures var q := Zero4(p, at);
            var end := Decode(p, pos, jumps).end;
            && Decode(q, pos, jumps).Name?
            && (end <= at || at + 4 <= pos ==> Decode(q, pos, jumps).end == end)
    decreases jumps, |p| - pos
  {
    var hop := HopAt(p, pos);
    ZeroKeepsHop(p, at, pos);
    if hop.Go? && HopAt(Zero4(p, at), pos).Go? {
      DecodeHop(p, pos, jumps);
      ZeroKeepsName(p, at, hop.next, if hop.jump then jumps - 1 else jumps);
      DecodeHop(Zero4(p, at), pos, jumps);
    }
  }

  /** Records and questions that do not overlap the zeroed octets are found unchanged. */
  lemma ZeroKeepsRecord(p: Bytes, at: nat, off: nat)
    requires Zeroable(p, at) && RecordAt(p, off).Some?
    requires RecordAt(p, off).value.Rdata() <= at || at + 4 <= off
    ensures RecordAt(Zero4(p, at), off) == RecordAt(p, off)
  {
    ZeroKeepsName(p, at, off, MAX_JUMPS);
  }

  lemma {:induction false} ZeroKeepsLaterRecords(p: Bytes, at: nat, off: nat, n: nat)
    requires Zeroable(p, at) && at + 4 <= off && Records(p, off, n).Walked?
    ensures Records(Zero4(p, at), off, n) == Records(p, off, n)
    decreases n
  {
    if n == 0 {
    } else {
      ZeroKeepsRecord(p, at, off);
      ZeroKeepsLaterRecords(p, at, RecordAt(p, off).value.Next(), n - 1);
    }
  }

  // ----- What the interleaved walk leaves alone -----

  /** The record loop from `off` changes nothing before `off`, and every name that ends there
      keeps its end. */
  lemma {:induction false} RewriteKeepsEarlier(p: Bytes, off: nat, n: nat)
    requires off <= |p|
    ensures RewriteRecords(p, off, n).bytes[..off] == p[..off]
    decreases n
  {
    if n == 0 || RecordAt(p, off).None? {
    } else {
      var r := RecordAt(p, off).value;
      RewriteKeepsEarlier(Scrub(p, r), r.Next(), n - 1);
      var q := RewriteRecords(p, off, n).bytes;
      assert forall i :: 0 <= i < off ==> q[i] == q[..r.Next()][i] == Scrub(p, r)[..r.Next()][i];
    }
  }

  lemma ScrubKeepsName(p: Bytes, r: Record, pos: nat, jumps: nat)
    requires RecordAt(p, r.start) == Some(r)
    requires Decode(p, pos, jumps).Name? && Decode(p, pos, jumps).end <= r.start
    ensures var q := Scrub(p, r);
            Decode(q, pos, jumps).Name? && Decode(q, pos, jumps).end == Decode(p, pos, jumps).end
  {
    if IsPrivate(p, r) {
      ZeroKeepsName(p, r.Rdata(), pos, jumps);
    }
  }

  lemma {:induction false} RewriteKeepsName(p: Bytes, off: nat, n: nat, pos: nat, jumps: nat)
    requires Decode(p, pos, jumps).Name? && Decode(p, pos, jumps).end <= off
    ensures var q := RewriteRecords(p, off, n).bytes;
            Decode(q, pos, jumps).Name? && Decode(q, pos, jumps).end == Decode(p, pos, jumps).end
    decreases n
  {
    if n == 0 || RecordAt(p, off).None? {
    } else {
      var r := RecordAt(p, off).value;
      ScrubKeepsName(p, r, pos, jumps);
      RewriteKeepsName(Scrub(p, r), r.Next(), n - 1, pos, jumps);
    }
  }

  /** Every question span found in `p` is found at the same place in `q`. */
  ghost predicate SameQuestions(p: Bytes, q: Bytes, spans: seq<Span>)
  {
    forall i :: 0 <= i < |spans| ==> QuestionAt(q, spans[i].start) == Some(spans[i])
  }

  lemma SameQuestionsTail(p: Bytes, q: Bytes, s: Span, rest: seq<Span>)
    requires SameQuestions(p, q, [s] + rest)
    ensures QuestionAt(q, s.start) == Some(s) && SameQuestions(p, q, rest)
  {
    var all := [s] + rest;
    assert all[0] == s;
    assert forall i :: 0 <= i < |rest| ==> rest[i] == all[i + 1];
  }

  lemma {:induction false} QuestionsAgree(p: Bytes, q: Bytes, off: nat, n: nat)
    requires Questions(p, off, n).Walked? && SameQuestions(p, q, Questions(p, off, n).items)
    ensures Questions(q, off, n) == Questions(p, off, n)
    decreases n
  {
    if n == 0 {
    } else {
      var s := QuestionAt(p, off).value;
      var rest := Questions(p, s.nameEnd + 4, n - 1).items;
      SameQuestionsTail(p, q, s, rest);
      QuestionsAgree(p, q, s.nameEnd + 4, n - 1);
    }
  }

  lemma {:induction false} QuestionItem(p: Bytes, off: nat, n: nat, i: nat)
    requires Questions(p, off, n).Walked? && i < n
    ensures var w := Questions(p, off, n);
            QuestionAt(p, w.items[i].start) == Some(w.items[i]) && w.items[i].nameEnd + 4 <= w.end
    decreases n
  {
    var s := QuestionAt(p, off).value;
    if i == 0 {
    } else {
      QuestionItem(p, s.nameEnd + 4, n - 1, i - 1);
    }
  }

  lemma RewriteKeepsQuestions(p: Bytes, from: nat, k: nat, off: nat, n: nat)
    requires Questions(p, from, k).Walked? && Questions(p, from, k).end <= off
    ensures Questions(RewriteRecords(p, off, n).bytes, from, k) == Questions(p, from, k)
  {
    var q, spans := RewriteRecords(p, off, n).bytes, Questions(p, from, k).items;
    forall i | 0 <= i < |spans|
      ensures QuestionAt(q, spans[i].start) == Some(spans[i])
    {
      QuestionItem(p, from, k, i);
      RewriteKeepsName(p, off, n, spans[i].start, MAX_JUMPS);
    }
    QuestionsAgree(p, q, from, k);
  }
}
