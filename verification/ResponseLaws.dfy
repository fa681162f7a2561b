/** What the server's own responses mean to a reader: they walk to their exact end, carry the
    right names, and give back the RDATA that went in. */
module ResponseLaws {
  import opened Bytes
  import opened Names
  import opened NameCodec
  import opened Message
  import opened Responses

  /** A 16-bit word inside a concatenation. */
  lemma ReadInside(pre: Bytes, mid: Bytes, post: Bytes, i: nat)
    requires i + 1 < |mid|
    ensures ReadU16(pre + mid + post, |pre| + i) == ReadU16(mid, i)
  {
    assert (pre + mid + post)[|pre| + i] == mid[i];
    assert (pre + mid + post)[|pre| + i + 1] == mid[i + 1];
  }

  lemma HeaderCounts(h: Header, qdcount: u16, ancount: u16)
    ensures var b := HeaderBytes(h, qdcount, ancount);
            ReadU16(b, 4) == qdcount && ReadU16(b, 6) == ancount && ReadU16(b, 8) == 0 && ReadU16(b, 10) == 0
  {
  }

  /** The fields of the second header word (section 4.1.1 of RFC 1035). */
  datatype Flags = Flags(qr: nat, opcode: nat, aa: nat, tc: nat, rd: nat, ra: nat, z: nat, rcode: nat)

  predicate InRange(f: Flags)
  {
    f.qr <= 1 && f.opcode <= 15 && f.aa <= 1 && f.tc <= 1 && f.rd <= 1 && f.ra <= 1 && f.z <= 7 && f.rcode <= 15
  }

  function Word(f: Flags): u16
    requires InRange(f)
  {
    f.qr * 0x8000 + f.opcode * 0x800 + f.aa * 0x400 + f.tc * 0x200 + f.rd * 0x100 +
    f.ra * 0x80 + f.z * 0x10 + f.rcode
  }

  /** A response says QR and RA, repeats the query's RD and clears every other field. */
  lemma FlagsMeaning(f: Flags)
    requires InRange(f)
    ensures ResponseFlags(Word(f)) == Word(Flags(1, 0, 0, 0, f.rd, 1, 0, 0))
  {
    var high := f.qr * 64 + f.opcode * 4 + f.aa * 2 + f.tc;
    assert Word(f) / 0x100 == 2 * high + f.rd;
  }

  /** Any response with this header is read back with the query's identifier, the response flags
      and the section counts. */
  lemma HeaderReadsBack(h: Header, qdcount: u16, ancount: u16, rest: Bytes)
    ensures HeaderOf(HeaderBytes(h, qdcount, ancount) + rest) ==
            Header(h.id, ResponseFlags(h.flags), qdcount, ancount, 0, 0)
  {
    var b, p := HeaderBytes(h, qdcount, ancount), HeaderBytes(h, qdcount, ancount) + rest;
    assert forall i :: 0 <= i < 12 ==> p[i] == b[i];
  }

  /** A well-formed name written between `pre` and `post` is read back there. */
  lemma NameInside(pre: Bytes, name: Bytes, post: Bytes, p: Bytes)
    requires WellFormed(name) && p == pre + QName(name) + post
    ensures Decode(p, |pre|, MAX_JUMPS) == Name(Pieces(name), |pre| + |QName(name)|)
  {
    NameRoundTrip(pre, name, post, MAX_JUMPS);
  }

  /** Four octets of question words after a name that ends at `end`. */
  lemma QuestionAfterName(pre: Bytes, words: Bytes, post: Bytes, p: Bytes, start: nat, end: nat)
    requires |words| == 4 && p == pre + words + post && |pre| == end
    requires Decode(p, start, MAX_JUMPS).Name? && Decode(p, start, MAX_JUMPS).end == end
    ensures QuestionAt(p, start) == Some(Span(start, end))
    ensures ReadU16(p, end) == ReadU16(words, 0) && ReadU16(p, end + 2) == ReadU16(words, 2)
  {
    ReadInside(pre, words, post, 0);
    ReadInside(pre, words, post, 2);
  }

  /** The fixed part and the RDATA of a record after a name that ends at `end`. */
  lemma RecordAfterName(pre: Bytes, fixed: Bytes, rdata: Bytes, p: Bytes, start: nat, end: nat)
    requires |fixed| == 10 && p == pre + fixed + rdata && ReadU16(fixed, 8) == |rdata| && |pre| == end
    requires Decode(p, start, MAX_JUMPS).Name? && Decode(p, start, MAX_JUMPS).end == end
    ensures var r := Record(start, end, ReadU16(fixed, 0), |rdata|);
            RecordAt(p, start) == Some(r) && r.Next() == |p| && p[r.Rdata()..r.Next()] == rdata
  {
    ReadInside(pre, fixed, rdata, 0);
    ReadInside(pre, fixed, rdata, 8);
  }

  /** Where the question and the answer of a one-answer response stand, for a name that takes
      `n` octets. */
  ghost function AnswerLayout(n: nat, rtype: u16, rdlength: u16): Layout
  {
    var r := Record(16 + n, 16 + 2 * n, rtype, rdlength);
    Layout([Span(12, 12 + n)], [r], r.Next())
  }

  lemma WalkOne(p: Bytes, span: Span, r: Record)
    requires |p| >= 12 && ReadU16(p, 4) == 1 && RecordCount(p) == 1
    requires QuestionAt(p, 12) == Some(span) && RecordAt(p, span.nameEnd + 4) == Some(r)
    ensures Walk(p) == Some(Layout([span], [r], r.Next()))
  {
    assert Questions(p, span.nameEnd + 4, 0) == Walked([], span.nameEnd + 4);
    assert Questions(p, 12, 1) == Walked([span], span.nameEnd + 4);
    assert Records(p, r.Next(), 0) == Walked([], r.Next());
    assert Records(p, span.nameEnd + 4, 1) == Walked([r], r.Next());
  }

  /** A name of `n` octets at 12 and 16 + n: all that the walk over a built answer asks of names. */
  ghost predicate NamesOf(p: Bytes, n: nat)
  {
    && Decode(p, 12, MAX_JUMPS).Name? && Decode(p, 12, MAX_JUMPS).end == 12 + n
    && Decode(p, 16 + n, MAX_JUMPS).Name? && Decode(p, 16 + n, MAX_JUMPS).end == 16 + 2 * n
  }

  lemma OneQuestion(b: Bytes, enc: Bytes, words: Bytes, tail: Bytes, p: Bytes, n: nat)
    requires |b| == 12 && |words| == 4 && |enc| == n && p == b + enc + words + tail && NamesOf(p, n)
    ensures QuestionAt(p, 12) == Some(Span(12, 12 + n)) && 16 + n <= |p|
    ensures ReadU16(p, 12 + n) == ReadU16(words, 0) && ReadU16(p, 14 + n) == ReadU16(words, 2)
  {
    var pre := b + enc;
    assert |pre| == 12 + n;
    QuestionAfterName(pre, words, tail, p, 12, 12 + n);
  }

  lemma OneRecord(pre: Bytes, fixed: Bytes, rdata: Bytes, p: Bytes, n: nat)
    requires |fixed| == 10 && ReadU16(fixed, 8) == |rdata| && p == pre + fixed + rdata
    requires |pre| == 16 + 2 * n && NamesOf(p, n)
    ensures var r := Record(16 + n, 16 + 2 * n, ReadU16(fixed, 0), |rdata|);
            RecordAt(p, 16 + n) == Some(r) && r.Next() == |p| && p[r.Rdata()..r.Next()] == rdata
  {
    RecordAfterName(pre, fixed, rdata, p, 16 + n, 16 + 2 * n);
  }

  lemma Regroup(b: Bytes, enc: Bytes, words: Bytes, fixed: Bytes, rdata: Bytes)
    ensures b + (enc + words) + enc + fixed + rdata == b + enc + words + (enc + fixed + rdata)
  {
  }

  lemma CountsKept(b: Bytes, question: Bytes, enc: Bytes, fixed: Bytes, rdata: Bytes)
    requires |b| == 12
    ensures var p := b + question + enc + fixed + rdata;
            ReadU16(p, 4) == ReadU16(b, 4) && ReadU16(p, 6) == ReadU16(b, 6) && RecordCount(p) == RecordCount(b)
  {
    var p := b + question + enc + fixed + rdata;
    assert forall i :: 0 <= i < 12 ==> p[i] == b[i];
  }

  /** Any packet laid out as header, question, answer walks exactly to its end as just that. */
  lemma OneAnswerWalks(b: Bytes, enc: Bytes, words: Bytes, fixed: Bytes, rdata: Bytes, p: Bytes, n: nat)
    requires |b| == 12 && |words| == 4 && |fixed| == 10 && |enc| == n
    requires p == b + (enc + words) + enc + fixed + rdata && NamesOf(p, n)
    requires ReadU16(b, 4) == 1 && RecordCount(b) == 1 && ReadU16(fixed, 8) == |rdata|
    ensures var layout := AnswerLayout(n, ReadU16(fixed, 0), |rdata|);
            var r := layout.records[0];
            && Walk(p) == Some(layout) && layout.end == |p|
            && ReadU16(p, 12 + n) == ReadU16(words, 0) && ReadU16(p, 14 + n) == ReadU16(words, 2)
            && p[r.Rdata()..r.Next()] == rdata
  {
    assert QuestionAt(p, 12) == Some(Span(12, 12 + n)) && 16 + n <= |p| &&
           ReadU16(p, 12 + n) == ReadU16(words, 0) && ReadU16(p, 14 + n) == ReadU16(words, 2)
    by {
      Regroup(b, enc, words, fixed, rdata);
      OneQuestion(b, enc, words, enc + fixed + rdata, p, n);
    }
    OneRecord(b + (enc + words) + enc, fixed, rdata, p, n);
    CountsKept(b, enc + words, enc, fixed, rdata);
    WalkOne(p, Span(12, 12 + n), Record(16 + n, 16 + 2 * n, ReadU16(fixed, 0), |rdata|));
  }

  lemma RegroupFirstName(b: Bytes, enc: Bytes, words: Bytes, fixed: Bytes, rdata: Bytes)
    ensures b + (enc + words) + enc + fixed + rdata == b + enc + (words + (enc + fixed + rdata))
  {
  }

  lemma FirstName(b: Bytes, name: Bytes, words: Bytes, fixed: Bytes, rdata: Bytes, p: Bytes)
    requires WellFormed(name) && p == b + (QName(name) + words) + QName(name) + fixed + rdata
    ensures Decode(p, |b|, MAX_JUMPS) == Name(Pieces(name), |b| + |QName(name)|)
  {
    RegroupFirstName(b, QName(name), words, fixed, rdata);
    NameInside(b, name, words + (QName(name) + fixed + rdata), p);
  }

  lemma SecondName(pre: Bytes, name: Bytes, fixed: Bytes, rdata: Bytes, p: Bytes)
    requires WellFormed(name) && p == pre + QName(name) + fixed + rdata
    ensures Decode(p, |pre|, MAX_JUMPS) == Name(Pieces(name), |pre| + |QName(name)|)
  {
    Associate(pre + QName(name), fixed, rdata);
    NameInside(pre, name, fixed + rdata, p);
  }

  /** Both names of a one-answer response are read back as the question's name. */
  lemma AnswerNames(b: Bytes, name: Bytes, words: Bytes, fixed: Bytes, rdata: Bytes, p: Bytes)
    requires WellFormed(name) && |b| == 12 && |words| == 4
    requires p == b + (QName(name) + words) + QName(name) + fixed + rdata
    ensures var n := |QName(name)|;
            && Decode(p, 12, MAX_JUMPS) == Name(Pieces(name), 12 + n)
            && Decode(p, 16 + n, MAX_JUMPS) == Name(Pieces(name), 16 + 2 * n)
  {
    FirstName(b, name, words, fixed, rdata, p);
    SecondName(b + (QName(name) + words), name, fixed, rdata, p);
  }

  /** The parts a built answer is made of. */
  lemma AnswerShape(h: Header, q: Question, rtype: u16, rdata: Bytes)
    returns (b: Bytes, words: Bytes, fixed: Bytes)
    requires |rdata| <= 0xFFFF
    ensures AnswerBytes(h, q, rtype, rdata) == b + (QName(q.qname) + words) + QName(q.qname) + fixed + rdata
    ensures |b| == 12 && ReadU16(b, 4) == 1 && ReadU16(b, 6) == 1 && RecordCount(b) == 1
    ensures |words| == 4 && ReadU16(words, 0) == q.qtype && ReadU16(words, 2) == q.qclass
    ensures |fixed| == 10 && ReadU16(fixed, 0) == rtype && ReadU16(fixed, 8) == |rdata|
  {
    HeaderCounts(h, 1, 1);
    b, words, fixed := HeaderBytes(h, 1, 1), U16(q.qtype) + U16(q.qclass), AnswerFixed(rtype, |rdata|);
  }

  /** `p` is a response to `q` with one answer: header, question and answer for the question's own name
      walk exactly to its end, the answer has the given type, class IN (1), a TTL of 60 seconds and the
      given RDATA. */
  ghost predicate OneAnswer(p: Bytes, h: Header, q: Question, rtype: u16, rdata: Bytes)
  {
    |rdata| <= 0xFFFF &&
    var n, name := |QName(q.qname)|, Pieces(q.qname);
    && Walk(p) == Some(AnswerLayout(n, rtype, |rdata|)) && |p| == 26 + 2 * n + |rdata|
    && HeaderOf(p) == Header(h.id, ResponseFlags(h.flags), 1, 1, 0, 0)
    && Decode(p, 12, MAX_JUMPS) == Name(name, 12 + n)
    && ReadU16(p, 12 + n) == q.qtype && ReadU16(p, 14 + n) == q.qclass
    && Decode(p, 16 + n, MAX_JUMPS) == Name(name, 16 + 2 * n)
    && p[16 + 2 * n..26 + 2 * n] == [rtype / 256, rtype % 256, 0, 1, 0, 0, 0, 60, |rdata| / 256, |rdata| % 256]
    && p[26 + 2 * n..] == rdata
  }

  lemma FixedOctets(rtype: u16, rdlength: u16)
    ensures AnswerFixed(rtype, rdlength) ==
            [rtype / 256, rtype % 256, 0, 1, 0, 0, 0, 60, rdlength / 256, rdlength % 256]
  {
  }

  lemma Between(pre: Bytes, mid: Bytes, post: Bytes, p: Bytes, from: nat, to: nat)
    requires p == pre + mid + post && from == |pre| && to == from + |mid|
    ensures p[from..to] == mid && p[to..] == post
  {
  }

  lemma AnswerTail(h: Header, q: Question, rtype: u16, rdata: Bytes)
    requires |rdata| <= 0xFFFF
    ensures var p, n := AnswerBytes(h, q, rtype, rdata), |QName(q.qname)|;
            && |p| == 26 + 2 * n + |rdata| && p[26 + 2 * n..] == rdata
            && p[16 + 2 * n..26 + 2 * n] ==
               [rtype / 256, rtype % 256, 0, 1, 0, 0, 0, 60, |rdata| / 256, |rdata| % 256]
  {
    var pre, n := HeaderBytes(h, 1, 1) + QuestionBytes(q) + QName(q.qname), |QName(q.qname)|;
    FixedOctets(rtype, |rdata|);
    Between(pre, AnswerFixed(rtype, |rdata|), rdata, AnswerBytes(h, q, rtype, rdata), 16 + 2 * n, 26 + 2 * n);
  }

  lemma AnswerHeader(h: Header, q: Question, rtype: u16, rdata: Bytes)
    ensures |AnswerBytes(h, q, rtype, rdata)| >= 12
    ensures HeaderOf(AnswerBytes(h, q, rtype, rdata)) == Header(h.id, ResponseFlags(h.flags), 1, 1, 0, 0)
  {
    var b := HeaderBytes(h, 1, 1);
    var tail := QuestionBytes(q) + QName(q.qname) + AnswerFixed(rtype, LowU16(|rdata|)) + rdata;
    HeaderReadsBack(h, 1, 1, tail);
    assert AnswerBytes(h, q, rtype, rdata) == b + tail;
  }

  /** What the builders write for a well-formed name is such a response. */
  lemma AnswerWalks(h: Header, q: Question, rtype: u16, rdata: Bytes)
    requires WellFormed(q.qname) && |rdata| <= 0xFFFF
    ensures OneAnswer(AnswerBytes(h, q, rtype, rdata), h, q, rtype, rdata)
  {
    var p := AnswerBytes(h, q, rtype, rdata);
    var b, words, fixed := AnswerShape(h, q, rtype, rdata);
    AnswerNames(b, q.qname, words, fixed, rdata, p);
    OneAnswerWalks(b, QName(q.qname), words, fixed, rdata, p, |QName(q.qname)|);
    AnswerHeader(h, q, rtype, rdata);
    AnswerTail(h, q, rtype, rdata);
  }

  lemma WalkNone(p: Bytes, span: Span)
    requires |p| >= 12 && ReadU16(p, 4) == 1 && RecordCount(p) == 0 && QuestionAt(p, 12) == Some(span)
    ensures Walk(p) == Some(Layout([span], [], span.nameEnd + 4))
  {
    assert Questions(p, span.nameEnd + 4, 0) == Walked([], span.nameEnd + 4);
    assert Questions(p, 12, 1) == Walked([span], span.nameEnd + 4);
  }

  lemma QuestionOnlyWalks(b: Bytes, name: Bytes, words: Bytes)
    requires WellFormed(name) && |b| == 12 && |words| == 4 && ReadU16(b, 4) == 1 && RecordCount(b) == 0
    ensures var p, n := b + (QName(name) + words), |QName(name)|;
            && Walk(p) == Some(Layout([Span(12, 12 + n)], [], |p|)) && |p| == 16 + n
            && Decode(p, 12, MAX_JUMPS) == Name(Pieces(name), 12 + n)
            && ReadU16(p, 12 + n) == ReadU16(words, 0) && ReadU16(p, 14 + n) == ReadU16(words, 2)
  {
    var p, n := b + (QName(name) + words), |QName(name)|;
    Associate(b, QName(name), words);
    NameInside(b, name, words, p);
    assert p == (b + QName(name)) + words + [];
    assert |b + QName(name)| == 12 + n;
    QuestionAfterName(b + QName(name), words, [], p, 12, 12 + n);
    assert forall i :: 0 <= i < 12 ==> p[i] == b[i];
    WalkNone(p, Span(12, 12 + n));
  }

  /** `p` is a response to `q` without an answer: header and question walk exactly to its end. */
  ghost predicate NoAnswer(p: Bytes, h: Header, q: Question)
  {
    var n := |QName(q.qname)|;
    && Walk(p) == Some(Layout([Span(12, 12 + n)], [], |p|)) && |p| == 16 + n
    && HeaderOf(p) == Header(h.id, ResponseFlags(h.flags), 1, 0, 0, 0)
    && Decode(p, 12, MAX_JUMPS) == Name(Pieces(q.qname), 12 + n)
    && ReadU16(p, 12 + n) == q.qtype && ReadU16(p, 14 + n) == q.qclass
  }

  /** What BuildEmptyResponse writes for a well-formed name is such a response. */
  lemma EmptyWalks(h: Header, q: Question)
    requires WellFormed(q.qname)
    ensures NoAnswer(HeaderBytes(h, 1, 0) + QuestionBytes(q), h, q)
  {
    HeaderCounts(h, 1, 0);
    HeaderReadsBack(h, 1, 0, QuestionBytes(q));
    QuestionOnlyWalks(HeaderBytes(h, 1, 0), q.qname, U16(q.qtype) + U16(q.qclass));
  }

  lemma NameAtEnd(pre: Bytes, name: Bytes)
    requires WellFormed(name)
    ensures Decode(pre + QName(name), |pre|, MAX_JUMPS) == Name(Pieces(name), |pre + QName(name)|)
  {
    assert pre + QName(name) == pre + QName(name) + [];
    NameInside(pre, name, [], pre + QName(name));
  }

  /** CNAME and PTR answers hold the target as a name that ends the packet. */
  lemma TargetReadsBack(h: Header, q: Question, rtype: u16, target: Bytes)
    requires WellFormed(q.qname) && WellFormed(target) && |QName(target)| <= 0xFFFF
    ensures var p := AnswerBytes(h, q, rtype, QName(target));
            var at := AnswerLayout(|QName(q.qname)|, rtype, |QName(target)|).records[0].Rdata();
            Decode(p, at, MAX_JUMPS) == Name(Pieces(target), |p|)
  {
    var head := AnswerHead(h, q, rtype, |QName(target)|);
    assert AnswerBytes(h, q, rtype, QName(target)) == head + QName(target);
    assert |head| == AnswerLayout(|QName(q.qname)|, rtype, |QName(target)|).records[0].Rdata();
    NameAtEnd(head, target);
  }

  lemma PreferenceThenName(pre: Bytes, at: nat, preference: Bytes, name: Bytes)
    requires WellFormed(name) && |preference| == 2 && |pre| == at
    ensures var p := pre + (preference + QName(name));
            ReadU16(p, at) == ReadU16(preference, 0) &&
            Decode(p, at + 2, MAX_JUMPS) == Name(Pieces(name), |p|)
  {
    var p := pre + (preference + QName(name));
    assert p == (pre + preference) + QName(name);
    NameAtEnd(pre + preference, name);
    ReadInside(pre, preference, QName(name), 0);
    assert p == pre + preference + QName(name);
  }

  /** An MX answer holds the preference and then the exchange as a name that ends the packet. */
  lemma ExchangeReadsBack(h: Header, q: Question, preference: u16, exchange: Bytes)
    requires WellFormed(q.qname) && WellFormed(exchange) && |QName(exchange)| <= 0xFFFD
    ensures var rdata := U16(preference) + QName(exchange);
            var p := AnswerBytes(h, q, TYPE_MX, rdata);
            var at := AnswerLayout(|QName(q.qname)|, TYPE_MX, |rdata|).records[0].Rdata();
            at + 2 <= |p| && ReadU16(p, at) == preference &&
            Decode(p, at + 2, MAX_JUMPS) == Name(Pieces(exchange), |p|)
  {
    var rdata := U16(preference) + QName(exchange);
    assert |AnswerHead(h, q, TYPE_MX, |rdata|)| == 26 + 2 * |QName(q.qname)|;
    PreferenceThenName(AnswerHead(h, q, TYPE_MX, |rdata|), 26 + 2 * |QName(q.qname)|, U16(preference), exchange);
  }

  lemma PtrOfOne(p: Bytes, layout: Layout, labels: seq<Bytes>)
    requires |p| >= 12 && ReadU16(p, 4) == 1 && ReadU16(p, 6) == 1
    requires Walk(p) == Some(layout) && |layout.records| == 1 && layout.records[0].rtype == TYPE_PTR
    requires Decode(p, layout.records[0].Rdata(), MAX_JUMPS).Name?
    requires Decode(p, layout.records[0].Rdata(), MAX_JUMPS).labels == labels
    ensures PtrTarget(p) == Some(Join(labels))
  {
    var off := Questions(p, 12, 1).end;
    assert RecordAt(p, off) == Some(layout.records[0]);
    assert FirstPtr(p, off, 1) == Some(Join(labels));
  }

  /** The target of a PTR response is found again, less a trailing dot. */
  lemma PtrRoundTrip(h: Header, q: Question, target: Bytes)
    requires WellFormed(q.qname) && WellFormed(target) && |QName(target)| <= 0xFFFF
    ensures PtrTarget(AnswerBytes(h, q, TYPE_PTR, QName(target))) == Some(Undotted(target))
  {
    var p, n := AnswerBytes(h, q, TYPE_PTR, QName(target)), |QName(target)|;
    AnswerWalks(h, q, TYPE_PTR, QName(target));
    TargetReadsBack(h, q, TYPE_PTR, target);
    PiecesJoin(target);
    var b, words, fixed := AnswerShape(h, q, TYPE_PTR, QName(target));
    CountsKept(b, QName(q.qname) + words, QName(q.qname), fixed, QName(target));
    PtrOfOne(p, AnswerLayout(|QName(q.qname)|, TYPE_PTR, n), Pieces(target));
  }

  lemma WordsBack(p: Bytes, end: nat)
    requires end + 4 <= |p|
    ensures p[end..end + 4] == U16(ReadU16(p, end)) + U16(ReadU16(p, end + 2))
  {
  }

  /** The question section of an accepted query: its encoded labels and four octets of words,
      the same four that a response repeats. */
  lemma QuestionSection(p: Bytes) returns (words: Bytes)
    requires QuestionOf(p).Some?
    ensures var q, labels := QuestionOf(p).value, Plain(p, 12).labels;
            && Sized(labels)
            && p[12..12 + q.rawLength] == Encode(labels) + words
            && QuestionBytes(q) == QName(Join(labels)) + words
  {
    var end := Plain(p, 12).end;
    words := p[end..end + 4];
    PlainIsEncoded(p, 12, MAX_JUMPS);
    PlainLabelSizes(p, 12);
    WordsBack(p, end);
    assert p[12..end + 4] == p[12..end] + words;
  }

  lemma SameHead(x: Bytes, y: Bytes, z: Bytes)
    ensures x + z == y + z <==> x == y
  {
    if x + z == y + z {
      assert |x + z| == |y + z|;
      assert x == (x + z)[..|x|] == (y + z)[..|y|] == y;
    }
  }

  lemma RepeatsIffDotFree(b: Bytes, labels: seq<Bytes>, words: Bytes)
    requires |b| == 12 && Sized(labels)
    ensures (b + (QName(Join(labels)) + words))[12..] == Encode(labels) + words <==> Free(labels, DOT)
  {
    assert (b + (QName(Join(labels)) + words))[12..] == QName(Join(labels)) + words;
    SameHead(QName(Join(labels)), Encode(labels), words);
    ReencodeIffDotFree(labels);
  }

  /** The question section of an empty response repeats the query's, byte for byte, exactly when
      no label of the question contains a dot byte. */
  lemma EmptyResponseRepeatsQuestion(p: Bytes, h: Header)
    requires QuestionOf(p).Some?
    ensures var q := QuestionOf(p).value;
            var r := HeaderBytes(h, 1, 0) + QuestionBytes(q);
            r[12..] == p[12..12 + q.rawLength] <==> Free(Plain(p, 12).labels, DOT)
  {
    var words := QuestionSection(p);
    RepeatsIffDotFree(HeaderBytes(h, 1, 0), Plain(p, 12).labels, words);
  }

  /** An accepted query for the one label `.` gets a response with another question section. */
  lemma DotLabelNotRepeated(h: Header) returns (p: Bytes)
    ensures QuestionOf(p).Some? && Plain(p, 12).labels == [[DOT]]
    ensures var q := QuestionOf(p).value;
            (HeaderBytes(h, 1, 0) + QuestionBytes(q))[12..] != p[12..12 + q.rawLength]
  {
    p := [0, 0, 0, 0, 0, 1, 0, 0, 0, 0, 0, 0, 1, DOT, 0, 0, 1, 0, 1];
    assert Plain(p, 14) == Name([], 15);
    assert p[13..14] == [DOT];
    assert Plain(p, 12) == Name([[DOT]], 15);
    EmptyResponseRepeatsQuestion(p, h);
  }

  // ----- TXT strings (section 3.3.14 of RFC 1035) -----

  /** The text in a run of length-prefixed strings, None when the last one is cut short. */
  function Strings(d: Bytes): Option<Bytes>
    decreases |d|
  {
    if d == [] then Some([])
    else if 1 + d[0] > |d| then None
    else
      match Strings(d[1 + d[0]..])
      case None => None
      case Some(rest) => Some(d[1..1 + d[0]] + rest)
  }

  /** Chunking is lossless, and its size is the text and one byte for every 255 begun. */
  lemma {:induction false} TxtRoundTrip(text: Bytes)
    ensures Strings(TxtData(text)) == Some(text)
    ensures |TxtData(text)| == |text| + (if text == [] then 1 else (|text| + 254) / 255)
    decreases |text|
  {
    var d := TxtData(text);
    if |text| <= 255 {
      assert d[1 + d[0]..] == [];
      assert d[1..1 + d[0]] == text;
      assert text + [] == text;
    } else {
      TxtRoundTrip(text[255..]);
      assert d[1..256] == text[..255];
      assert d[256..] == TxtData(text[255..]);
      assert text == text[..255] + text[255..];
    }
  }

  /** The 16-bit RDATA length of a TXT answer is right exactly up to 65279 octets of text. */
  lemma TxtLengthFits(text: Bytes)
    ensures LowU16(|TxtData(text)|) == |TxtData(text)| <==> |text| <= 65279
  {
    TxtRoundTrip(text);
  }
}
