/** Messages (sections 4.1.1 to 4.1.3 of RFC 1035): the query parser, the walk over questions
    and resource records, and the search for a PTR target. */
module Message {
  import opened Bytes
  import opened Names
  import opened NameCodec

  const TYPE_A: u16 := 1
  const TYPE_CNAME: u16 := 5
  const TYPE_PTR: u16 := 12
  const TYPE_MX: u16 := 15
  const TYPE_TXT: u16 := 16
  const TYPE_AAAA: u16 := 28

  datatype Header = Header(id: u16, flags: u16, qdcount: u16, ancount: u16, nscount: u16, arcount: u16)

  datatype Question = Question(qname: Bytes, qtype: u16, qclass: u16, rawOffset: nat, rawLength: nat)

  function ReadU16(p: Bytes, i: nat): u16
    requires i + 1 < |p|
  {
    p[i] as int * 256 + p[i + 1] as int
  }

  // ----- Parsing a query -----

  /** What ParseDnsQuery stores: the six header words. */
  function HeaderOf(p: Bytes): Header
    requires |p| >= 12
  {
    Header(ReadU16(p, 0), ReadU16(p, 2), ReadU16(p, 4), ReadU16(p, 6), ReadU16(p, 8), ReadU16(p, 10))
  }

  /** The first question of a query, when ParseDnsQuery accepts it. */
  function QuestionOf(p: Bytes): Option<Question>
  {
    if |p| < 12 || ReadU16(p, 4) == 0 then None
    else
      match Plain(p, 12)
      case Malformed => None
      case Name(labels, end) =>
        if end + 4 > |p| then None
        else Some(Question(Join(labels), ReadU16(p, end), ReadU16(p, end + 2), 12, end + 4 - 12))
  }

  method ParseDnsQuery(packet: Bytes) returns (ok: bool, header: Header, question: Question)
    ensures ok <==> QuestionOf(packet).Some?
    ensures ok ==> header == HeaderOf(packet) && question == QuestionOf(packet).value
  {
    ok, header, question := false, Header(0, 0, 0, 0, 0, 0), Question([], 0, 0, 0, 0);
    if |packet| < 12 {
      return;
    }
    header := HeaderOf(packet);
    if ReadU16(packet, 4) == 0 {
      return;
    }
    var offset := 12;
    var parsed, qname, end := ParseQName(packet, offset);
    if !parsed {
      return;
    }
    if end + 4 > |packet| {
      return;
    }
    ok := true;
    question := Question(qname, ReadU16(packet, end), ReadU16(packet, end + 2), offset, end + 4 - offset);
  }

  lemma PlainQuestionName(p: Bytes, labels: seq<Bytes>, end: nat, jumps: nat)
    requires Plain(p, 12) == Name(labels, end) && end < |p|
    ensures Decode(p, 12, jumps) == Name(labels, end) && p[end - 1] == 0 && p[12..end] == Encode(labels)
    ensures Sized(labels) && AtMost63(Pieces(Join(labels)))
  {
    PlainLabelSizes(p, 12);
    PieceSizes(labels);
    PlainIsEncoded(p, 12, jumps);
  }

  /** A parsed question name is always zero-terminated, ReadName agrees with it, its octets are
      the encoding of its labels, and re-encoding the dotted name never cuts a length byte. */
  lemma ParsedQuestionName(p: Bytes, jumps: nat)
    requires QuestionOf(p).Some?
    ensures var q := QuestionOf(p).value;
            var end := q.rawOffset + q.rawLength - 4;
            var r := Decode(p, 12, jumps);
            && r.Name? && r.end == end && Join(r.labels) == q.qname
            && p[end - 1] == 0 && p[12..end] == Encode(r.labels) && Sized(r.labels)
            && forall i :: 0 <= i < |Pieces(q.qname)| ==> |Pieces(q.qname)[i]| <= 63
  {
    PlainQuestionName(p, Plain(p, 12).labels, Plain(p, 12).end, jumps);
  }

  /** A packet made of twelve octets, encoded labels of 1 to 63 octets, two words and anything else. */
  ghost predicate QueryShape(p: Bytes, head: Bytes, labels: seq<Bytes>, words: Bytes, rest: Bytes)
  {
    p == head + Encode(labels) + words + rest && |head| == 12 && |words| == 4 && Sized(labels)
  }

  /** Every such packet whose header announces a question is accepted, whatever follows: the header
      words are its octets, the question has that name and the two words as type and class. */
  lemma QueryAccepted(p: Bytes, head: Bytes, labels: seq<Bytes>, words: Bytes, rest: Bytes)
    requires QueryShape(p, head, labels, words, rest) && (head[4] != 0 || head[5] != 0)
    ensures QuestionOf(p) == Some(Question(Join(labels), words[0] as int * 256 + words[1] as int,
                                           words[2] as int * 256 + words[3] as int, 12, |Encode(labels)| + 4))
    ensures HeaderOf(p) == Header(head[0] as int * 256 + head[1] as int, head[2] as int * 256 + head[3] as int,
                                  head[4] as int * 256 + head[5] as int, head[6] as int * 256 + head[7] as int,
                                  head[8] as int * 256 + head[9] as int, head[10] as int * 256 + head[11] as int)
  {
    var end := 12 + |Encode(labels)|;
    assert Stands(p, 12, Encode(labels));
    assert Plain(p, 12) == Name(labels, end) by { DecodeEncode(p, 12, labels, 0, end); }
    assert forall i :: 0 <= i < 12 ==> p[i] == head[i];
    assert forall i :: 0 <= i < 4 ==> p[end + i] == words[i];
  }

  lemma FourParts(p: Bytes, i: nat, j: nat, k: nat)
    requires i <= j <= k <= |p|
    ensures p == p[..i] + p[i..j] + p[j..k] + p[k..]
  {
    assert p[..i] + p[i..j] == p[..j] && p[..j] + p[j..k] == p[..k];
  }

  /** And there are no others. */
  lemma AcceptedShape(p: Bytes) returns (head: Bytes, labels: seq<Bytes>, words: Bytes, rest: Bytes)
    requires QuestionOf(p).Some?
    ensures QueryShape(p, head, labels, words, rest) && (head[4] != 0 || head[5] != 0)
  {
    var end := Plain(p, 12).end;
    head, labels, words, rest := p[..12], Plain(p, 12).labels, p[end..end + 4], p[end + 4..];
    PlainIsEncoded(p, 12, 0);
    PlainLabelSizes(p, 12);
    FourParts(p, 12, end, end + 4);
    assert head[4] == p[4] && head[5] == p[5];
  }

  // ----- Walking a message -----

  /** A question: where its name starts and ends. */
  datatype Span = Span(start: nat, nameEnd: nat)

  /** A resource record: where its name starts and ends, its type and its RDATA length. */
  datatype Record = Record(start: nat, nameEnd: nat, rtype: u16, rdlength: u16)
  {
    function Rdata(): nat { nameEnd + 10 }
    function Next(): nat { Rdata() + rdlength }
  }

  /** The result of walking over a run of items: them and the offset after them. */
  datatype Walked<T> = Stuck | Walked(items: seq<T>, end: nat)

  function QuestionAt(p: Bytes, off: nat): (r: Option<Span>)
    ensures r.Some? ==> r.value.start == off < r.value.nameEnd && r.value.nameEnd + 4 <= |p|
  {
    match Decode(p, off, MAX_JUMPS)
    case Malformed => None
    case Name(_, end) => if end + 4 > |p| then None else Some(Span(off, end))
  }

  function RecordAt(p: Bytes, off: nat): (r: Option<Record>)
    ensures r.Some? ==> r.value.start == off < r.value.nameEnd && r.value.Next() <= |p|
  {
    match Decode(p, off, MAX_JUMPS)
    case Malformed => None
    case Name(_, end) =>
      if end + 10 > |p| then None
      else
        var r := Record(off, end, ReadU16(p, end), ReadU16(p, end + 8));
        if r.Next() > |p| then None else Some(r)
  }

  function Questions(p: Bytes, off: nat, n: nat): (w: Walked<Span>)
    ensures w.Walked? ==> |w.items| == n && off <= w.end
    decreases n
  {
    if n == 0 then Walked([], off)
    else
      match QuestionAt(p, off)
      case None => Stuck
      case Some(q) =>
        var rest := Questions(p, q.nameEnd + 4, n - 1);
        if rest.Stuck? then Stuck else Walked([q] + rest.items, rest.end)
  }

  function Records(p: Bytes, off: nat, n: nat): (w: Walked<Record>)
    ensures w.Walked? ==> |w.items| == n && off <= w.end
    decreases n
  {
    if n == 0 then Walked([], off)
    else
      match RecordAt(p, off)
      case None => Stuck
      case Some(r) =>
        var rest := Records(p, r.Next(), n - 1);
        if rest.Stuck? then Stuck else Walked([r] + rest.items, rest.end)
  }

  /** Answers, authorities and additionals together. */
  function RecordCount(p: Bytes): nat
    requires |p| >= 12
  {
    ReadU16(p, 6) + ReadU16(p, 8) + ReadU16(p, 10)
  }

  /** Everything a read-only walk of a message finds. */
  datatype Layout = Layout(questions: seq<Span>, records: seq<Record>, end: nat)

  function Walk(p: Bytes): Option<Layout>
  {
    if |p| < 12 then None
    else
      match Questions(p, 12, ReadU16(p, 4))
      case Stuck => None
      case Walked(questions, off) =>
        match Records(p, off, RecordCount(p))
        case Stuck => None
        case Walked(records, end) => Some(Layout(questions, records, end))
  }

  // ----- What a walk finds, octet by octet -----

  /** A name that ReadName reads from `start` to `end`. */
  ghost predicate NameSpans(p: Bytes, start: nat, end: nat)
  {
    Decode(p, start, MAX_JUMPS).Name? && Decode(p, start, MAX_JUMPS).end == end
  }

  /** A name and four more octets. */
  ghost predicate QuestionStands(p: Bytes, off: nat, s: Span)
  {
    s.start == off && NameSpans(p, off, s.nameEnd) && s.nameEnd + 4 <= |p|
  }

  /** A name, ten octets of which the first two and the last two say type and RDATA length, and as
      many octets of RDATA. */
  ghost predicate RecordStands(p: Bytes, off: nat, r: Record)
  {
    var at := r.nameEnd;
    && r.start == off && NameSpans(p, off, at) && at + 10 + r.rdlength <= |p|
    && r.rtype == p[at] as int * 256 + p[at + 1] as int && r.rdlength == p[at + 8] as int * 256 + p[at + 9] as int
  }

  /** The questions stand one behind the other from `off` to `end`. */
  ghost predicate QuestionsStand(p: Bytes, off: nat, questions: seq<Span>, end: nat)
    decreases |questions|
  {
    if questions == [] then off == end
    else QuestionStands(p, off, questions[0]) && QuestionsStand(p, questions[0].nameEnd + 4, questions[1..], end)
  }

  /** The records stand one behind the other from `off` to `end`. */
  ghost predicate RecordsStand(p: Bytes, off: nat, records: seq<Record>, end: nat)
    decreases |records|
  {
    if records == [] then off == end
    else
      var r := records[0];
      RecordStands(p, off, r) && RecordsStand(p, r.nameEnd + 10 + r.rdlength, records[1..], end)
  }

  lemma QuestionStandsIff(p: Bytes, off: nat, s: Span)
    ensures QuestionAt(p, off) == Some(s) <==> QuestionStands(p, off, s)
  {
  }

  lemma RecordStandsIff(p: Bytes, off: nat, r: Record)
    ensures RecordAt(p, off) == Some(r) <==> RecordStands(p, off, r)
  {
  }

  /** The walk over questions finds just those that stand there. */
  lemma {:induction false} QuestionsIff(p: Bytes, off: nat, questions: seq<Span>, end: nat)
    ensures Questions(p, off, |questions|) == Walked(questions, end) <==> QuestionsStand(p, off, questions, end)
    decreases |questions|
  {
    if questions == [] {
    } else {
      QuestionStandsIff(p, off, questions[0]);
      QuestionsIff(p, questions[0].nameEnd + 4, questions[1..], end);
      assert questions == [questions[0]] + questions[1..];
    }
  }

  /** And so does the walk over records. */
  lemma {:induction false} RecordsIff(p: Bytes, off: nat, records: seq<Record>, end: nat)
    ensures Records(p, off, |records|) == Walked(records, end) <==> RecordsStand(p, off, records, end)
    decreases |records|
  {
    if records == [] {
    } else {
      RecordStandsIff(p, off, records[0]);
      RecordsIff(p, records[0].Next(), records[1..], end);
      assert records == [records[0]] + records[1..];
    }
  }

  /** Behind the header stand as many questions as octets 4 and 5 say, up to `off`. */
  ghost predicate QuestionSectionStands(p: Bytes, questions: seq<Span>, off: nat)
  {
    |p| >= 12 && |questions| == p[4] as int * 256 + p[5] as int && QuestionsStand(p, 12, questions, off)
  }

  /** From `off` on stand as many records as octets 6 to 11 say in three words. */
  ghost predicate RecordSectionsStand(p: Bytes, off: nat, records: seq<Record>, end: nat)
  {
    && |p| >= 12 && RecordsStand(p, off, records, end)
    && |records| == (p[6] as int * 256 + p[7] as int) + (p[8] as int * 256 + p[9] as int) +
                    (p[10] as int * 256 + p[11] as int)
  }

  /** The whole message, octet by octet: header, questions and the records of three sections. */
  ghost predicate LaidOut(p: Bytes, layout: Layout)
  {
    exists off :: QuestionSectionStands(p, layout.questions, off) &&
                  RecordSectionsStand(p, off, layout.records, layout.end)
  }

  lemma QuestionSectionIff(p: Bytes, questions: seq<Span>, off: nat)
    requires |p| >= 12
    ensures Questions(p, 12, ReadU16(p, 4)) == Walked(questions, off) <==> QuestionSectionStands(p, questions, off)
  {
    QuestionsIff(p, 12, questions, off);
  }

  lemma RecordSectionsIff(p: Bytes, off: nat, records: seq<Record>, end: nat)
    requires |p| >= 12
    ensures Records(p, off, RecordCount(p)) == Walked(records, end) <==> RecordSectionsStand(p, off, records, end)
  {
    RecordsIff(p, off, records, end);
  }

  /** A read-only walk finds a layout exactly if the message has it. */
  lemma WalkIffLaidOut(p: Bytes, layout: Layout)
    ensures Walk(p) == Some(layout) <==> LaidOut(p, layout)
  {
    if |p| >= 12 {
      forall off: nat
        ensures Questions(p, 12, ReadU16(p, 4)) == Walked(layout.questions, off) <==>
                QuestionSectionStands(p, layout.questions, off)
        ensures Records(p, off, RecordCount(p)) == Walked(layout.records, layout.end) <==>
                RecordSectionsStand(p, off, layout.records, layout.end)
      {
        QuestionSectionIff(p, layout.questions, off);
        RecordSectionsIff(p, off, layout.records, layout.end);
      }
    }
  }

  method WalkQuestions(packet: Bytes, qdcount: u16) returns (ok: bool, offset: nat)
    ensures var w := Questions(packet, 12, qdcount); ok == w.Walked? && (ok ==> offset == w.end)
  {
    ok, offset := false, 12;
    ghost var w := Questions(packet, 12, qdcount);
    ghost var rest := w;
    for i := 0 to qdcount
      invariant rest == Questions(packet, offset, qdcount - i)
      invariant w.Walked? == rest.Walked?
      invariant w.Walked? ==> w.end == rest.end
    {
      var read, _, end := ReadName(packet, offset);
      if !read {
        return;
      }
      if end + 4 > |packet| {
        return;
      }
      offset := end + 4;
      rest := Questions(packet, offset, qdcount - i - 1);
    }
    ok := true;
  }

  /** The step both record loops take: read the name, the fixed part and the RDATA bounds. */
  method ReadRecord(packet: Bytes, offset: nat) returns (ok: bool, r: Record)
    ensures ok == RecordAt(packet, offset).Some? && (ok ==> r == RecordAt(packet, offset).value)
  {
    ok, r := false, Record(0, 0, 0, 0);
    var read, _, end := ReadName(packet, offset);
    if !read {
      return;
    }
    if end + 10 > |packet| {
      return;
    }
    r := Record(offset, end, ReadU16(packet, end), ReadU16(packet, end + 8));
    if r.Next() > |packet| {
      return;
    }
    ok := true;
  }

  // ----- The first PTR target -----

  /** The target of the first PTR record among `n` records from `off`; None when the walk breaks
      first, there is none, or its target is no name. */
  function FirstPtr(p: Bytes, off: nat, n: nat): Option<Bytes>
    decreases n
  {
    if n == 0 then None
    else
      match RecordAt(p, off)
      case None => None
      case Some(r) =>
        if r.rtype == TYPE_PTR then
          match Decode(p, r.Rdata(), MAX_JUMPS) {
            case Malformed => None
            case Name(labels, _) => Some(Join(labels))
          }
        else FirstPtr(p, r.Next(), n - 1)
  }

  function PtrTarget(p: Bytes): Option<Bytes>
  {
    if |p| < 12 then None
    else
      match Questions(p, 12, ReadU16(p, 4))
      case Stuck => None
      case Walked(_, off) => FirstPtr(p, off, ReadU16(p, 6))
  }

  method ExtractFirstPtrTarget(packet: Bytes) returns (ok: bool, target: Bytes)
    ensures ok == PtrTarget(packet).Some? && (ok ==> target == PtrTarget(packet).value)
  {
    ok, target := false, [];
    if |packet| < 12 {
      return;
    }
    var qdcount, ancount := ReadU16(packet, 4), ReadU16(packet, 6);
    var walked, offset: nat := WalkQuestions(packet, qdcount);
    if !walked {
      return;
    }
    ghost var rest := FirstPtr(packet, offset, ancount);
    for i := 0 to ancount
      invariant !ok && rest == PtrTarget(packet)
      invariant rest == FirstPtr(packet, offset, ancount - i)
    {
      var read, r := ReadRecord(packet, offset);
      if !read {
        return;
      }
      if r.rtype == TYPE_PTR {
        var rEnd;
        ok, target, rEnd := ReadName(packet, r.Rdata());
        return;
      }
      offset := r.Next();
    }
  }

  ghost predicate NameAt(p: Bytes, off: nat, t: Bytes)
  {
    Decode(p, off, MAX_JUMPS).Name? && Join(Decode(p, off, MAX_JUMPS).labels) == t
  }

  /** Record `k` from `off` is the first PTR record and holds the name `t`. */
  ghost predicate IsFirstPtr(p: Bytes, off: nat, k: nat, t: Bytes)
  {
    var w := Records(p, off, k + 1);
    w.Walked? && w.items[k].rtype == TYPE_PTR && NameAt(p, w.items[k].Rdata(), t) &&
    forall i :: 0 <= i < k ==> w.items[i].rtype != TYPE_PTR
  }

  lemma IsFirstPtrStep(p: Bytes, off: nat, k: nat, t: Bytes)
    requires RecordAt(p, off).Some?
    ensures var r := RecordAt(p, off).value;
            IsFirstPtr(p, off, k, t) <==>
            if k == 0 then r.rtype == TYPE_PTR && NameAt(p, r.Rdata(), t)
            else r.rtype != TYPE_PTR && IsFirstPtr(p, r.Next(), k - 1, t)
  {
    var r := RecordAt(p, off).value;
    var w, rest := Records(p, off, k + 1), Records(p, r.Next(), k);
    if w.Walked? && k > 0 {
      assert w.items == [r] + rest.items;
      assert forall i :: 0 <= i < k ==> rest.items[i] == w.items[i + 1];
      assert w.items[0] == r;
    }
  }

  /** The target found is the name in the RDATA of the first PTR record of the answer section,
      and every record before it was walked. */
  lemma {:induction false} FirstPtrMeaning(p: Bytes, off: nat, n: nat, t: Bytes)
    ensures FirstPtr(p, off, n) == Some(t) <==>
            exists k: nat :: k < n && IsFirstPtr(p, off, k, t)
    decreases n
  {
    if n == 0 {
    } else {
      match RecordAt(p, off)
      case None =>
        assert forall k: nat :: !IsFirstPtr(p, off, k, t);
      case Some(r) =>
        FirstPtrMeaning(p, r.Next(), n - 1, t);
        forall k: nat
          ensures IsFirstPtr(p, off, k, t) <==>
                  if k == 0 then r.rtype == TYPE_PTR && NameAt(p, r.Rdata(), t)
                  else r.rtype != TYPE_PTR && IsFirstPtr(p, r.Next(), k - 1, t)
        {
          IsFirstPtrStep(p, off, k, t);
        }
        if FirstPtr(p, off, n) == Some(t) && r.rtype != TYPE_PTR {
          var k: nat :| k < n - 1 && IsFirstPtr(p, r.Next(), k, t);
          assert IsFirstPtr(p, off, k + 1, t);
        }
        if r.rtype == TYPE_PTR && NameAt(p, r.Rdata(), t) {
          assert IsFirstPtr(p, off, 0, t);
        }
    }
  }

  /** These records stand from `off` on, and the last of them is the first PTR record, type 12, with the
      name `t` as its RDATA. */
  ghost predicate PtrStands(p: Bytes, off: nat, records: seq<Record>, end: nat, t: Bytes)
  {
    && records != [] && RecordsStand(p, off, records, end)
    && (forall i :: 0 <= i < |records| ==> (records[i].rtype == 12 <==> i == |records| - 1))
    && NameAt(p, records[|records| - 1].nameEnd + 10, t)
  }

  lemma PtrStandsIff(p: Bytes, off: nat, records: seq<Record>, end: nat, t: Bytes)
    requires records != []
    ensures PtrStands(p, off, records, end, t) <==>
            Records(p, off, |records|) == Walked(records, end) && IsFirstPtr(p, off, |records| - 1, t)
  {
    RecordsIff(p, off, records, end);
  }

  /** The first PTR record among as many answers as octets 6 and 7 say holds the name `t`. */
  ghost predicate PtrAnswer(p: Bytes, t: Bytes)
  {
    exists questions, off, records, end ::
      QuestionSectionStands(p, questions, off) && PtrStands(p, off, records, end, t) &&
      |records| <= p[6] as int * 256 + p[7] as int
  }

  lemma PtrTargetStands(p: Bytes, t: Bytes)
    requires PtrTarget(p) == Some(t)
    ensures PtrAnswer(p, t)
  {
    var q := Questions(p, 12, ReadU16(p, 4));
    QuestionSectionIff(p, q.items, q.end);
    FirstPtrMeaning(p, q.end, ReadU16(p, 6), t);
    var k: nat :| k < ReadU16(p, 6) && IsFirstPtr(p, q.end, k, t);
    var w := Records(p, q.end, k + 1);
    PtrStandsIff(p, q.end, w.items, w.end, t);
  }

  /** The target extracted is the name in the RDATA of the first PTR record among the answers; none is
      found without one, or if the questions or a record before it cannot be read. */
  lemma PtrTargetIff(p: Bytes, t: Bytes)
    ensures PtrTarget(p) == Some(t) <==> PtrAnswer(p, t)
  {
    if PtrTarget(p) == Some(t) {
      PtrTargetStands(p, t);
    }
    if PtrAnswer(p, t) {
      var questions, off, records, end :| QuestionSectionStands(p, questions, off) &&
        PtrStands(p, off, records, end, t) && |records| <= p[6] as int * 256 + p[7] as int;
      QuestionSectionIff(p, questions, off);
      PtrStandsIff(p, off, records, end, t);
      FirstPtrMeaning(p, off, ReadU16(p, 6), t);
    }
  }
}
