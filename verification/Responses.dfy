/** The responses the server writes itself: header, question and at most one answer. */
module Responses {
  import opened Bytes
  import opened NameCodec
  import opened Message

  type Quad = s: Bytes | |s| == 4 witness [0, 0, 0, 0]
  type Octets16 = s: Bytes | |s| == 16 witness [0, 0, 0, 0, 0, 0, 0, 0, 0, 0, 0, 0, 0, 0, 0, 0]

  function U16(v: u16): (b: Bytes)
    ensures |b| == 2 && ReadU16(b, 0) == v
  {
    [v / 256, v % 256]
  }

  function U32(v: u32): (b: Bytes)
    ensures |b| == 4
  {
    U16(v / 0x1_0000) + U16(v % 0x1_0000)
  }

  /** What a 16-bit word keeps of a size. */
  function LowU16(n: nat): u16
  {
    if n < 0x1_0000 then n else n % 0x1_0000
  }

  lemma LowU16Is(n: nat)
    ensures LowU16(n) == n % 0x1_0000
  {
  }

  method WriteU16(buf: ByteVector, v: u16)
    modifies buf
    ensures buf.data == old(buf.data) + U16(v)
  {
    buf.Push(v / 256);
    buf.Push(v % 256);
  }

  method WriteU32(buf: ByteVector, v: u32)
    modifies buf
    ensures buf.data == old(buf.data) + U32(v)
  {
    WriteU16(buf, v / 0x1_0000);
    WriteU16(buf, v % 0x1_0000);
  }

  /** QR and RA set, RD copied from the query. */
  function ResponseFlags(queryFlags: u16): u16
  {
    0x8080 + (if queryFlags / 0x100 % 2 == 1 then 0x100 else 0)
  }

  function HeaderBytes(h: Header, qdcount: u16, ancount: u16): (b: Bytes)
    ensures |b| == 12
  {
    U16(h.id) + U16(ResponseFlags(h.flags)) + U16(qdcount) + U16(ancount) + U16(0) + U16(0)
  }

  method BuildResponseHeader(h: Header, qdcount: u16, ancount: u16) returns (buf: ByteVector)
    ensures fresh(buf) && buf.data == HeaderBytes(h, qdcount, ancount)
  {
    buf := new ByteVector();
    WriteU16(buf, h.id);
    WriteU16(buf, ResponseFlags(h.flags));
    WriteU16(buf, qdcount);
    WriteU16(buf, ancount);
    WriteU16(buf, 0);
    WriteU16(buf, 0);
  }

  function QuestionBytes(q: Question): Bytes
  {
    QName(q.qname) + (U16(q.qtype) + U16(q.qclass))
  }

  method AppendQuestion(buf: ByteVector, q: Question)
    modifies buf
    ensures buf.data == old(buf.data) + QuestionBytes(q)
  {
    WriteQName(buf, q.qname);
    WriteU16(buf, q.qtype);
    WriteU16(buf, q.qclass);
  }

  /** The fixed part of an answer: type, class IN, a TTL of 60 seconds and the RDATA length. */
  function AnswerFixed(rtype: u16, rdlength: u16): (b: Bytes)
    ensures |b| == 10 && ReadU16(b, 0) == rtype && ReadU16(b, 8) == rdlength
  {
    U16(rtype) + U16(1) + U32(60) + U16(rdlength)
  }

  /** Everything of a one-answer response that comes before the RDATA. */
  function AnswerHead(h: Header, q: Question, rtype: u16, rdlength: u16): Bytes
  {
    HeaderBytes(h, 1, 1) + QuestionBytes(q) + QName(q.qname) + AnswerFixed(rtype, rdlength)
  }

  /** A response with one answer for the question's own name. */
  function AnswerBytes(h: Header, q: Question, rtype: u16, rdata: Bytes): Bytes
  {
    AnswerHead(h, q, rtype, LowU16(|rdata|)) + rdata
  }

  /** What every builder writes before its RDATA. */
  method BeginAnswer(h: Header, q: Question, rtype: u16, rdlength: u16) returns (buf: ByteVector)
    ensures fresh(buf) && buf.data == AnswerHead(h, q, rtype, rdlength)
  {
    buf := BuildResponseHeader(h, 1, 1);
    AppendQuestion(buf, q);
    WriteQName(buf, q.qname);
    ghost var before := buf.data;
    WriteU16(buf, rtype);
    WriteU16(buf, 1);
    WriteU32(buf, 60);
    WriteU16(buf, rdlength);
    assert buf.data == before + AnswerFixed(rtype, rdlength);
  }

  /** What the builders with assembled RDATA do with it. */
  method AnswerWith(h: Header, q: Question, rtype: u16, rdata: Bytes) returns (r: Bytes)
    ensures r == AnswerBytes(h, q, rtype, rdata)
  {
    var buf := BeginAnswer(h, q, rtype, LowU16(|rdata|));
    buf.Append(rdata);
    r := buf.data;
  }

  method BuildEmptyResponse(h: Header, q: Question) returns (r: Bytes)
    ensures r == HeaderBytes(h, 1, 0) + QuestionBytes(q)
  {
    var buf := BuildResponseHeader(h, 1, 0);
    AppendQuestion(buf, q);
    r := buf.data;
  }

  /** `addr` is what inet_pton made of the configured text, None when it made nothing. */
  method BuildAResponse(h: Header, q: Question, addr: Option<Quad>) returns (r: Bytes)
    ensures r == AnswerBytes(h, q, TYPE_A, if addr.Some? then addr.value else [0, 0, 0, 0])
  {
    var buf := BeginAnswer(h, q, TYPE_A, 4);
    buf.Append(if addr.Some? then addr.value else [0, 0, 0, 0]);
    r := buf.data;
  }

  function Zeros16(): Octets16
  {
    [0, 0, 0, 0, 0, 0, 0, 0, 0, 0, 0, 0, 0, 0, 0, 0]
  }

  method BuildAAAAResponse(h: Header, q: Question, addr: Option<Octets16>) returns (r: Bytes)
    ensures r == AnswerBytes(h, q, TYPE_AAAA, if addr.Some? then addr.value else Zeros16())
  {
    var buf := BeginAnswer(h, q, TYPE_AAAA, 16);
    buf.Append(if addr.Some? then addr.value else Zeros16());
    r := buf.data;
  }

  method BuildCNAMEResponse(h: Header, q: Question, target: Bytes) returns (r: Bytes)
    ensures r == AnswerBytes(h, q, TYPE_CNAME, QName(target))
  {
    var cname := new ByteVector();
    WriteQName(cname, target);
    r := AnswerWith(h, q, TYPE_CNAME, cname.data);
  }

  method BuildPTRResponse(h: Header, q: Question, target: Bytes) returns (r: Bytes)
    ensures r == AnswerBytes(h, q, TYPE_PTR, QName(target))
  {
    var ptr := new ByteVector();
    WriteQName(ptr, target);
    r := AnswerWith(h, q, TYPE_PTR, ptr.data);
  }

  method BuildMXResponse(h: Header, q: Question, preference: u16, exchange: Bytes) returns (r: Bytes)
    ensures r == AnswerBytes(h, q, TYPE_MX, U16(preference) + QName(exchange))
  {
    var rdata := new ByteVector();
    WriteU16(rdata, preference);
    WriteQName(rdata, exchange);
    r := AnswerWith(h, q, TYPE_MX, rdata.data);
  }

  /** TXT RDATA: the text in length-prefixed chunks of at most 255 octets. */
  function TxtData(text: Bytes): Bytes
    decreases |text|
  {
    if |text| <= 255 then [|text|] + text
    else [255] + text[..255] + TxtData(text[255..])
  }

  /** The chunk loop from `offset` on, with `acc` already written. */
  function Chunked(acc: Bytes, text: Bytes, offset: nat): Bytes
    decreases |text| - offset
  {
    if offset >= |text| then acc
    else
      var chunk := if |text| - offset > 255 then 255 else |text| - offset;
      Chunked(acc + [chunk] + text[offset..offset + chunk], text, offset + chunk)
  }

  lemma {:induction false} ChunkedIsTxtData(acc: Bytes, text: Bytes, offset: nat)
    requires offset < |text|
    ensures Chunked(acc, text, offset) == acc + TxtData(text[offset..])
    decreases |text| - offset
  {
    var rest := text[offset..];
    if |rest| > 255 {
      var piece := text[offset..offset + 255];
      assert rest[..255] == piece && rest[255..] == text[offset + 255..];
      ChunkedIsTxtData(acc + [255] + piece, text, offset + 255);
      Reassociate(acc, [255], piece, TxtData(rest[255..]));
    } else {
      assert text[offset..offset + |rest|] == rest;
      assert acc + [|rest|] + rest == acc + ([|rest|] + rest);
    }
  }

  method ChunkText(rdata: ByteVector, text: Bytes)
    modifies rdata
    ensures rdata.data == old(rdata.data) + TxtData(text)
  {
    if text == [] {
      rdata.Push(0);
      return;
    }
    var offset: nat := 0;
    while offset < |text|
      invariant Chunked(rdata.data, text, offset) == Chunked(old(rdata.data), text, 0)
      decreases |text| - offset
    {
      var chunk := |text| - offset;
      if chunk > 255 {
        chunk := 255;
      }
      ghost var grown := rdata.data + [chunk] + text[offset..offset + chunk];
      assert Chunked(rdata.data, text, offset) == Chunked(grown, text, offset + chunk);
      rdata.Push(chunk);
      rdata.PushSlice(text, offset, chunk);
      assert rdata.data == grown;
      offset := offset + chunk;
    }
    ChunkedIsTxtData(old(rdata.data), text, 0);
    assert text[0..] == text;
  }

  method BuildTXTResponse(h: Header, q: Question, text: Bytes) returns (r: Bytes)
    ensures r == AnswerBytes(h, q, TYPE_TXT, TxtData(text))
  {
    var rdata := new ByteVector();
    ChunkText(rdata, text);
    r := AnswerWith(h, q, TYPE_TXT, rdata.data);
  }
}
