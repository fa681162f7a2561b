/** The query that looks up the name of a client: PTR for its reversed IPv4 address. */
module ClientName {
  import opened Bytes
  import opened Names
  import opened NameCodec
  import opened Message
  import opened Text
  import opened Responses
  import opened ResponseLaws

  const UNKNOWN: Bytes := [45]
  const IN_ADDR: Bytes := [105, 110, 45, 97, 100, 100, 114]  // in-addr
  const ARPA: Bytes := [97, 114, 112, 97]  // arpa

  /** Identifier 0x4242, recursion desired, one question. */
  const QUERY_HEADER: Bytes := [66, 66, 1, 0, 0, 1, 0, 0, 0, 0, 0, 0]

  function ReverseLabels(parts: seq<Bytes>): seq<Bytes>
    requires |parts| == 4
  {
    [parts[3], parts[2], parts[1], parts[0], IN_ADDR, ARPA]
  }

  function PtrQuery(name: Bytes): Bytes
  {
    QUERY_HEADER + QName(name) + (U16(TYPE_PTR) + U16(1))
  }

  /** The query for an address in dotted text, None unless it has four parts. */
  function ReverseQuery(addr: Bytes): Option<Bytes>
  {
    var parts := Split(addr, DOT);
    if |parts| != 4 then None else Some(PtrQuery(Join(ReverseLabels(parts))))
  }

  /** parts[3].parts[2].parts[1].parts[0].in-addr.arpa */
  method ReverseName(parts: seq<Bytes>) returns (name: Bytes)
    requires |parts| == 4
    ensures name == Join(ReverseLabels(parts))
  {
    var p0, p1, p2, p3 := parts[0], parts[1], parts[2], parts[3];
    name := IN_ADDR + [DOT] + ARPA;
    JoinCons(IN_ADDR, [ARPA]);
    assert [IN_ADDR] + [ARPA] == [IN_ADDR, ARPA];
    name := p0 + [DOT] + name;
    JoinCons(p0, [IN_ADDR, ARPA]);
    assert [p0] + [IN_ADDR, ARPA] == [p0, IN_ADDR, ARPA];
    name := p1 + [DOT] + name;
    JoinCons(p1, [p0, IN_ADDR, ARPA]);
    assert [p1] + [p0, IN_ADDR, ARPA] == [p1, p0, IN_ADDR, ARPA];
    name := p2 + [DOT] + name;
    JoinCons(p2, [p1, p0, IN_ADDR, ARPA]);
    assert [p2] + [p1, p0, IN_ADDR, ARPA] == [p2, p1, p0, IN_ADDR, ARPA];
    name := p3 + [DOT] + name;
    JoinCons(p3, [p2, p1, p0, IN_ADDR, ARPA]);
    assert [p3] + [p2, p1, p0, IN_ADDR, ARPA] == ReverseLabels(parts);
  }

  method WriteQuery(name: Bytes) returns (query: Bytes)
    ensures query == PtrQuery(name)
  {
    var buf := new ByteVector();
    buf.Append(QUERY_HEADER);
    WriteQName(buf, name);
    buf.Append(U16(TYPE_PTR) + U16(1));
    query := buf.data;
  }

  method BuildReverseQuery(addr: Bytes) returns (r: Option<Bytes>)
    ensures r == ReverseQuery(addr) && (r.Some? <==> |Split(addr, DOT)| == 4)
  {
    var parts := SplitAt(addr, DOT);
    if |parts| != 4 {
      return None;
    }
    var name := ReverseName(parts);
    var query := WriteQuery(name);
    return Some(query);
  }

  lemma PtrQueryHeader(name: Bytes)
    ensures HeaderOf(PtrQuery(name)) == Header(0x4242, 0x0100, 1, 0, 0, 0)
  {
    assert forall i :: 0 <= i < 12 ==> PtrQuery(name)[i] == QUERY_HEADER[i];
  }

  lemma WordsAtEnd(pre: Bytes, words: Bytes, end: nat)
    requires |words| == 4 && |pre| == end
    ensures ReadU16(pre + words, end) == ReadU16(words, 0) && ReadU16(pre + words, end + 2) == ReadU16(words, 2)
  {
    assert pre + words == pre + words + [];
    ReadInside(pre, words, [], 0);
    ReadInside(pre, words, [], 2);
  }

  lemma PtrQueryParses(name: Bytes, labels: seq<Bytes>)
    requires Sized(labels) && Pieces(name) == labels && Join(labels) == name
    ensures QuestionOf(PtrQuery(name)) == Some(Question(name, TYPE_PTR, 1, 12, |PtrQuery(name)| - 12))
    ensures HeaderOf(PtrQuery(name)) == Header(0x4242, 0x0100, 1, 0, 0, 0)
  {
    var words := U16(TYPE_PTR) + U16(1);
    var p, end := PtrQuery(name), 12 + |QName(name)|;
    PtrQueryHeader(name);
    assert Plain(p, 12) == Name(labels, end) by { NameRoundTrip(QUERY_HEADER, name, words, 0); }
    WordsAtEnd(QUERY_HEADER + QName(name), words, end);
  }

  /** The name under which the address with these parts is looked up. */
  ghost function ArpaName(parts: seq<Bytes>): Bytes
    requires |parts| == 4
  {
    parts[3] + [DOT] + parts[2] + [DOT] + parts[1] + [DOT] + parts[0] + Ascii(".in-addr.arpa")
  }

  /** Two labels in front may as well be one with a dot in it. */
  lemma MergeLabels(x: Bytes, y: Bytes, rest: seq<Bytes>)
    ensures Join([x] + ([y] + rest)) == Join([x + [DOT] + y] + rest)
  {
    JoinCons(x, [y] + rest);
    JoinCons(y, rest);
    JoinCons(x + [DOT] + y, rest);
    if rest != [] {
      assert x + [DOT] + (y + [DOT] + Join(rest)) == x + [DOT] + y + [DOT] + Join(rest);
    }
  }

  lemma JoinSix(a: Bytes, b: Bytes, c: Bytes, d: Bytes, e: Bytes, f: Bytes)
    ensures Join([a, b, c, d, e, f]) == a + [DOT] + b + [DOT] + c + [DOT] + d + [DOT] + e + [DOT] + f
  {
    var ab := a + [DOT] + b;
    var abc := ab + [DOT] + c;
    var abcd := abc + [DOT] + d;
    var abcde := abcd + [DOT] + e;
    assert [a, b, c, d, e, f] == [a] + ([b] + [c, d, e, f]);
    MergeLabels(a, b, [c, d, e, f]);
    assert [ab] + [c, d, e, f] == [ab] + ([c] + [d, e, f]);
    MergeLabels(ab, c, [d, e, f]);
    assert [abc] + [d, e, f] == [abc] + ([d] + [e, f]);
    MergeLabels(abc, d, [e, f]);
    assert [abcd] + [e, f] == [abcd] + ([e] + [f]);
    MergeLabels(abcd, e, [f]);
    assert [abcde] + [f] == [abcde] + ([f] + []);
    MergeLabels(abcde, f, []);
    assert [abcde + [DOT] + f] + [] == [abcde + [DOT] + f];
  }

  lemma ReverseJoined(parts: seq<Bytes>)
    requires |parts| == 4
    ensures Join(ReverseLabels(parts)) == ArpaName(parts)
  {
    JoinSix(parts[3], parts[2], parts[1], parts[0], IN_ADDR, ARPA);
    assert Ascii(".in-addr.arpa") == [DOT] + IN_ADDR + [DOT] + ARPA;
  }

  /** The server parses its own reverse query: one PTR question, class IN, for the parts of the address
      in reverse order followed by in-addr.arpa. */
  lemma ReverseQueryParses(addr: Bytes)
    requires var parts := Split(addr, DOT); |parts| == 4 && Sized(parts)
    ensures var name := ArpaName(Split(addr, DOT));
            var query := ReverseQuery(addr).value;
            && QuestionOf(query) == Some(Question(name, 12, 1, 12, |query| - 12)) && WellFormed(name)
            && HeaderOf(query) == Header(0x4242, 0x0100, 1, 0, 0, 0)
  {
    var parts := Split(addr, DOT);
    var labels := ReverseLabels(parts);
    SplitJoin(addr, DOT);
    assert Free(labels, DOT) && Sized(labels);
    JoinPieces(labels);
    PtrQueryParses(Join(labels), labels);
    ReverseJoined(parts);
  }
}
