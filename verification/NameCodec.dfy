/** Writing names and reading them back: the question-name parser, WriteQName and the
    round trips between them. */
module NameCodec {
  import opened Bytes
  import opened Names

  /** What ParseQName accepts: labels without pointers, and an end that may be the end of the
      packet instead of a zero byte. */
  function Plain(p: Bytes, pos: nat): (r: Decoded)
    ensures r.Name? ==> pos <= r.end <= |p|
    decreases |p| - pos
  {
    if pos > |p| then Malformed
    else if pos == |p| then Name([], pos)
    else if p[pos] == 0 then Name([], pos + 1)
    else if p[pos] >= 64 || pos + 1 + p[pos] > |p| then Malformed
    else
      var next := pos + 1 + p[pos];
      var rest := Plain(p, next);
      if rest.Malformed? then Malformed
      else Name([p[pos + 1..next]] + rest.labels, rest.end)
  }

  lemma {:induction false} PlainLabelSizes(p: Bytes, pos: nat)
    requires Plain(p, pos).Name?
    ensures Sized(Plain(p, pos).labels)
    decreases |p| - pos
  {
    if pos >= |p| || p[pos] == 0 {
    } else {
      PlainLabelSizes(p, pos + 1 + p[pos]);
    }
  }

  method ParseQName(packet: Bytes, offset: nat) returns (ok: bool, name: Bytes, end: nat)
    ensures var r := Plain(packet, offset);
            ok == r.Name? && (ok ==> name == Join(r.labels) && end == r.end)
  {
    ok, name, end := false, [], 0;
    ghost var r := Plain(packet, offset);
    ghost var rest := r;
    var pos: nat := offset;
    while pos < |packet|
      invariant offset <= |packet| ==> pos <= |packet|
      invariant offset > |packet| ==> pos == offset
      invariant r.Name? == rest.Name?
      invariant r.Name? ==> Extend([], r.labels) == Extend(name, rest.labels) && r.end == rest.end
      invariant rest == Plain(packet, pos)
      decreases |packet| - pos
    {
      var len := packet[pos];
      pos := pos + 1;
      if len == 0 {
        rest := Name([], pos);
        break;
      }
      if len >= 64 {
        return;
      }
      if pos + len > |packet| {
        return;
      }
      if name != [] {
        name := name + [DOT];
      }
      name := name + packet[pos..pos + len];
      pos := pos + len;
      rest := Plain(packet, pos);
    }
    if pos > |packet| {
      return;
    }
    end := pos;
    ok := true;
    PlainLabelSizes(packet, offset);
    ExtendIsJoin([], r.labels);
  }

  /** Labels as length-prefixed strings ended by a zero byte. The length byte is the low byte
      of the length. */
  function Encode(labels: seq<Bytes>): Bytes
  {
    if labels == [] then [0] else [LowByte(|labels[0]|)] + labels[0] + Encode(labels[1..])
  }

  /** A name up to its first dot, and what follows that dot. */
  function Piece(name: Bytes): Bytes
  {
    match CutAt(name, DOT)
    case Whole => name
    case Cut(head, _) => head
  }

  function Rest(name: Bytes): (r: Bytes)
    ensures name != [] ==> |r| < |name|
  {
    match CutAt(name, DOT)
    case Whole => []
    case Cut(_, tail) => tail
  }

  /** The pieces WriteQName cuts a name into: at every dot, without an empty last piece. */
  function Pieces(name: Bytes): seq<Bytes>
    decreases |name|
  {
    if name == [] then [] else [Piece(name)] + Pieces(Rest(name))
  }

  /** The octets WriteQName appends for a name: up to each dot a length byte and the piece. */
  function QName(name: Bytes): Bytes
    decreases |name|
  {
    if name == [] then [0] else [LowByte(|Piece(name)|)] + Piece(name) + QName(Rest(name))
  }

  lemma EncodeCons(l: Bytes, labels: seq<Bytes>)
    ensures Encode([l] + labels) == [LowByte(|l|)] + l + Encode(labels)
  {
    assert ([l] + labels)[1..] == labels;
  }

  /** WriteQName writes exactly the encoding of the pieces. */
  lemma {:induction false} QNameIsEncode(name: Bytes)
    ensures QName(name) == Encode(Pieces(name))
    decreases |name|
  {
    if name == [] {
    } else {
      QNameIsEncode(Rest(name));
      EncodeCons(Piece(name), Pieces(Rest(name)));
    }
  }

  /** WriteQName's loop over what is left of the name, with `acc` already in the buffer. */
  function Written(acc: Bytes, name: Bytes): Bytes
    decreases |name|
  {
    if name == [] then acc + [0]
    else Written(acc + [LowByte(|Piece(name)|)] + Piece(name), Rest(name))
  }

  lemma {:induction false} WrittenIsQName(acc: Bytes, name: Bytes)
    ensures Written(acc, name) == acc + QName(name)
    decreases |name|
  {
    if name == [] {
    } else {
      var len: Bytes := [LowByte(|Piece(name)|)];
      WrittenIsQName(acc + len + Piece(name), Rest(name));
      Reassociate(acc, len, Piece(name), QName(Rest(name)));
    }
  }

  /** One turn of the loop: a length byte and the piece up to the next dot. */
  method WritePiece(buf: ByteVector, name: Bytes, start: nat) returns (next: nat)
    requires start < |name|
    modifies buf
    ensures var rest := name[start..];
            && buf.data == old(buf.data) + [LowByte(|Piece(rest)|)] + Piece(rest)
            && start < next && Rest(rest) == if next <= |name| then name[next..] else []
  {
    var dot := Find(name, DOT, start);
    var len := dot - start;
    buf.Push(LowByte(len));
    buf.PushSlice(name, start, len);
    next := dot + 1;
    ghost var rest := name[start..];
    CutIndex(rest, DOT);
    if len < |rest| {
      assert rest[..len] == name[start..start + len] && rest[len + 1..] == name[next..];
    } else {
      assert name[start..start + len] == rest;
    }
  }

  method WriteQName(buf: ByteVector, name: Bytes)
    modifies buf
    ensures buf.data == old(buf.data) + QName(name)
  {
    if name == [] {
      buf.Push(0);
      return;
    }
    var start: nat := 0;
    ghost var rest := name;
    assert name[0..] == name;
    while start < |name|
      invariant rest == if start <= |name| then name[start..] else []
      invariant Written(buf.data, rest) == Written(old(buf.data), name)
      decreases |name| - start
    {
      start := WritePiece(buf, name, start);
      rest := Rest(rest);
    }
    buf.Push(0);
    WrittenIsQName(old(buf.data), name);
  }

  // ----- Round trips -----

  /** A name whose dot-separated pieces all fit a label: what the wire can carry unharmed. */
  ghost predicate WellFormed(name: Bytes)
  {
    Sized(Pieces(name))
  }

  lemma {:induction false} PiecesFree(name: Bytes)
    ensures Free(Pieces(name), DOT)
    decreases |name|
  {
    if name == [] {
    } else {
      CutParts(name, DOT);
      PiecesFree(Rest(name));
      FreeCons(Piece(name), Pieces(Rest(name)), DOT);
    }
  }

  lemma UndottedStep(name: Bytes)
    requires name != []
    ensures Undotted(name) == if Rest(name) == [] then Piece(name) else Piece(name) + [DOT] + Undotted(Rest(name))
  {
    CutParts(name, DOT);
    var rest := Rest(name);
    if rest != [] {
      assert name[|name| - 1] == rest[|rest| - 1];
    } else {
      assert CutAt(name, DOT).Whole? ==> name[|name| - 1] in name;
    }
  }

  /** The pieces lose nothing but one trailing dot. */
  lemma {:induction false} PiecesJoin(name: Bytes)
    ensures Join(Pieces(name)) == Undotted(name)
    decreases |name|
  {
    if name == [] {
    } else {
      PiecesJoin(Rest(name));
      JoinCons(Piece(name), Pieces(Rest(name)));
      UndottedStep(name);
    }
  }

  /** What follows the first label in the joined text. */
  function After(rest: seq<Bytes>): Bytes
  {
    if rest == [] then [] else [DOT] + Join(rest)
  }

  lemma JoinAfter(l: Bytes, rest: seq<Bytes>)
    ensures Join([l] + rest) == l + After(rest)
  {
    JoinCons(l, rest);
    assert l + [] == l;
    if rest != [] {
      Associate(l, [DOT], Join(rest));
    }
  }

  lemma CutAfter(l: Bytes, rest: seq<Bytes>)
    requires DOT !in l
    ensures Piece(l + After(rest)) == l && Rest(l + After(rest)) == Join(rest)
  {
    if rest == [] {
      assert l + [] == l;
      CutNone(l, DOT);
    } else {
      Associate(l, [DOT], Join(rest));
      CutJoined(l, DOT, Join(rest));
    }
  }

  /** The first piece of joined labels: the first label, or what it has before a dot. */
  lemma FirstOfJoined(l: Bytes, rest: seq<Bytes>)
    ensures var name := Join([l] + rest);
            match CutAt(l, DOT)
            case Whole => Piece(name) == l && Rest(name) == Join(rest)
            case Cut(head, tail) => Piece(name) == head && Rest(name) == Join([tail] + rest)
  {
    JoinAfter(l, rest);
    match CutAt(l, DOT)
    case Whole =>
      CutParts(l, DOT);
      CutAfter(l, rest);
    case Cut(head, tail) =>
      JoinAfter(tail, rest);
      CutMore(l, DOT, After(rest), head, tail);
  }

  /** Dot-free, nonempty labels are cut out of their joined text again. */
  lemma {:induction false} JoinPieces(labels: seq<Bytes>)
    requires Free(labels, DOT) && NonEmpty(labels)
    ensures Pieces(Join(labels)) == labels
  {
    if labels == [] {
    } else {
      var l, rest := labels[0], labels[1..];
      assert labels == [l] + rest;
      CutNone(l, DOT);
      FirstOfJoined(l, rest);
      JoinPieces(rest);
      JoinCons(l, rest);
    }
  }

  /** `part` stands in `p` at `pos`. */
  ghost predicate Stands(p: Bytes, pos: nat, part: Bytes)
  {
    pos + |part| <= |p| && p[pos..pos + |part|] == part
  }

  lemma StandsApart(p: Bytes, pos: nat, a: Bytes, b: Bytes, next: nat)
    requires Stands(p, pos, a + b) && next == pos + |a|
    ensures Stands(p, pos, a) && Stands(p, next, b)
  {
    assert a == (a + b)[..|a|] == p[pos..pos + |a + b|][..|a|] == p[pos..next];
    assert b == (a + b)[|a|..] == p[pos..pos + |a + b|][|a|..] == p[next..next + |b|];
  }

  /** A label that stands with its length byte is read, and then what follows it. */
  lemma LabelStep(p: Bytes, pos: nat, l: Bytes, jumps: nat, next: nat)
    requires 1 <= |l| <= 63 && Stands(p, pos, [LowByte(|l|)] + l) && next == pos + 1 + |l|
    ensures var rest := Decode(p, next, jumps);
            rest.Name? ==> Decode(p, pos, jumps) == Name([l] + rest.labels, rest.end)
    ensures var rest := Plain(p, next);
            rest.Name? ==> Plain(p, pos) == Name([l] + rest.labels, rest.end)
  {
    StandsApart(p, pos, [LowByte(|l|)], l, pos + 1);
    assert p[pos] == p[pos..pos + 1][0];
  }

  /** Reading back what was encoded, wherever it stands: exact labels and exact end offset,
      for the compressed reader and for the question parser. Labels may contain dots. */
  lemma {:induction false} DecodeEncode(p: Bytes, pos: nat, labels: seq<Bytes>, jumps: nat, end: nat)
    requires Sized(labels) && Stands(p, pos, Encode(labels)) && end == pos + |Encode(labels)|
    ensures Decode(p, pos, jumps) == Name(labels, end) && Plain(p, pos) == Name(labels, end)
    decreases |labels|
  {
    if labels == [] {
      assert p[pos] == p[pos..pos + 1][0];
    } else {
      var l, rest := labels[0], labels[1..];
      var next := pos + 1 + |l|;
      assert labels == [l] + rest;
      StandsApart(p, pos, [LowByte(|l|)] + l, Encode(rest), next);
      DecodeEncode(p, next, rest, jumps, end);
      LabelStep(p, pos, l, jumps, next);
    }
  }

  /** Labels with their length bytes, without a zero byte behind them. */
  function LabelBytes(labels: seq<Bytes>): Bytes
  {
    if labels == [] then [] else [LowByte(|labels[0]|)] + labels[0] + LabelBytes(labels[1..])
  }

  /** A pointer (section 4.1.4 of RFC 1035) that stands in the packet is followed. */
  lemma PointerStep(p: Bytes, pos: nat, t: nat, jumps: nat)
    requires t < 0x4000 && jumps > 0 && Stands(p, pos, [192 + t / 256, t % 256]) && Decode(p, t, jumps - 1).Name?
    ensures Decode(p, pos, jumps) == Name(Decode(p, t, jumps - 1).labels, pos + 2)
  {
    assert p[pos..pos + 2][0] == p[pos] && p[pos..pos + 2][1] == p[pos + 1];
    assert Target(p, pos) == t;
  }

  lemma LabelBytesCons(l: Bytes, rest: seq<Bytes>)
    ensures LabelBytes([l] + rest) == [LowByte(|l|)] + l + LabelBytes(rest)
  {
    assert ([l] + rest)[1..] == rest;
  }

  /** A name with more labels in front. */
  function Longer(labels: seq<Bytes>, d: Decoded): Decoded
  {
    if d.Malformed? then Malformed else Name(labels + d.labels, d.end)
  }

  lemma LongerCons(l: Bytes, rest: seq<Bytes>, d: Decoded)
    requires d.Name?
    ensures Longer([l] + rest, d) == Name([l] + Longer(rest, d).labels, d.end)
  {
    assert ([l] + rest) + d.labels == [l] + (rest + d.labels);
  }

  lemma SizedCons(l: Bytes, rest: seq<Bytes>)
    ensures Sized([l] + rest) <==> 1 <= |l| <= 63 && Sized(rest)
  {
    var all := [l] + rest;
    assert all[0] == l;
    assert forall i :: 0 <= i < |rest| ==> rest[i] == all[i + 1];
  }

  /** Labels that stand with their length bytes are read in front of whatever name follows them. */
  lemma {:induction false} LabelsRead(p: Bytes, pos: nat, labels: seq<Bytes>, jumps: nat, next: nat)
    requires Sized(labels) && Stands(p, pos, LabelBytes(labels)) && next == pos + |LabelBytes(labels)|
    ensures Decode(p, next, jumps).Name? ==> Decode(p, pos, jumps) == Longer(labels, Decode(p, next, jumps))
    ensures Plain(p, next).Name? ==> Plain(p, pos) == Longer(labels, Plain(p, next))
    decreases |labels|
  {
    if labels == [] {
    } else {
      var l, rest := labels[0], labels[1..];
      var mid := pos + 1 + |l|;
      assert labels == [l] + rest;
      SizedCons(l, rest);
      LabelBytesCons(l, rest);
      StandsApart(p, pos, [LowByte(|l|)] + l, LabelBytes(rest), mid);
      LabelsRead(p, mid, rest, jumps, next);
      LabelStep(p, pos, l, jumps, mid);
      if Decode(p, next, jumps).Name? {
        LongerCons(l, rest, Decode(p, next, jumps));
      }
      if Plain(p, next).Name? {
        LongerCons(l, rest, Plain(p, next));
      }
    }
  }

  /** Labels followed by a pointer are read as those labels and then the name the pointer leads to,
      itself compressed or not; the name ends behind the pointer. */
  lemma PointerExtends(p: Bytes, pos: nat, labels: seq<Bytes>, t: nat, jumps: nat, next: nat)
    requires Sized(labels) && t < 0x4000 && jumps > 0 && next == pos + |LabelBytes(labels)|
    requires Stands(p, pos, LabelBytes(labels)) && Stands(p, next, [192 + t / 256, t % 256])
    requires Decode(p, t, jumps - 1).Name?
    ensures Decode(p, pos, jumps) == Name(labels + Decode(p, t, jumps - 1).labels, next + 2)
  {
    PointerStep(p, next, t, jumps);
    LabelsRead(p, pos, labels, jumps, next);
  }

  /** Compression round trip: encoded labels followed by a pointer to where other encoded labels
      stand are read as both. */
  lemma CompressedRoundTrip(p: Bytes, pos: nat, labels: seq<Bytes>, t: nat, rest: seq<Bytes>, jumps: nat)
    requires Sized(labels) && Sized(rest) && t < 0x4000 && jumps > 0
    requires Stands(p, pos, LabelBytes(labels)) && Stands(p, pos + |LabelBytes(labels)|, [192 + t / 256, t % 256])
    requires Stands(p, t, Encode(rest))
    ensures Decode(p, pos, jumps) == Name(labels + rest, pos + |LabelBytes(labels)| + 2)
  {
    DecodeEncode(p, t, rest, jumps - 1, t + |Encode(rest)|);
    PointerExtends(p, pos, labels, t, jumps, pos + |LabelBytes(labels)|);
  }

  /** What ParseQName accepts: encoded labels of 1 to 63 octets; where the packet ends, the zero
      byte may be missing. */
  ghost predicate PlainName(p: Bytes, pos: nat, labels: seq<Bytes>, end: nat)
  {
    && Sized(labels) && pos <= end <= |p|
    && (p[pos..end] == Encode(labels) || (end == |p| && p[pos..] == LabelBytes(labels)))
  }

  lemma PlainNameCons(p: Bytes, pos: nat, l: Bytes, rest: seq<Bytes>, end: nat)
    requires 1 <= |l| <= 63 && Stands(p, pos, [LowByte(|l|)] + l) && PlainName(p, pos + 1 + |l|, rest, end)
    ensures PlainName(p, pos, [l] + rest, end)
  {
    var next := pos + 1 + |l|;
    assert p[pos..next] == [LowByte(|l|)] + l;
    assert p[pos..end] == p[pos..next] + p[next..end] && p[pos..] == p[pos..next] + p[next..];
    EncodeCons(l, rest);
    LabelBytesCons(l, rest);
  }

  lemma PlainFirst(p: Bytes, pos: nat, l: Bytes, next: nat)
    requires Plain(p, pos).Name? && pos < |p| && p[pos] != 0
    requires next == pos + 1 + p[pos] && next <= |p| && l == p[pos + 1..next]
    ensures 1 <= |l| <= 63 && Stands(p, pos, [LowByte(|l|)] + l)
    ensures Plain(p, next).Name? && Plain(p, pos) == Name([l] + Plain(p, next).labels, Plain(p, next).end)
  {
    assert p[pos..next] == [p[pos]] + l;
  }

  lemma {:induction false} PlainNamed(p: Bytes, pos: nat)
    requires Plain(p, pos).Name?
    ensures PlainName(p, pos, Plain(p, pos).labels, Plain(p, pos).end)
    decreases |p| - pos
  {
    if pos == |p| || p[pos] == 0 {
    } else {
      var next := pos + 1 + p[pos];
      var l := p[pos + 1..next];
      PlainFirst(p, pos, l, next);
      PlainNamed(p, next);
      PlainNameCons(p, pos, l, Plain(p, next).labels, Plain(p, next).end);
    }
  }

  /** ParseQName accepts exactly such names, with those labels and that end. */
  lemma PlainIff(p: Bytes, pos: nat, labels: seq<Bytes>, end: nat)
    ensures Plain(p, pos) == Name(labels, end) <==> PlainName(p, pos, labels, end)
  {
    if Plain(p, pos).Name? {
      PlainNamed(p, pos);
    }
    if PlainName(p, pos, labels, end) {
      if p[pos..end] == Encode(labels) {
        DecodeEncode(p, pos, labels, 0, end);
      } else {
        LabelsRead(p, pos, labels, 0, |p|);
      }
    }
  }

  /** ReadName and ParseQName both recover a well-formed name that WriteQName wrote. */
  lemma NameRoundTrip(pre: Bytes, name: Bytes, post: Bytes, jumps: nat)
    requires WellFormed(name)
    ensures var p := pre + QName(name) + post;
            var r := Name(Pieces(name), |pre| + |QName(name)|);
            Decode(p, |pre|, jumps) == r && Plain(p, |pre|) == r && Join(r.labels) == Undotted(name)
  {
    QNameIsEncode(name);
    assert Stands(pre + QName(name) + post, |pre|, QName(name));
    DecodeEncode(pre + QName(name) + post, |pre|, Pieces(name), jumps, |pre| + |QName(name)|);
    PiecesJoin(name);
  }

  /** The written name is read back, by either reader, exactly when it is well-formed: an empty
      or overlong piece is never recovered. */
  lemma RoundTripIffWellFormed(pre: Bytes, name: Bytes, post: Bytes, jumps: nat)
    ensures var p, r := pre + QName(name) + post, Name(Pieces(name), |pre| + |QName(name)|);
            (Decode(p, |pre|, jumps) == r <==> WellFormed(name)) && (Plain(p, |pre|) == r <==> WellFormed(name))
  {
    var p := pre + QName(name) + post;
    if WellFormed(name) {
      NameRoundTrip(pre, name, post, jumps);
    }
    if Decode(p, |pre|, jumps).Name? {
      DecodedLabelSizes(p, |pre|, jumps);
    }
    if Plain(p, |pre|).Name? {
      PlainLabelSizes(p, |pre|);
    }
  }

  /** A zero-terminated pointer-free name is its own encoding, and ReadName agrees on it. */
  lemma {:induction false} PlainIsEncoded(p: Bytes, pos: nat, jumps: nat)
    requires Plain(p, pos).Name? && Plain(p, pos).end < |p|
    ensures Decode(p, pos, jumps) == Plain(p, pos)
    ensures p[pos..Plain(p, pos).end] == Encode(Plain(p, pos).labels)
    ensures p[Plain(p, pos).end - 1] == 0
    decreases |p| - pos
  {
    if p[pos] == 0 {
    } else {
      var next := pos + 1 + p[pos];
      var r := Plain(p, pos);
      PlainIsEncoded(p, next, jumps);
      assert r.labels[1..] == Plain(p, next).labels;
      assert p[pos..r.end] == [p[pos]] + p[pos + 1..next] + p[next..r.end];
    }
  }

  ghost predicate AtMost63(parts: seq<Bytes>)
  {
    forall i :: 0 <= i < |parts| ==> |parts[i]| <= 63
  }

  lemma AtMost63Cons(x: Bytes, rest: seq<Bytes>)
    ensures AtMost63([x] + rest) <==> |x| <= 63 && AtMost63(rest)
  {
    var all := [x] + rest;
    assert all[0] == x;
    assert forall i :: 0 <= i < |rest| ==> rest[i] == all[i + 1];
  }

  /** Every dot-separated piece of a decoded name fits a label, even when labels contain dots. */
  lemma {:induction false} PieceSizes(labels: seq<Bytes>)
    requires AtMost63(labels)
    ensures AtMost63(Pieces(Join(labels)))
    decreases |Join(labels)|
  {
    var name := Join(labels);
    if name == [] {
    } else {
      var l, rest := labels[0], labels[1..];
      assert labels == [l] + rest;
      AtMost63Cons(l, rest);
      FirstOfJoined(l, rest);
      CutParts(l, DOT);
      match CutAt(l, DOT) {
        case Whole =>
          PieceSizes(rest);
        case Cut(head, tail) =>
          AtMost63Cons(tail, rest);
          PieceSizes([tail] + rest);
      }
      AtMost63Cons(Piece(name), Pieces(Rest(name)));
    }
  }

  lemma SameTail(a: Bytes, x: Bytes, y: Bytes)
    ensures a + x == a + y <==> x == y
  {
    if a + x == a + y {
      assert x == (a + x)[|a|..] == (a + y)[|a|..] == y;
    }
  }

  /** Re-encoding a decoded name gives its own octets back exactly when no label contains a
      dot byte. */
  lemma {:induction false} ReencodeIffDotFree(labels: seq<Bytes>)
    requires Sized(labels)
    ensures QName(Join(labels)) == Encode(labels) <==> Free(labels, DOT)
  {
    if labels == [] {
    } else {
      var l, rest := labels[0], labels[1..];
      assert labels == [l] + rest;
      JoinCons(l, rest);
      EncodeCons(l, rest);
      FreeCons(l, rest, DOT);
      FirstOfJoined(l, rest);
      CutParts(l, DOT);
      if CutAt(l, DOT).Cut? {
        assert QName(Join(labels))[0] == |CutAt(l, DOT).head| && Encode(labels)[0] == |l|;
      } else {
        ReencodeIffDotFree(rest);
        SameTail([LowByte(|l|)] + l, QName(Join(rest)), Encode(rest));
      }
    }
  }
}
