/** Byte strings: the common currency of the forwarder. Packets, host names, cache keys and
    blocklist text are all sequences of octets, as std::string and std::vector<unsigned char> are. */
module Bytes {

  type byte = b: int | 0 <= b < 256
  type u16 = v: int | 0 <= v < 0x1_0000
  type u32 = v: int | 0 <= v < 0x1_0000_0000
  type Bytes = seq<byte>

  datatype Option<+T> = None | Some(value: T)

  /** What an octet keeps of a size. */
  function LowByte(n: nat): byte
  {
    if n < 256 then n else n % 256
  }

  lemma LowByteIs(n: nat)
    ensures LowByte(n) == n % 256
  {
  }

  ghost predicate IsAscii(s: string)
  {
    forall i :: 0 <= i < |s| ==> s[i] as int < 128
  }

  /** The octets of a text in the source. */
  ghost function Ascii(s: string): Bytes
    requires IsAscii(s)
  {
    seq(|s|, i requires 0 <= i < |s| => s[i] as int)
  }

  lemma Reassociate(a: Bytes, b: Bytes, c: Bytes, d: Bytes)
    ensures a + b + c + d == a + (b + c + d)
  {
  }

  lemma Associate(a: Bytes, b: Bytes, c: Bytes)
    ensures a + b + c == a + (b + c)
  {
  }

  const DOT: byte := 46
  const NEWLINE: byte := 10
  const HASH: byte := 35

  /** A name without its trailing dot, if it has one. */
  function Undotted(name: Bytes): Bytes
  {
    if name != [] && name[|name| - 1] == DOT then name[..|name| - 1] else name
  }

  /** std::vector<unsigned char> or std::string passed by pointer to be appended to. */
  class ByteVector {
    var data: Bytes

    constructor ()
      ensures data == []
    {
      data := [];
    }

    method Push(b: byte)
      modifies this
      ensures data == old(data) + [b]
    {
      data := data + [b];
    }

    /** Appends `len` octets of `s`, one at a time. */
    method PushSlice(s: Bytes, start: nat, len: nat)
      requires start + len <= |s|
      modifies this
      ensures data == old(data) + s[start..start + len]
    {
      for i := 0 to len
        invariant data == old(data) + s[start..start + i]
      {
        data := data + [s[start + i]];
      }
    }

    method Append(s: Bytes)
      modifies this
      ensures data == old(data) + s
    {
      data := data + s;
    }
  }

  /** Position of the first `c` in `s`, or |s| when there is none. */
  function Index(s: Bytes, c: byte): (k: nat)
    ensures k <= |s| && (k < |s| ==> s[k] == c)
  {
    if s == [] || s[0] == c then 0 else 1 + Index(s[1..], c)
  }

  lemma {:induction false} IndexIsFirst(s: Bytes, c: byte)
    ensures c !in s[..Index(s, c)]
  {
    if s == [] || s[0] == c {
    } else {
      IndexIsFirst(s[1..], c);
      assert s[..Index(s, c)] == [s[0]] + s[1..][..Index(s[1..], c)];
    }
  }

  lemma {:induction false} IndexUnique(s: Bytes, c: byte, k: nat)
    requires k <= |s|
    requires c !in s[..k]
    requires k < |s| ==> s[k] == c
    ensures Index(s, c) == k
  {
    if k == 0 {
    } else {
      assert s[..k][0] == s[0];
      assert s[1..][..k - 1] == s[..k][1..];
      IndexUnique(s[1..], c, k - 1);
    }
  }

  /** std::string::find(c, start), with |s| for npos. */
  method Find(s: Bytes, c: byte, start: nat) returns (k: nat)
    requires start <= |s|
    ensures k == start + Index(s[start..], c)
  {
    k := start;
    while k < |s| && s[k] != c
      invariant start <= k <= |s|
      invariant c !in s[start..k]
    {
      k := k + 1;
    }
    assert s[start..][..k - start] == s[start..k];
    IndexUnique(s[start..], c, k - start);
  }

  /** Pieces joined by the one-byte separator `d`. */
  function JoinBy(d: byte, parts: seq<Bytes>): Bytes
  {
    if parts == [] then []
    else if |parts| == 1 then parts[0]
    else parts[0] + [d] + JoinBy(d, parts[1..])
  }

  /** Labels joined by dots, the textual form of a name. */
  function Join(labels: seq<Bytes>): Bytes
  {
    JoinBy(DOT, labels)
  }

  lemma JoinByCons(d: byte, x: Bytes, rest: seq<Bytes>)
    ensures JoinBy(d, [x] + rest) == if rest == [] then x else x + [d] + JoinBy(d, rest)
  {
    assert ([x] + rest)[1..] == rest;
  }

  lemma JoinCons(x: Bytes, rest: seq<Bytes>)
    ensures Join([x] + rest) == if rest == [] then x else x + [DOT] + Join(rest)
  {
    JoinByCons(DOT, x, rest);
  }

  lemma {:induction false} JoinByAppend(d: byte, parts: seq<Bytes>, x: Bytes)
    ensures JoinBy(d, parts + [x]) == if parts == [] then x else JoinBy(d, parts) + [d] + x
  {
    if parts == [] {
      assert parts + [x] == [x];
    } else {
      assert (parts + [x])[1..] == parts[1..] + [x];
      JoinByAppend(d, parts[1..], x);
    }
  }

  /** A text cut at its first separator, or whole when there is none. */
  datatype Cut = Whole | Cut(head: Bytes, tail: Bytes)

  function CutAt(s: Bytes, d: byte): (r: Cut)
    ensures r.Cut? ==> |r.tail| < |s|
  {
    if s == [] then Whole
    else if s[0] == d then Cut([], s[1..])
    else
      match CutAt(s[1..], d)
      case Whole => Whole
      case Cut(head, tail) => Cut([s[0]] + head, tail)
  }

  lemma {:induction false} CutParts(s: Bytes, d: byte)
    ensures match CutAt(s, d)
            case Whole => d !in s
            case Cut(head, tail) => d !in head && s == head + [d] + tail
  {
    if s == [] || s[0] == d {
    } else {
      CutParts(s[1..], d);
      assert s == [s[0]] + s[1..];
    }
  }

  lemma {:induction false} CutJoined(head: Bytes, d: byte, tail: Bytes)
    requires d !in head
    ensures CutAt(head + [d] + tail, d) == Cut(head, tail)
  {
    var s := head + [d] + tail;
    if head == [] {
      assert s[1..] == tail;
    } else {
      assert s[1..] == head[1..] + [d] + tail && head == [head[0]] + head[1..];
      CutJoined(head[1..], d, tail);
    }
  }

  lemma {:induction false} CutNone(s: Bytes, d: byte)
    requires d !in s
    ensures CutAt(s, d) == Whole
  {
    if s == [] {
    } else {
      CutNone(s[1..], d);
    }
  }

  /** More text after a cut one is cut at the same place. */
  lemma {:induction false} CutMore(a: Bytes, d: byte, rest: Bytes, head: Bytes, tail: Bytes)
    requires CutAt(a, d) == Cut(head, tail)
    ensures CutAt(a + rest, d) == Cut(head, tail + rest)
  {
    if a[0] == d {
      assert (a + rest)[1..] == a[1..] + rest;
    } else {
      assert (a + rest)[1..] == a[1..] + rest;
      CutMore(a[1..], d, rest, CutAt(a[1..], d).head, tail);
    }
  }

  /** The cut is where std::string::find finds the separator. */
  lemma CutIndex(s: Bytes, d: byte)
    ensures var k := Index(s, d);
            CutAt(s, d) == if k < |s| then Cut(s[..k], s[k + 1..]) else Whole
  {
    var k := Index(s, d);
    IndexIsFirst(s, d);
    if k < |s| {
      assert s == s[..k] + [d] + s[k + 1..];
      CutJoined(s[..k], d, s[k + 1..]);
    } else {
      assert s[..k] == s;
      CutNone(s, d);
    }
  }

  /** Cutting at every `d`; always at least one piece. */
  function Split(s: Bytes, d: byte): (parts: seq<Bytes>)
    ensures parts != []
    decreases |s|
  {
    match CutAt(s, d)
    case Whole => [s]
    case Cut(head, tail) => [head] + Split(tail, d)
  }

  ghost predicate Free(parts: seq<Bytes>, d: byte)
  {
    forall i :: 0 <= i < |parts| ==> d !in parts[i]
  }

  lemma FreeCons(x: Bytes, rest: seq<Bytes>, d: byte)
    ensures Free([x] + rest, d) <==> d !in x && Free(rest, d)
  {
    var all := [x] + rest;
    assert all[0] == x;
    assert forall i :: 0 <= i < |rest| ==> rest[i] == all[i + 1];
  }

  /** Splitting loses nothing and leaves no separator inside a piece. */
  lemma {:induction false} SplitJoin(s: Bytes, d: byte)
    ensures JoinBy(d, Split(s, d)) == s && Free(Split(s, d), d)
    decreases |s|
  {
    CutParts(s, d);
    var c := CutAt(s, d);
    if c.Whole? {
    } else {
      SplitJoin(c.tail, d);
      JoinByCons(d, c.head, Split(c.tail, d));
      FreeCons(c.head, Split(c.tail, d), d);
    }
  }

  /** Separator-free pieces are recovered exactly. */
  lemma {:induction false} JoinSplit(parts: seq<Bytes>, d: byte)
    requires parts != [] && Free(parts, d)
    ensures Split(JoinBy(d, parts), d) == parts
  {
    var x, rest := parts[0], parts[1..];
    assert parts == [x] + rest;
    JoinByCons(d, x, rest);
    FreeCons(x, rest, d);
    if rest == [] {
      CutNone(x, d);
    } else {
      CutJoined(x, d, JoinBy(d, rest));
      JoinSplit(rest, d);
    }
  }
}
