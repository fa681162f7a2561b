/** Domain names on the wire (sections 3.1 and 4.1.4 of RFC 1035): the meaning of a
    compressed name, the reader that follows it, the plain question-name parser and the
    writer. */
module Names {
  import opened Bytes

  /** ReadName gives up when it would follow more pointers than this. */
  const MAX_JUMPS := 16

  /** What a name at some offset means: its labels and the offset just after it, or nothing. */
  datatype Decoded = Malformed | Name(labels: seq<Bytes>, end: nat)

  /** The 14-bit target of the pointer at `pos`. */
  function Target(p: Bytes, pos: nat): nat
    requires pos + 1 < |p| && p[pos] >= 192
  {
    (p[pos] as int - 192) * 256 + p[pos + 1] as int
  }

  /** The recursive meaning of a compressed name, following at most `jumps` pointers. */
  function Decode(p: Bytes, pos: nat, jumps: nat): (r: Decoded)
    ensures r.Name? ==> pos < r.end <= |p|
    decreases jumps, |p| - pos
  {
    if pos >= |p| then Malformed
    else if p[pos] == 0 then Name([], pos + 1)
    else if p[pos] >= 192 then
      if pos + 1 >= |p| || jumps == 0 then Malformed
      else
        var rest := Decode(p, Target(p, pos), jumps - 1);
        if rest.Malformed? then Malformed else Name(rest.labels, pos + 2)
    else if p[pos] >= 64 || pos + 1 + p[pos] > |p| then Malformed
    else
      var next := pos + 1 + p[pos];
      var rest := Decode(p, next, jumps);
      if rest.Malformed? then Malformed
      else Name([p[pos + 1..next]] + rest.labels, rest.end)
  }

  /** A name with one more label: the dot goes in only when something precedes it. */
  function Dotted(name: Bytes, piece: Bytes): Bytes
  {
    (if name == [] then [] else name + [DOT]) + piece
  }

  /** The labels appended to `name` one after the other. */
  function Extend(name: Bytes, labels: seq<Bytes>): Bytes
    decreases |labels|
  {
    if labels == [] then name else Extend(Dotted(name, labels[0]), labels[1..])
  }

  ghost predicate NonEmpty(labels: seq<Bytes>)
  {
    forall i :: 0 <= i < |labels| ==> labels[i] != []
  }

  lemma {:induction false} ExtendIsJoin(name: Bytes, labels: seq<Bytes>)
    requires NonEmpty(labels)
    ensures Extend(name, labels) ==
            if name == [] then Join(labels) else if labels == [] then name else name + [DOT] + Join(labels)
    decreases |labels|
  {
    if labels == [] {
    } else {
      ExtendIsJoin(Dotted(name, labels[0]), labels[1..]);
    }
  }

  /** What the byte at a position asks the reader to do next. */
  datatype Hop = Stop | Broken | Go(next: nat, jump: bool)

  function HopAt(p: Bytes, pos: nat): (hop: Hop)
    ensures pos < |p| && 64 <= p[pos] < 192 ==> hop.Broken?
  {
    if pos >= |p| then Broken
    else if p[pos] == 0 then Stop
    else if p[pos] >= 192 then (if pos + 1 >= |p| then Broken else Go(Target(p, pos), true))
    else if p[pos] >= 64 || pos + 1 + p[pos] > |p| then Broken
    else Go(pos + 1 + p[pos], false)
  }

  /** Every label has 1 to 63 octets (section 2.3.4 of RFC 1035). */
  ghost predicate Sized(labels: seq<Bytes>)
  {
    forall i :: 0 <= i < |labels| ==> 1 <= |labels[i]| <= 63
  }

  lemma {:induction false} DecodedLabelSizes(p: Bytes, pos: nat, jumps: nat)
    requires Decode(p, pos, jumps).Name?
    ensures Sized(Decode(p, pos, jumps).labels)
    decreases jumps, |p| - pos
  {
    var hop := HopAt(p, pos);
    if !hop.Go? {
    } else {
      DecodedLabelSizes(p, hop.next, if hop.jump then jumps - 1 else jumps);
    }
  }

  method ReadName(packet: Bytes, offset: nat, depth0: nat := 0)
    returns (ok: bool, name: Bytes, end: nat)
    ensures var r := if depth0 > MAX_JUMPS then Malformed else Decode(packet, offset, MAX_JUMPS - depth0);
            ok == r.Name? && (ok ==> name == Join(r.labels) && end == r.end)
  {
    ok, name, end := false, [], 0;
    var depth := depth0;
    if depth > MAX_JUMPS {
      return;
    }
    ghost var r := Decode(packet, offset, MAX_JUMPS - depth);
    ghost var rest := r;
    var pos: nat, jumpEnd: nat, jumped := offset, offset, false;
    while pos < |packet|
      invariant depth <= MAX_JUMPS && !ok
      invariant rest == Decode(packet, pos, MAX_JUMPS - depth)
      invariant r.Name? == rest.Name?
      invariant r.Name? ==> Extend([], r.labels) == Extend(name, rest.labels)
      invariant r.Name? ==> r.end == if jumped then jumpEnd else rest.end
      decreases MAX_JUMPS - depth, |packet| - pos
    {
      var len := packet[pos];
      if len == 0 {
        pos := pos + 1;
        end := if jumped then jumpEnd else pos;
        ok := true;
        DecodedLabelSizes(packet, offset, MAX_JUMPS - depth0);
        ExtendIsJoin([], r.labels);
        return;
      }
      if len >= 192 {
        if pos + 1 >= |packet| {
          return;
        }
        var ptr := Target(packet, pos);
        if !jumped {
          jumpEnd := pos + 2;
        }
        pos := ptr;
        jumped := true;
        depth := depth + 1;
        if depth > MAX_JUMPS {
          return;
        }
        rest := Decode(packet, pos, MAX_JUMPS - depth);
        continue;
      }
      if len >= 64 {
        return;
      }
      pos := pos + 1;
      if pos + len > |packet| {
        return;
      }
      if name != [] {
        name := name + [DOT];
      }
      name := name + packet[pos..pos + len];
      pos := pos + len;
      rest := Decode(packet, pos, MAX_JUMPS - depth);
    }
  }

  // ----- Reading a name is following a chain of hops to a zero byte -----

  /** A name that starts with a hop is what follows the hop. */
  lemma DecodeHop(p: Bytes, pos: nat, jumps: nat)
    requires HopAt(p, pos).Go? && (HopAt(p, pos).jump ==> jumps > 0)
    ensures var hop := HopAt(p, pos);
            var here, there := Decode(p, pos, jumps), Decode(p, hop.next, if hop.jump then jumps - 1 else jumps);
            && (here.Name? <==> there.Name?)
            && (here.Name? ==> here.end == if hop.jump then pos + 2 else there.end)
  {
  }

  /** Consecutive positions of `path` are hops of `p`. */
  ghost predicate Follows(p: Bytes, path: seq<nat>)
  {
    forall i :: 0 <= i < |path| - 1 ==> HopAt(p, path[i]).Go? && HopAt(p, path[i]).next == path[i + 1]
  }

  /** A path from `pos` to a terminating zero byte inside the packet. */
  ghost predicate IsChain(p: Bytes, pos: nat, path: seq<nat>)
  {
    path != [] && path[0] == pos && Follows(p, path) && HopAt(p, path[|path| - 1]).Stop?
  }

  /** How many positions of the path, the last excepted, hold a pointer. */
  ghost function Jumps(p: Bytes, path: seq<nat>): nat
  {
    if |path| <= 1 then 0
    else (if HopAt(p, path[0]) == Go(path[1], true) then 1 else 0) + Jumps(p, path[1..])
  }

  lemma {:induction false} DecodeHasChain(p: Bytes, pos: nat, jumps: nat) returns (path: seq<nat>)
    requires Decode(p, pos, jumps).Name?
    ensures IsChain(p, pos, path) && Jumps(p, path) <= jumps
    decreases jumps, |p| - pos
  {
    match HopAt(p, pos)
    case Stop => path := [pos];
    case Go(next, jump) =>
      var tail := DecodeHasChain(p, next, if jump then jumps - 1 else jumps);
      path := [pos] + tail;
      assert path[1..] == tail;
      forall i | 0 <= i < |path| - 1
        ensures HopAt(p, path[i]).Go? && HopAt(p, path[i]).next == path[i + 1]
      {
        if i > 0 {
          assert path[i] == tail[i - 1];
        }
      }
  }

  /** The label behind the byte at a position, if it is a length byte. */
  ghost function LabelAt(p: Bytes, pos: nat): seq<Bytes>
  {
    var hop := HopAt(p, pos);
    if hop.Go? && !hop.jump then [p[pos + 1..hop.next]] else []
  }

  /** The labels a path goes through, in order; its last position is the zero byte. */
  ghost function LabelsAlong(p: Bytes, path: seq<nat>): seq<Bytes>
  {
    if |path| <= 1 then [] else LabelAt(p, path[0]) + LabelsAlong(p, path[1..])
  }

  /** Where a name ends: after its first pointer, or after the zero byte when it has none. */
  ghost function EndAlong(p: Bytes, path: seq<nat>): nat
    requires path != []
  {
    var hop := HopAt(p, path[0]);
    if hop.Go? && hop.jump then path[0] + 2
    else if |path| == 1 then path[0] + 1
    else EndAlong(p, path[1..])
  }

  /** Following a chain with few enough pointers reads the labels along it, in order, and ends
      behind the first pointer. */
  lemma {:induction false} ChainDecodes(p: Bytes, pos: nat, path: seq<nat>, jumps: nat)
    requires IsChain(p, pos, path) && Jumps(p, path) <= jumps
    ensures Decode(p, pos, jumps) == Name(LabelsAlong(p, path), EndAlong(p, path))
    decreases |path|
  {
    if |path| <= 1 {
    } else {
      var hop := HopAt(p, path[0]);
      assert HopAt(p, path[0]).next == path[1];
      assert Follows(p, path[1..]) by {
        forall i | 0 <= i < |path[1..]| - 1
          ensures HopAt(p, path[1..][i]).Go? && HopAt(p, path[1..][i]).next == path[1..][i + 1]
        {
          assert path[1..][i] == path[i + 1];
        }
      }
      ChainDecodes(p, path[1], path[1..], if hop.jump then jumps - 1 else jumps);
    }
  }

  /** A name is read exactly when the chain of hops from the offset reaches a zero byte in bounds
      after at most `jumps` pointers; then it has the labels along that chain and ends where the
      chain first leaves the offset's own octets. */
  lemma DecodeIffChain(p: Bytes, pos: nat, jumps: nat)
    ensures Decode(p, pos, jumps).Name? <==> exists path :: IsChain(p, pos, path) && Jumps(p, path) <= jumps
    ensures forall path :: IsChain(p, pos, path) && Jumps(p, path) <= jumps ==>
              Decode(p, pos, jumps) == Name(LabelsAlong(p, path), EndAlong(p, path))
  {
    if Decode(p, pos, jumps).Name? {
      var path := DecodeHasChain(p, pos, jumps);
    }
    forall path | IsChain(p, pos, path) && Jumps(p, path) <= jumps
      ensures Decode(p, pos, jumps) == Name(LabelsAlong(p, path), EndAlong(p, path))
    {
      ChainDecodes(p, pos, path, jumps);
    }
  }

  /** What ReadName reads from an offset: the labels and the end of a chain with at most sixteen
      pointers. */
  lemma ReadIffShortChain(p: Bytes, pos: nat, labels: seq<Bytes>, end: nat)
    ensures Decode(p, pos, MAX_JUMPS) == Name(labels, end) <==>
            exists path :: IsChain(p, pos, path) && Jumps(p, path) <= 16 &&
                           LabelsAlong(p, path) == labels && EndAlong(p, path) == end
  {
    DecodeIffChain(p, pos, 16);
  }

  /** The number of hops a successful read makes. */
  ghost function Hops(p: Bytes, pos: nat, jumps: nat): nat
    requires Decode(p, pos, jumps).Name?
    decreases jumps, |p| - pos
  {
    var hop := HopAt(p, pos);
    if hop.Stop? then 0
    else 1 + Hops(p, hop.next, if hop.jump then jumps - 1 else jumps)
  }

  lemma {:induction false} HopsAgree(p: Bytes, pos: nat, j: nat, k: nat)
    requires Decode(p, pos, j).Name? && Decode(p, pos, k).Name?
    ensures Hops(p, pos, j) == Hops(p, pos, k)
    decreases j, |p| - pos
  {
    var hop := HopAt(p, pos);
    if !hop.Go? {
    } else {
      HopsAgree(p, hop.next, if hop.jump then j - 1 else j, if hop.jump then k - 1 else k);
    }
  }

  lemma {:induction false} HopsAlong(p: Bytes, path: seq<nat>, jumps: nat, i: nat) returns (left: nat)
    requires i < |path| && Follows(p, path) && Decode(p, path[0], jumps).Name?
    ensures Decode(p, path[i], left).Name?
    ensures Hops(p, path[i], left) + i == Hops(p, path[0], jumps)
  {
    if i == 0 {
      left := jumps;
    } else {
      var before := HopsAlong(p, path, jumps, i - 1);
      assert HopAt(p, path[i - 1]).Go?;
      left := if HopAt(p, path[i - 1]).jump then before - 1 else before;
    }
  }

  /** A read that comes back to a position it has been at, on a cycle from the start or after
      running into one, fails whatever the jump limit. */
  lemma CycleRejected(p: Bytes, path: seq<nat>, jumps: nat, i: nat)
    requires i < |path| - 1 && path[i] == path[|path| - 1] && Follows(p, path)
    ensures Decode(p, path[0], jumps).Malformed?
  {
    if Decode(p, path[0], jumps).Name? {
      var first := HopsAlong(p, path, jumps, i);
      var again := HopsAlong(p, path, jumps, |path| - 1);
      HopsAgree(p, path[i], first, again);
    }
  }

  // ----- The length of a name -----

  /** Octets the labels take, with one for each length byte. */
  function EncodedSize(labels: seq<Bytes>): nat
  {
    if labels == [] then 0 else 1 + |labels[0]| + EncodedSize(labels[1..])
  }

  lemma {:induction false} JoinLength(labels: seq<Bytes>)
    ensures |Join(labels)| == if labels == [] then 0 else EncodedSize(labels) - 1
  {
    if |labels| <= 1 {
    } else {
      JoinLength(labels[1..]);
    }
  }

  lemma {:induction false} DecodedSize(p: Bytes, pos: nat, jumps: nat)
    requires Decode(p, pos, jumps).Name?
    ensures EncodedSize(Decode(p, pos, jumps).labels) < (jumps + 1) * |p| - pos
    decreases jumps, |p| - pos
  {
    var hop := HopAt(p, pos);
    if hop.Go? {
      DecodedSize(p, hop.next, if hop.jump then jumps - 1 else jumps);
      if hop.jump {
        assert (jumps + 1) * |p| == jumps * |p| + |p|;
      }
    } else {
      assert (jumps + 1) * |p| == jumps * |p| + |p|;
    }
  }

  /** A name read by ReadName is shorter than 17 times the packet. */
  lemma NameLengthBound(p: Bytes, pos: nat)
    requires Decode(p, pos, MAX_JUMPS).Name?
    ensures |Join(Decode(p, pos, MAX_JUMPS).labels)| < 17 * |p|
  {
    DecodedSize(p, pos, MAX_JUMPS);
    JoinLength(Decode(p, pos, MAX_JUMPS).labels);
  }

  /** Once a read succeeds, a larger limit changes nothing. */
  lemma {:induction false} MoreJumps(p: Bytes, pos: nat, j: nat, k: nat)
    requires j <= k && Decode(p, pos, j).Name?
    ensures Decode(p, pos, k) == Decode(p, pos, j)
    decreases j, |p| - pos
  {
    var hop := HopAt(p, pos);
    if !hop.Go? {
    } else {
      MoreJumps(p, hop.next, if hop.jump then j - 1 else j, if hop.jump then k - 1 else k);
    }
  }
}
