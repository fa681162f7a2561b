/** The string helpers the parsers rest on: trimming, case folding, splitting, line reading. */
module Text {
  import opened Bytes

  /** std::isspace in the C locale. */
  predicate IsSpace(c: byte)
  {
    c == 32 || 9 <= c <= 13
  }

  /** Tab, newline, vertical tab, form feed, carriage return and blank. */
  lemma SpaceOctets(c: byte)
    ensures IsSpace(c) <==> c == 9 || c == 10 || c == 11 || c == 12 || c == 13 || c == 32
  {
  }

  ghost predicate AllSpace(s: Bytes)
  {
    forall i :: 0 <= i < |s| ==> IsSpace(s[i])
  }

  // ----- Trim -----

  function TrimLeft(s: Bytes): Bytes
  {
    if s != [] && IsSpace(s[0]) then TrimLeft(s[1..]) else s
  }

  function TrimRight(s: Bytes): Bytes
  {
    if s != [] && IsSpace(s[|s| - 1]) then TrimRight(s[..|s| - 1]) else s
  }

  function Trimmed(s: Bytes): Bytes
  {
    TrimRight(TrimLeft(s))
  }

  method Trim(s: Bytes) returns (r: Bytes)
    ensures r == Trimmed(s)
  {
    var start := 0;
    assert s[0..] == s;
    while start < |s| && IsSpace(s[start])
      invariant 0 <= start <= |s| && TrimLeft(s) == TrimLeft(s[start..])
    {
      assert s[start..][1..] == s[start + 1..];
      start := start + 1;
    }
    assert TrimLeft(s) == s[start..] == s[start..|s|];
    var end := |s|;
    while end > start && IsSpace(s[end - 1])
      invariant start <= end <= |s| && TrimRight(TrimLeft(s)) == TrimRight(s[start..end])
    {
      assert s[start..end][..end - start - 1] == s[start..end - 1];
      end := end - 1;
    }
    r := s[start..end];
  }

  /** Nothing to trim at either end. */
  predicate Tight(s: Bytes)
  {
    s == [] || (!IsSpace(s[0]) && !IsSpace(s[|s| - 1]))
  }

  lemma {:induction false} TrimLeftSpaces(l: Bytes, s: Bytes)
    requires AllSpace(l) && (s == [] || !IsSpace(s[0]))
    ensures TrimLeft(l + s) == s
  {
    if l == [] {
      assert l + s == s;
    } else {
      assert (l + s)[1..] == l[1..] + s;
      TrimLeftSpaces(l[1..], s);
    }
  }

  lemma {:induction false} TrimRightSpaces(s: Bytes, r: Bytes)
    requires AllSpace(r) && (s == [] || !IsSpace(s[|s| - 1]))
    ensures TrimRight(s + r) == s
  {
    if r == [] {
      assert s + r == s;
    } else {
      assert (s + r)[..|s + r| - 1] == s + r[..|r| - 1];
      TrimRightSpaces(s, r[..|r| - 1]);
    }
  }

  /** Trimming removes exactly the space around a tight text. */
  lemma TrimExact(l: Bytes, s: Bytes, r: Bytes)
    requires AllSpace(l) && AllSpace(r) && Tight(s)
    ensures Trimmed(l + s + r) == s
  {
    if s == [] {
      assert l + s + r == (l + r) + [];
      TrimLeftSpaces(l + r, []);
    } else {
      assert l + s + r == l + (s + r);
      TrimLeftSpaces(l, s + r);
      TrimRightSpaces(s, r);
    }
  }

  lemma TrimTight(s: Bytes)
    requires Tight(s)
    ensures Trimmed(s) == s
  {
    assert [] + s + [] == s;
    TrimExact([], s, []);
  }

  // ----- Case -----

  function LowerByte(c: byte): byte
  {
    if 65 <= c <= 90 then c + 32 else c
  }

  function Lower(s: Bytes): (r: Bytes)
    ensures |r| == |s|
    ensures forall i :: 0 <= i < |s| ==> r[i] == LowerByte(s[i])
  {
    seq(|s|, i requires 0 <= i < |s| => LowerByte(s[i]))
  }

  /** The same letter, or the same other octet: 65 to 90 are A to Z, 97 to 122 are a to z. */
  predicate Alike(x: byte, y: byte)
  {
    x == y || (65 <= x <= 90 && y == x + 32) || (65 <= y <= 90 && x == y + 32)
  }

  ghost predicate SameLetters(a: Bytes, b: Bytes)
  {
    |a| == |b| && forall i :: 0 <= i < |a| ==> Alike(a[i], b[i])
  }

  method ToLower(s: Bytes) returns (r: Bytes)
    ensures r == Lower(s) && SameLetters(s, r) && forall i :: 0 <= i < |r| ==> !(65 <= r[i] <= 90)
  {
    r := s;
    for i := 0 to |s|
      invariant |r| == |s|
      invariant forall j :: 0 <= j < |s| ==> r[j] == if j < i then LowerByte(s[j]) else s[j]
    {
      r := r[i := LowerByte(r[i])];
    }
  }

  lemma LowerAppend(a: Bytes, b: Bytes)
    ensures Lower(a + b) == Lower(a) + Lower(b)
  {
  }

  lemma LowerTwice(s: Bytes)
    ensures Lower(Lower(s)) == Lower(s)
  {
  }

  /** Lower case without one trailing dot: the form names are compared in. */
  function Canon(name: Bytes): Bytes
  {
    var s := Lower(name);
    if s != [] && s[|s| - 1] == DOT then s[..|s| - 1] else s
  }

  method CanonicalName(name: Bytes) returns (r: Bytes)
    ensures r == Canon(name)
  {
    r := ToLower(name);
    if r != [] && r[|r| - 1] == DOT {
      r := r[..|r| - 1];
    }
  }

  lemma LowerIff(a: Bytes, b: Bytes)
    ensures Lower(a) == Lower(b) <==> SameLetters(a, b)
  {
    if Lower(a) == Lower(b) {
      assert forall i :: 0 <= i < |a| ==> LowerByte(a[i]) == Lower(a)[i] == Lower(b)[i] == LowerByte(b[i]);
    }
    if SameLetters(a, b) {
      assert forall i :: 0 <= i < |a| ==> Alike(a[i], b[i]);
    }
  }

  /** Two names are the same to every comparison exactly if, but for one trailing dot each, they differ
      at most in the case of letters. */
  lemma CanonIff(a: Bytes, b: Bytes)
    ensures Canon(a) == Canon(b) <==> SameLetters(Undotted(a), Undotted(b))
  {
    assert Canon(a) == Lower(Undotted(a)) && Canon(b) == Lower(Undotted(b));
    LowerIff(Undotted(a), Undotted(b));
  }

  // ----- Split, StartsWith -----

  /** Split's loop: the piece begun so far and the text still to read. */
  function SplitFrom(cur: Bytes, s: Bytes, d: byte): seq<Bytes>
    decreases |s|
  {
    if s == [] then [cur]
    else if s[0] == d then [cur] + SplitFrom([], s[1..], d)
    else SplitFrom(cur + [s[0]], s[1..], d)
  }

  lemma {:induction false} SplitFromIsSplit(cur: Bytes, s: Bytes, d: byte)
    requires d !in cur
    ensures SplitFrom(cur, s, d) == Split(cur + s, d)
    decreases |s|
  {
    if s == [] {
      assert cur + s == cur;
      CutNone(cur, d);
    } else if s[0] == d {
      assert cur + s == cur + [d] + s[1..];
      CutJoined(cur, d, s[1..]);
      SplitFromIsSplit([], s[1..], d);
      assert [] + s[1..] == s[1..];
    } else {
      assert cur + s == (cur + [s[0]]) + s[1..];
      SplitFromIsSplit(cur + [s[0]], s[1..], d);
    }
  }

  method SplitAt(s: Bytes, d: byte) returns (parts: seq<Bytes>)
    ensures parts == Split(s, d)
  {
    parts := [];
    var cur: Bytes := [];
    assert s[0..] == s;
    for i := 0 to |s|
      invariant parts + SplitFrom(cur, s[i..], d) == SplitFrom([], s, d)
    {
      assert s[i..][1..] == s[i + 1..];
      if s[i] == d {
        assert parts + ([cur] + SplitFrom([], s[i + 1..], d)) == (parts + [cur]) + SplitFrom([], s[i + 1..], d);
        parts := parts + [cur];
        cur := [];
      } else {
        cur := cur + [s[i]];
      }
    }
    parts := parts + [cur];
    SplitFromIsSplit([], s, d);
    assert [] + s == s;
  }

  method StartsWith(s: Bytes, prefix: Bytes) returns (b: bool)
    ensures b <==> prefix <= s
  {
    if |prefix| > |s| {
      return false;
    }
    for i := 0 to |prefix|
      invariant prefix[..i] == s[..i]
    {
      if s[i] != prefix[i] {
        return false;
      }
    }
    return true;
  }

  // ----- Lines -----

  /** What std::getline yields: a newline ends a line, and nothing follows a final newline. */
  function Lines(content: Bytes): seq<Bytes>
    decreases |content|
  {
    if content == [] then []
    else
      match CutAt(content, NEWLINE)
      case Whole => [content]
      case Cut(line, rest) => [line] + Lines(rest)
  }

  /** The first line of a text goes up to its first newline. */
  lemma FirstLine(content: Bytes, k: nat)
    requires content != [] && k == Index(content, NEWLINE)
    ensures Lines(content) == [content[..k]] + (if k < |content| then Lines(content[k + 1..]) else [])
  {
    CutIndex(content, NEWLINE);
    if k == |content| {
      assert content[..k] == content && [content] + [] == [content];
    }
  }

  /** One std::getline at `pos`. */
  method GetLine(content: Bytes, pos: nat) returns (line: Bytes, next: nat)
    requires pos < |content|
    ensures pos < next
    ensures Lines(content[pos..]) == [line] + (if next <= |content| then Lines(content[next..]) else [])
  {
    var k := Find(content, NEWLINE, pos);
    line, next := content[pos..k], k + 1;
    ghost var rest := content[pos..];
    FirstLine(rest, k - pos);
    assert rest[..k - pos] == line;
    if next <= |content| {
      assert rest[k - pos + 1..] == content[next..];
    }
  }

  lemma LinesCons(line: Bytes, rest: Bytes)
    requires NEWLINE !in line
    ensures Lines(line + [NEWLINE] + rest) == [line] + Lines(rest)
  {
    CutJoined(line, NEWLINE, rest);
  }
}
