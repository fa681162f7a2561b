/** Lookup keys for a name and a type, built alike for the cache and the local records. */
module Keys {
  import opened Bytes
  import opened Text

  const PIPE: byte := 124

  /** printf's %u. */
  function Decimal(n: nat): Bytes
  {
    if n < 10 then [48 + n] else Decimal(n / 10) + [48 + n % 10]
  }

  /** The number a run of digits denotes. */
  function Value(s: Bytes): int
  {
    if s == [] then 0 else Value(s[..|s| - 1]) * 10 + (s[|s| - 1] as int - 48)
  }

  lemma {:induction false} DecimalDenotes(n: nat)
    ensures Value(Decimal(n)) == n && PIPE !in Decimal(n)
    decreases n
  {
    var s := Decimal(n);
    if n < 10 {
      assert s[..0] == [];
    } else {
      DecimalDenotes(n / 10);
      assert s[..|s| - 1] == Decimal(n / 10);
    }
  }

  /** The key for a name and a type. */
  function Key(name: Bytes, qtype: u16): Bytes
  {
    Canon(name) + [PIPE] + Decimal(qtype)
  }

  method MakeKey(name: Bytes, qtype: u16) returns (key: Bytes)
    ensures key == Key(name, qtype)
  {
    key := CanonicalName(name);
    key := key + [PIPE];
    key := key + Decimal(qtype);
  }

  /** What follows the last separator. */
  function AfterPipe(s: Bytes): Bytes
  {
    if s == [] || s[|s| - 1] == PIPE then [] else AfterPipe(s[..|s| - 1]) + [s[|s| - 1]]
  }

  lemma {:induction false} AfterPipeIs(a: Bytes, x: Bytes)
    requires PIPE !in x
    ensures AfterPipe(a + [PIPE] + x) == x
  {
    var s := a + [PIPE] + x;
    if x == [] {
    } else {
      var x' := x[..|x| - 1];
      assert s[..|s| - 1] == a + [PIPE] + x';
      AfterPipeIs(a, x');
      assert x == x' + [x[|x| - 1]];
    }
  }

  lemma LastPipe(a: Bytes, x: Bytes, b: Bytes, y: Bytes)
    requires PIPE !in x && PIPE !in y && a + [PIPE] + x == b + [PIPE] + y
    ensures a == b && x == y
  {
    AfterPipeIs(a, x);
    AfterPipeIs(b, y);
    assert a == (a + [PIPE] + x)[..|a|] && b == (b + [PIPE] + y)[..|b|];
  }

  /** Keys are equal exactly for the same type and the same name up to case and one trailing dot, even
      though names may contain separators and digits. */
  lemma KeyInjective(n1: Bytes, t1: u16, n2: Bytes, t2: u16)
    ensures Key(n1, t1) == Key(n2, t2) <==> Canon(n1) == Canon(n2) && t1 == t2
    ensures Key(n1, t1) == Key(n2, t2) <==> SameLetters(Undotted(n1), Undotted(n2)) && t1 == t2
  {
    CanonIff(n1, n2);
    DecimalDenotes(t1);
    DecimalDenotes(t2);
    if Key(n1, t1) == Key(n2, t2) {
      LastPipe(Canon(n1), Decimal(t1), Canon(n2), Decimal(t2));
    }
  }
}
