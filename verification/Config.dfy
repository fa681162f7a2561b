/** The block list file: what the updater prints and what the loader reads back. */
module Config {
  import opened Bytes
  import opened Text
  import U = UpstreamBlocklist

  const SPACE: byte := 32
  const QUOTE: byte := 34
  const COMMA: byte := 44
  const EQUALS: byte := 61
  const OPEN: byte := 91
  const CLOSE: byte := 93
  const DOMAINS: Bytes := [100, 111, 109, 97, 105, 110, 115]  // domains

  // ----- Loading -----

  /** A line up to its first hash sign. */
  function Uncommented(line: Bytes): Bytes
  {
    line[..Index(line, HASH)]
  }

  method StripComment(line: Bytes) returns (r: Bytes)
    ensures r == Uncommented(line)
  {
    assert line[0..] == line;
    var pos := Find(line, HASH, 0);
    if pos == |line| {
      assert line[..pos] == line;
      return line;
    }
    return line[..pos];
  }

  /** ExtractQuotedStrings' loop: whether it is inside a quote and what it has read of it. */
  function QuotedFrom(inQuote: bool, cur: Bytes, s: Bytes): seq<Bytes>
    decreases |s|
  {
    if s == [] then []
    else if s[0] == QUOTE then
      if inQuote then [cur] + QuotedFrom(false, [], s[1..]) else QuotedFrom(true, cur, s[1..])
    else QuotedFrom(inQuote, if inQuote then cur + [s[0]] else cur, s[1..])
  }

  /** The strings between pairs of quotes. */
  function Quoted(s: Bytes): seq<Bytes>
  {
    QuotedFrom(false, [], s)
  }

  method ExtractQuotedStrings(raw: Bytes) returns (items: seq<Bytes>)
    ensures items == Quoted(raw)
  {
    items := [];
    var inQuote, current: Bytes := false, [];
    assert raw[0..] == raw;
    for i := 0 to |raw|
      invariant items + QuotedFrom(inQuote, current, raw[i..]) == Quoted(raw)
    {
      assert raw[i..][1..] == raw[i + 1..];
      var c := raw[i];
      if c == QUOTE {
        if inQuote {
          U.Associate1(items, current, QuotedFrom(false, [], raw[i + 1..]));
          items := items + [current];
          current := [];
          inQuote := false;
        } else {
          inQuote := true;
        }
        continue;
      }
      if inQuote {
        current := current + [c];
      }
    }
  }

  function CanonSet(items: seq<Bytes>): set<Bytes>
  {
    if items == [] then {} else {Canon(items[0])} + CanonSet(items[1..])
  }

  /** What a trimmed line adds, and whether the list goes on after it. */
  function LoadLine(trimmed: Bytes, inDomains: bool): (set<Bytes>, bool)
  {
    if trimmed == [] then ({}, inDomains)
    else if inDomains then (CanonSet(Quoted(trimmed)), CLOSE !in trimmed)
    else
      var eq := Index(trimmed, EQUALS);
      if eq == |trimmed| || Trimmed(trimmed[..eq]) != DOMAINS then ({}, false)
      else
        var value := Trimmed(trimmed[eq + 1..]);
        (CanonSet(Quoted(value)), CLOSE !in value)
  }

  function LoadFrom(lines: seq<Bytes>, inDomains: bool): set<Bytes>
  {
    if lines == [] then {}
    else
      var (added, goesOn) := LoadLine(Trimmed(Uncommented(lines[0])), inDomains);
      added + LoadFrom(lines[1..], goesOn)
  }

  /** What LoadBlocklist reads out of a file's text. */
  function Loaded(content: Bytes): set<Bytes>
  {
    LoadFrom(Lines(content), false)
  }

  /** Adds the canonical form of every item. */
  method InsertAll(items: seq<Bytes>, out0: set<Bytes>) returns (out: set<Bytes>)
    ensures out == out0 + CanonSet(items)
  {
    out := out0;
    assert items[0..] == items;
    for j := 0 to |items|
      invariant out + CanonSet(items[j..]) == out0 + CanonSet(items)
    {
      assert items[j..][1..] == items[j + 1..];
      var name := CanonicalName(items[j]);
      out := out + {name};
    }
  }

  /** The body of LoadBlocklist's line loop. */
  method LoadOne(line: Bytes, in0: bool, out0: set<Bytes>) returns (inDomains: bool, out: set<Bytes>)
    ensures var (added, goesOn) := LoadLine(Trimmed(Uncommented(line)), in0);
            inDomains == goesOn && out == out0 + added
  {
    inDomains, out := in0, out0;
    var stripped := StripComment(line);
    var trimmed := Trim(stripped);
    if trimmed == [] {
      return;
    }
    var text := trimmed;
    if !inDomains {
      assert trimmed[0..] == trimmed;
      var eq := Find(trimmed, EQUALS, 0);
      if eq == |trimmed| {
        return;
      }
      var key := Trim(trimmed[..eq]);
      if key != DOMAINS {
        return;
      }
      text := Trim(trimmed[eq + 1..]);
    }
    var items := ExtractQuotedStrings(text);
    out := InsertAll(items, out);
    inDomains := CLOSE !in text;
  }

  ghost function Unread(content: Bytes, pos: nat, inDomains: bool): set<Bytes>
  {
    if pos <= |content| then LoadFrom(Lines(content[pos..]), inDomains) else {}
  }

  lemma LoadCons(line: Bytes, rest: seq<Bytes>, inDomains: bool)
    ensures var (added, goesOn) := LoadLine(Trimmed(Uncommented(line)), inDomains);
            LoadFrom([line] + rest, inDomains) == added + LoadFrom(rest, goesOn)
  {
    assert ([line] + rest)[1..] == rest;
  }

  method LoadBlocklist(content: Bytes, out0: set<Bytes>) returns (out: set<Bytes>)
    ensures out == out0 + Loaded(content)
  {
    out := out0;
    var inDomains := false;
    var pos: nat := 0;
    assert content[0..] == content;
    while pos < |content|
      invariant out + Unread(content, pos, inDomains) == out0 + Loaded(content)
      decreases |content| - pos
    {
      var line, next := GetLine(content, pos);
      LoadCons(line, if next <= |content| then Lines(content[next..]) else [], inDomains);
      inDomains, out := LoadOne(line, inDomains, out);
      pos := next;
    }
    assert Unread(content, pos, inDomains) == {};
  }

  // ----- Printing -----

  /** `  "name",` */
  function EntryLine(name: Bytes): Bytes
  {
    [SPACE, SPACE, QUOTE] + name + [QUOTE, COMMA]
  }

  /** `domains = [` */
  const FIRST_LINE: Bytes := DOMAINS + [SPACE, EQUALS, SPACE, OPEN]

  function Entries(order: seq<Bytes>): Bytes
  {
    if order == [] then [CLOSE, NEWLINE] else EntryLine(order[0]) + [NEWLINE] + Entries(order[1..])
  }

  /** The file WriteBlocklistToml writes when it visits the domains in this order. */
  function Printed(order: seq<Bytes>): Bytes
  {
    FIRST_LINE + [NEWLINE] + Entries(order)
  }

  function SetOf(order: seq<Bytes>): set<Bytes>
  {
    set d | d in order
  }

  ghost predicate Distinct(order: seq<Bytes>)
  {
    forall i, j :: 0 <= i < j < |order| ==> order[i] != order[j]
  }

  /** The loop over the entries, with `acc` already written. */
  function Written(acc: Bytes, order: seq<Bytes>): Bytes
  {
    if order == [] then acc else Written(acc, order[..|order| - 1]) + EntryLine(order[|order| - 1]) + [NEWLINE]
  }

  lemma {:induction false} WrittenFirst(acc: Bytes, order: seq<Bytes>)
    requires order != []
    ensures Written(acc, order) == Written(acc + (EntryLine(order[0]) + [NEWLINE]), order[1..])
  {
    var front, last := order[..|order| - 1], order[|order| - 1];
    if front == [] {
      Associate(acc, EntryLine(last), [NEWLINE]);
    } else {
      WrittenFirst(acc, front);
      assert front[1..] == order[1..][..|order| - 2] && order[1..][|order| - 2] == last;
    }
  }

  lemma {:induction false} WrittenIsEntries(acc: Bytes, order: seq<Bytes>)
    ensures Written(acc, order) + [CLOSE, NEWLINE] == acc + Entries(order)
    decreases |order|
  {
    if order == [] {
    } else {
      WrittenFirst(acc, order);
      var line := EntryLine(order[0]) + [NEWLINE];
      WrittenIsEntries(acc + line, order[1..]);
      Associate(acc, line, Entries(order[1..]));
    }
  }

  /** The order of std::set: octet by octet, a prefix first. */
  predicate Before(a: Bytes, b: Bytes)
  {
    if b == [] then false
    else if a == [] then true
    else if a[0] != b[0] then a[0] < b[0]
    else Before(a[1..], b[1..])
  }

  /** Of two different texts exactly one comes first. */
  lemma {:induction false} BeforeTotal(a: Bytes, b: Bytes)
    ensures a != b ==> (Before(a, b) <==> !Before(b, a))
    ensures a == b ==> !Before(a, b)
  {
    if a == [] || b == [] || a[0] != b[0] {
    } else {
      BeforeTotal(a[1..], b[1..]);
      assert a == [a[0]] + a[1..] && b == [b[0]] + b[1..];
    }
  }

  lemma {:induction false} BeforeTransitive(a: Bytes, b: Bytes, c: Bytes)
    requires Before(a, b) && Before(b, c)
    ensures Before(a, c)
  {
    if a == [] || a[0] != b[0] || b[0] != c[0] {
    } else {
      BeforeTransitive(a[1..], b[1..], c[1..]);
    }
  }

  predicate Least(d: Bytes, domains: set<Bytes>)
  {
    d in domains && forall x :: x in domains ==> x == d || Before(d, x)
  }

  lemma {:induction false} LeastExists(domains: set<Bytes>) returns (d: Bytes)
    requires domains != {}
    ensures Least(d, domains)
  {
    d :| d in domains;
    var rest := domains - {d};
    if rest == {} {
      assert domains == {d};
    } else {
      var e := LeastExists(rest);
      BeforeTotal(d, e);
      if Before(e, d) {
        d := e;
      } else {
        forall x | x in rest
          ensures Before(d, x)
        {
          if x != e {
            BeforeTransitive(d, e, x);
          }
        }
      }
    }
  }

  ghost predicate Sorted(order: seq<Bytes>)
  {
    forall i, j :: 0 <= i < j < |order| ==> Before(order[i], order[j])
  }

  lemma SortedDistinct(order: seq<Bytes>)
    requires Sorted(order)
    ensures Distinct(order)
  {
    forall i, j | 0 <= i < j < |order|
      ensures order[i] != order[j]
    {
      BeforeTotal(order[i], order[j]);
    }
  }

  /** The text is the set printed in its order. */
  ghost predicate IsPrinted(content: Bytes, domains: set<Bytes>)
  {
    exists order :: Sorted(order) && SetOf(order) == domains && content == Printed(order)
  }

  /** `order` is the beginning of the set in its order, `left` the rest of it. */
  ghost predicate Begun(order: seq<Bytes>, left: set<Bytes>, domains: set<Bytes>)
  {
    && left <= domains && SetOf(order) == domains - left && Sorted(order)
    && forall x, y :: x in order && y in left ==> Before(x, y)
  }

  lemma SetOfSnoc(order: seq<Bytes>, d: Bytes)
    ensures SetOf(order + [d]) == SetOf(order) + {d}
  {
  }

  lemma BegunStep(order: seq<Bytes>, left: set<Bytes>, domains: set<Bytes>, d: Bytes)
    requires Begun(order, left, domains) && Least(d, left)
    ensures Begun(order + [d], left - {d}, domains)
  {
    SetOfSnoc(order, d);
  }

  method TakeLeast(left: set<Bytes>) returns (d: Bytes)
    requires left != {}
    ensures d in left && Least(d, left)
  {
    ghost var least := LeastExists(left);
    d :| d in left && Least(d, left);
  }

  method WriteEntry(out: ByteVector, d: Bytes)
    modifies out
    ensures out.data == old(out.data) + EntryLine(d) + [NEWLINE]
  {
    out.Append(EntryLine(d));
    out.Push(NEWLINE);
  }

  method WriteBlocklistToml(domains: set<Bytes>) returns (content: Bytes)
    ensures IsPrinted(content, domains)
  {
    var out := new ByteVector();
    out.Append(FIRST_LINE + [NEWLINE]);
    ghost var order: seq<Bytes> := [];
    var left := domains;
    while left != {}
      invariant Begun(order, left, domains)
      invariant out.data == Written(FIRST_LINE + [NEWLINE], order)
      decreases left
    {
      var d := TakeLeast(left);
      WriteEntry(out, d);
      BegunStep(order, left, domains, d);
      assert (order + [d])[..|order|] == order;
      order := order + [d];
      left := left - {d};
    }
    out.Append([CLOSE, NEWLINE]);
    WrittenIsEntries(FIRST_LINE + [NEWLINE], order);
    content := out.data;
  }

  /** The text printed, as it reads. */
  lemma PrintedText(order: seq<Bytes>)
    ensures Printed(order) == Ascii("domains = [\n") + Entries(order)
    ensures Entries(order) == if order == [] then Ascii("]\n")
                              else Ascii("  \"") + order[0] + Ascii("\",\n") + Entries(order[1..])
  {
    assert Ascii("domains = [\n") == FIRST_LINE + [NEWLINE] && Ascii("]\n") == [CLOSE, NEWLINE];
    assert Ascii("  \"") == [SPACE, SPACE, QUOTE] && Ascii("\",\n") == [QUOTE, COMMA] + [NEWLINE];
    if order != [] {
      Associate(Ascii("  \"") + order[0], [QUOTE, COMMA], [NEWLINE]);
    }
  }

  // ----- Round trip -----

  lemma {:induction false} QuotedRest(cur: Bytes, d: Bytes, rest: Bytes)
    requires QUOTE !in d
    ensures QuotedFrom(true, cur, d + rest) == QuotedFrom(true, cur + d, rest)
    decreases |d|
  {
    if d == [] {
      assert d + rest == rest && cur + d == cur;
    } else {
      assert (d + rest)[1..] == d[1..] + rest && cur + d == cur + [d[0]] + d[1..];
      QuotedRest(cur + [d[0]], d[1..], rest);
    }
  }

  lemma {:induction false} QuotedSkips(u: Bytes, rest: Bytes)
    requires QUOTE !in u
    ensures Quoted(u + rest) == Quoted(rest)
    decreases |u|
  {
    if u == [] {
      assert u + rest == rest;
    } else {
      assert (u + rest)[1..] == u[1..] + rest;
      QuotedSkips(u[1..], rest);
    }
  }

  lemma NothingQuoted(s: Bytes)
    requires QUOTE !in s
    ensures Quoted(s) == []
  {
    assert s + [] == s;
    QuotedSkips(s, []);
  }

  /** A text with a pair of quotes in it holds what stands between them, then what the rest holds. */
  lemma QuotedPair(u: Bytes, d: Bytes, rest: Bytes)
    requires QUOTE !in u && QUOTE !in d
    ensures Quoted(u + [QUOTE] + d + [QUOTE] + rest) == [d] + Quoted(rest)
  {
    var tail := [QUOTE] + rest;
    assert u + [QUOTE] + d + [QUOTE] + rest == u + ([QUOTE] + (d + tail));
    QuotedSkips(u, [QUOTE] + (d + tail));
    assert ([QUOTE] + (d + tail))[1..] == d + tail;
    QuotedRest([], d, tail);
    assert [] + d == d && tail[1..] == rest;
  }

  lemma Uncommentable(line: Bytes)
    requires HASH !in line
    ensures Uncommented(line) == line
  {
    assert line[..Index(line, HASH)] == line;
  }

  /** A name that an entry line can quote. */
  predicate Quotable(d: Bytes)
  {
    QUOTE !in d && HASH !in d && NEWLINE !in d
  }

  predicate AllQuotable(names: seq<Bytes>)
  {
    forall i :: 0 <= i < |names| ==> Quotable(names[i])
  }

  lemma CanonSetCons(d: Bytes, rest: seq<Bytes>)
    ensures CanonSet([d] + rest) == {Canon(d)} + CanonSet(rest)
  {
    assert ([d] + rest)[1..] == rest;
  }

  /** An entry line adds its canonical name, and the list goes on unless the name holds a bracket. */
  lemma EntryLoads(d: Bytes)
    requires Quotable(d)
    ensures NEWLINE !in EntryLine(d)
    ensures LoadLine(Trimmed(Uncommented(EntryLine(d))), true) == ({Canon(d)}, CLOSE !in d)
  {
    var core := [QUOTE] + d + [QUOTE, COMMA];
    Uncommentable(EntryLine(d));
    assert EntryLine(d) == [SPACE, SPACE] + core + [];
    assert Tight(core);
    TrimExact([SPACE, SPACE], core, []);
    QuotedPair([], d, [COMMA]);
    NothingQuoted([COMMA]);
    assert core == [] + [QUOTE] + d + [QUOTE] + [COMMA] && [d] + [] == [d];
    CanonSetCons(d, []);
    assert CanonSet([d]) == {Canon(d)};
  }

  lemma FirstLineLoads()
    ensures NEWLINE !in FIRST_LINE && LoadLine(Trimmed(Uncommented(FIRST_LINE)), false) == ({}, true)
  {
    var line := FIRST_LINE;
    Uncommentable(line);
    assert Tight(line);
    TrimTight(line);
    IndexUnique(line, EQUALS, 8);
    assert line[..8] == [] + DOMAINS + [SPACE];
    TrimExact([], DOMAINS, [SPACE]);
    assert line[9..] == [SPACE] + [OPEN] + [];
    TrimExact([SPACE], [OPEN], []);
    NothingQuoted([OPEN]);
  }

  /** Loading a text one line at a time. */
  lemma LoadLineThen(line: Bytes, rest: Bytes, in0: bool, added: set<Bytes>, goesOn: bool)
    requires NEWLINE !in line && LoadLine(Trimmed(Uncommented(line)), in0) == (added, goesOn)
    ensures LoadFrom(Lines(line + [NEWLINE] + rest), in0) == added + LoadFrom(Lines(rest), goesOn)
  {
    LinesCons(line, rest);
    LoadCons(line, Lines(rest), in0);
  }

  lemma LoadLastLine(in0: bool)
    ensures LoadFrom(Lines([CLOSE, NEWLINE]), in0) == {}
  {
    Uncommentable([CLOSE]);
    TrimTight([CLOSE]);
    NothingQuoted([CLOSE]);
    LoadLineThen([CLOSE], [], in0, {}, false);
    assert [CLOSE] + [NEWLINE] + [] == [CLOSE, NEWLINE];
  }

  // ----- What lines a file may have -----

  /** Names in quotes, with commas between them. */
  function QuotedList(names: seq<Bytes>): Bytes
  {
    if names == [] then []
    else if |names| == 1 then [QUOTE] + names[0] + [QUOTE]
    else [QUOTE] + names[0] + [QUOTE] + ([COMMA, SPACE] + QuotedList(names[1..]))
  }

  lemma QuotedFirst(u: Bytes, d: Bytes, more: Bytes, tail: Bytes)
    requires QUOTE !in u && QUOTE !in d
    ensures Quoted(u + ([QUOTE] + d + [QUOTE] + more) + tail) == [d] + Quoted(more + tail)
  {
    assert u + ([QUOTE] + d + [QUOTE] + more) + tail == u + [QUOTE] + d + [QUOTE] + (more + tail);
    QuotedPair(u, d, more + tail);
  }

  /** Such a list holds the names, whatever stands around it outside of quotes. */
  lemma {:induction false} QuotedListHolds(u: Bytes, names: seq<Bytes>, tail: Bytes)
    requires AllQuotable(names) && QUOTE !in u && QUOTE !in tail
    ensures Quoted(u + QuotedList(names) + tail) == names
    decreases |names|
  {
    if names == [] {
      NothingQuoted(u + [] + tail);
    } else if |names| == 1 {
      var d := names[0];
      QuotedFirst(u, d, [], tail);
      assert [QUOTE] + d + [QUOTE] + [] == [QUOTE] + d + [QUOTE] && [] + tail == tail;
      NothingQuoted(tail);
    } else {
      var comma: Bytes := [COMMA, SPACE];
      QuotedFirst(u, names[0], comma + QuotedList(names[1..]), tail);
      QuotedListHolds(comma, names[1..], tail);
    }
  }

  /** `domains = value` starts a list with the names in the value; a closing bracket ends it. */
  lemma KeyLoads(b: Bytes, c: Bytes, value: Bytes)
    requires AllSpace(b) && AllSpace(c) && Tight(value) && EQUALS !in b
    ensures LoadLine(DOMAINS + b + [EQUALS] + c + value, false) == (CanonSet(Quoted(value)), CLOSE !in value)
  {
    var line, eq := DOMAINS + b + [EQUALS] + c + value, 7 + |b|;
    IndexUnique(line, EQUALS, eq);
    assert line[..eq] == [] + DOMAINS + b && line[eq + 1..] == c + value + [];
    TrimExact([], DOMAINS, b);
    TrimExact(c, value, []);
  }

  /** Neither a hash sign nor a newline. */
  predicate PlainText(s: Bytes)
  {
    HASH !in s && NEWLINE !in s
  }

  lemma {:induction false} QuotedListPlain(names: seq<Bytes>)
    requires AllQuotable(names)
    ensures PlainText(QuotedList(names))
    decreases |names|
  {
    if |names| > 1 {
      QuotedListPlain(names[1..]);
    }
  }

  lemma SpaceParts(a: Bytes, b: Bytes, c: Bytes)
    requires AllSpace(a + b + c) && NEWLINE !in a + b + c
    ensures AllSpace(a) && AllSpace(b) && AllSpace(c)
    ensures PlainText(a) && PlainText(b) && PlainText(c) && EQUALS !in b
  {
    var all := a + b + c;
    assert forall i :: 0 <= i < |a| ==> a[i] == all[i];
    assert forall i :: 0 <= i < |b| ==> b[i] == all[|a| + i];
    assert forall i :: 0 <= i < |c| ==> c[i] == all[|a| + |b| + i];
  }

  lemma Indented(a: Bytes, core: Bytes)
    requires AllSpace(a) && PlainText(a) && PlainText(core) && Tight(core)
    ensures Trimmed(Uncommented(a + core)) == core && NEWLINE !in a + core
  {
    Uncommentable(a + core);
    assert a + core == a + core + [];
    TrimExact(a, core, []);
  }

  lemma ListLine(b: Bytes, c: Bytes, value: Bytes)
    requires PlainText(b) && PlainText(c) && PlainText(value) && value != [] && value[|value| - 1] == CLOSE
    ensures var core := DOMAINS + b + [EQUALS] + c + value; PlainText(core) && Tight(core)
  {
    var core := DOMAINS + b + [EQUALS] + c + value;
    assert core[0] == 100 && core[|core| - 1] == CLOSE;
  }

  /** A list on one line, with any space around its parts, adds its names to those of the lines after it. */
  lemma OneLineList(a: Bytes, b: Bytes, c: Bytes, names: seq<Bytes>, rest: Bytes)
    requires AllSpace(a + b + c) && NEWLINE !in a + b + c && AllQuotable(names)
    ensures var line := a + (Ascii("domains") + b + [EQUALS] + c + ([OPEN] + QuotedList(names) + [CLOSE]));
            Loaded(line + [NEWLINE] + rest) == CanonSet(names) + Loaded(rest)
  {
    assert Ascii("domains") == DOMAINS;
    var value := [OPEN] + QuotedList(names) + [CLOSE];
    var core := DOMAINS + b + [EQUALS] + c + value;
    QuotedListPlain(names);
    SpaceParts(a, b, c);
    ListLine(b, c, value);
    Indented(a, core);
    KeyLoads(b, c, value);
    QuotedListHolds([OPEN], names, [CLOSE]);
    LoadLineThen(a + core, rest, false, CanonSet(names), false);
  }

  /** Inside a list every line adds all names quoted on it, and the list goes on to the line with a
      closing bracket. */
  lemma InnerLineLoads(a: Bytes, names: seq<Bytes>, tail: Bytes, line: Bytes, rest: Bytes, goesOn: bool)
    requires AllSpace(a) && NEWLINE !in a && AllQuotable(names) && PlainText(tail) && QUOTE !in tail
    requires line == QuotedList(names) + tail && line != [] && Tight(line) && goesOn == (CLOSE !in line)
    ensures LoadFrom(Lines(a + line + [NEWLINE] + rest), true) == CanonSet(names) + LoadFrom(Lines(rest), goesOn)
  {
    QuotedListPlain(names);
    assert a + [] + [] == a;
    SpaceParts(a, [], []);
    Indented(a, line);
    QuotedListHolds([], names, tail);
    assert [] + QuotedList(names) + tail == line;
    LoadLineThen(a + line, rest, true, CanonSet(names), goesOn);
  }

  /** Outside a list a line for any other key adds nothing. */
  lemma OtherKeyIgnored(key: Bytes, value: Bytes, rest: Bytes)
    requires PlainText(key) && PlainText(value) && EQUALS !in key && Tight(key + [EQUALS] + value)
    requires Trimmed(key) != Ascii("domains")
    ensures Loaded(key + [EQUALS] + value + [NEWLINE] + rest) == Loaded(rest)
  {
    assert Ascii("domains") == DOMAINS;
    var line := key + [EQUALS] + value;
    Uncommentable(line);
    TrimTight(line);
    assert line[..|key|] == key;
    IndexUnique(line, EQUALS, |key|);
    LoadLineThen(line, rest, false, {}, false);
  }

  lemma {:induction false} TrimRightWithin(s: Bytes, c: byte)
    requires c in TrimRight(s)
    ensures c in s
  {
    if s == [] || !IsSpace(s[|s| - 1]) {
    } else {
      TrimRightWithin(s[..|s| - 1], c);
    }
  }

  lemma {:induction false} TrimLeftWithin(s: Bytes, c: byte)
    requires c in TrimLeft(s)
    ensures c in s
  {
    if s == [] || !IsSpace(s[0]) {
    } else {
      TrimLeftWithin(s[1..], c);
    }
  }

  lemma TrimmedWithin(s: Bytes, c: byte)
    ensures c in Trimmed(s) ==> c in s
  {
    if c in Trimmed(s) {
      TrimRightWithin(TrimLeft(s), c);
      TrimLeftWithin(s, c);
    }
  }

  /** And so does a line without an equals sign. */
  lemma KeylessIgnored(line: Bytes, rest: Bytes)
    requires PlainText(line) && EQUALS !in line
    ensures Loaded(line + [NEWLINE] + rest) == Loaded(rest)
  {
    Uncommentable(line);
    TrimmedWithin(line, EQUALS);
    LoadLineThen(line, rest, false, {}, false);
  }

  /** What follows a hash sign is a comment, wherever it stands. */
  lemma CommentIgnored(line: Bytes, comment: Bytes, rest: Bytes, inDomains: bool)
    requires PlainText(line) && NEWLINE !in comment
    ensures LoadFrom(Lines(line + [HASH] + comment + [NEWLINE] + rest), inDomains) ==
            LoadFrom(Lines(line + [NEWLINE] + rest), inDomains)
  {
    var full := line + [HASH] + comment;
    assert full[..|line|] == line;
    IndexUnique(full, HASH, |line|);
    Uncommentable(line);
    var (added, goesOn) := LoadLine(Trimmed(line), inDomains);
    LoadLineThen(line, rest, inDomains, added, goesOn);
    LoadLineThen(full, rest, inDomains, added, goesOn);
  }

  lemma {:induction false} TrimRightHead(s: Bytes)
    requires s != [] && !IsSpace(s[0])
    ensures TrimRight(s) != [] && TrimRight(s)[0] == s[0]
  {
    if !IsSpace(s[|s| - 1]) {
    } else {
      TrimRightHead(s[..|s| - 1]);
    }
  }

  lemma KeyStartsQuoted(core: Bytes, eq: nat)
    requires 0 < eq <= |core| && core[0] == QUOTE
    ensures Trimmed(core[..eq]) != DOMAINS
  {
    var key := core[..eq];
    assert key[0] == QUOTE && TrimLeft(key) == key;
    TrimRightHead(key);
  }

  lemma EntryIgnored(d: Bytes)
    requires Quotable(d)
    ensures LoadLine(Trimmed(Uncommented(EntryLine(d))), false) == ({}, false)
  {
    var core := [QUOTE] + d + [QUOTE, COMMA];
    Uncommentable(EntryLine(d));
    assert EntryLine(d) == [SPACE, SPACE] + core + [];
    TrimExact([SPACE, SPACE], core, []);
    var eq := Index(core, EQUALS);
    if eq < |core| {
      KeyStartsQuoted(core, eq);
    }
  }

  /** Outside the list an entry line adds nothing, whatever the name. */
  lemma {:induction false} EntriesIgnored(order: seq<Bytes>)
    requires AllQuotable(order)
    ensures LoadFrom(Lines(Entries(order)), false) == {}
  {
    if order == [] {
      LoadLastLine(false);
    } else {
      EntryLoads(order[0]);
      EntryIgnored(order[0]);
      LoadLineThen(EntryLine(order[0]), Entries(order[1..]), false, {}, false);
      EntriesIgnored(order[1..]);
    }
  }

  /** The names up to and including the first that holds a closing bracket. */
  function UpToBracket(order: seq<Bytes>): seq<Bytes>
  {
    if order == [] then []
    else if CLOSE in order[0] then [order[0]]
    else [order[0]] + UpToBracket(order[1..])
  }

  lemma {:induction false} EntriesLoad(order: seq<Bytes>)
    requires AllQuotable(order)
    ensures LoadFrom(Lines(Entries(order)), true) == CanonSet(UpToBracket(order))
  {
    if order == [] {
      LoadLastLine(true);
    } else {
      var d, rest := order[0], order[1..];
      EntryLoads(d);
      LoadLineThen(EntryLine(d), Entries(rest), true, {Canon(d)}, CLOSE !in d);
      if CLOSE in d {
        EntriesIgnored(rest);
        CanonSetCons(d, []);
        assert [d] + [] == [d];
      } else {
        EntriesLoad(rest);
        CanonSetCons(d, UpToBracket(rest));
      }
    }
  }

  /** Loading what was printed from names without quotes, hash signs and newlines, in any order,
      gives the canonical forms of the names up to the first one with a closing bracket. */
  lemma PrintedLoadsUpToBracket(order: seq<Bytes>)
    requires AllQuotable(order)
    ensures Loaded(Printed(order)) == CanonSet(UpToBracket(order))
  {
    FirstLineLoads();
    LoadLineThen(FIRST_LINE, Entries(order), false, {}, true);
    EntriesLoad(order);
  }

  // ----- Exactly when a printed set comes back -----

  /** Every name is in the form names are compared in. */
  ghost predicate AllCanonical(order: seq<Bytes>)
  {
    forall i :: 0 <= i < |order| ==> Canon(order[i]) == order[i]
  }

  /** No name but perhaps the last holds a closing bracket. */
  ghost predicate BracketOnlyLast(order: seq<Bytes>)
  {
    forall i :: 0 <= i < |order| - 1 ==> CLOSE !in order[i]
  }

  lemma {:induction false} CanonSetMembers(items: seq<Bytes>, d: Bytes)
    ensures d in CanonSet(items) <==> exists i :: 0 <= i < |items| && Canon(items[i]) == d
  {
    if items == [] {
    } else {
      var rest := items[1..];
      CanonSetMembers(rest, d);
      assert forall i :: 0 <= i < |rest| ==> rest[i] == items[i + 1];
    }
  }

  lemma {:induction false} UpToBracketIsPrefix(order: seq<Bytes>)
    ensures UpToBracket(order) <= order
    ensures UpToBracket(order) == order <==> BracketOnlyLast(order)
  {
    if order == [] {
    } else {
      var rest := order[1..];
      UpToBracketIsPrefix(rest);
      assert order == [order[0]] + rest;
      assert forall i :: 0 <= i < |rest| ==> rest[i] == order[i + 1];
    }
  }

  ghost predicate EndsInDot(d: Bytes)
  {
    d != [] && d[|d| - 1] == DOT
  }

  /** If loading gives the whole set, a name that ends in a dot comes from a longer one that does
      too, and so on for ever: there is none. */
  lemma {:induction false} NoDotAtEnd(order: seq<Bytes>, loaded: seq<Bytes>, d: Bytes, bound: nat)
    requires loaded <= order && CanonSet(loaded) == SetOf(order) && d in order && EndsInDot(d)
    requires |d| <= bound && forall x :: x in order ==> |x| <= bound
    ensures false
    decreases bound - |d|
  {
    assert d in SetOf(order);
    CanonSetMembers(loaded, d);
    var i :| 0 <= i < |loaded| && Canon(loaded[i]) == d;
    var x := loaded[i];
    assert x == order[i];
    assert Lower(x)[|x| - 1] == LowerByte(x[|x| - 1]);
    NoDotAtEnd(order, loaded, x, bound);
  }

  function Longest(names: seq<Bytes>): (n: nat)
    ensures forall x :: x in names ==> |x| <= n
  {
    if names == [] then 0
    else
      var rest := Longest(names[1..]);
      assert forall x :: x in names ==> x == names[0] || x in names[1..];
      if |names[0]| > rest then |names[0]| else rest
  }

  lemma CanonOfUndotted(x: Bytes)
    requires !EndsInDot(x)
    ensures Canon(x) == Lower(x) && Canon(Canon(x)) == Canon(x)
  {
    LowerTwice(x);
  }

  lemma LoadedAllCanonical(order: seq<Bytes>, loaded: seq<Bytes>)
    requires loaded <= order && CanonSet(loaded) == SetOf(order)
    ensures AllCanonical(order)
  {
    forall k | 0 <= k < |order|
      ensures Canon(order[k]) == order[k]
    {
      var d := order[k];
      assert d in SetOf(order);
      CanonSetMembers(loaded, d);
      var i :| 0 <= i < |loaded| && Canon(loaded[i]) == d;
      assert loaded[i] == order[i];
      if EndsInDot(loaded[i]) {
        NoDotAtEnd(order, loaded, loaded[i], Longest(order));
      }
      CanonOfUndotted(loaded[i]);
    }
  }

  lemma {:induction false} CanonicalSet(names: seq<Bytes>)
    requires AllCanonical(names)
    ensures CanonSet(names) == SetOf(names)
  {
    forall d
      ensures d in CanonSet(names) <==> d in SetOf(names)
    {
      CanonSetMembers(names, d);
    }
  }

  lemma PrefixOfSameSet(some: seq<Bytes>, all: seq<Bytes>)
    requires some <= all && Distinct(all)
    ensures SetOf(some) == SetOf(all) ==> some == all
  {
    if |some| < |all| {
      assert all[|some|] in SetOf(all) && all[|some|] !in SetOf(some);
    }
  }

  /** Printing distinct names, in any order, and loading that gives the same set exactly when all
      are canonical and none but the last holds a closing bracket. */
  lemma PrintedLoadsIff(order: seq<Bytes>)
    requires AllQuotable(order) && Distinct(order)
    ensures Loaded(Printed(order)) == SetOf(order) <==> AllCanonical(order) && BracketOnlyLast(order)
  {
    var loaded := UpToBracket(order);
    PrintedLoadsUpToBracket(order);
    UpToBracketIsPrefix(order);
    if CanonSet(loaded) == SetOf(order) {
      LoadedAllCanonical(order, loaded);
      CanonicalSet(loaded);
      PrefixOfSameSet(loaded, order);
    }
    if AllCanonical(order) && BracketOnlyLast(order) {
      CanonicalSet(order);
    }
  }

  ghost predicate QuotableSet(domains: set<Bytes>)
  {
    forall d :: d in domains ==> Quotable(d)
  }

  ghost predicate CanonicalNames(domains: set<Bytes>)
  {
    forall d :: d in domains ==> Canon(d) == d
  }

  /** Only the greatest name may hold a closing bracket. */
  ghost predicate BracketOnlyGreatest(domains: set<Bytes>)
  {
    forall d, x :: d in domains && x in domains && CLOSE in d ==> x == d || Before(x, d)
  }

  lemma SortedBrackets(order: seq<Bytes>)
    requires Sorted(order)
    ensures BracketOnlyLast(order) <==> BracketOnlyGreatest(SetOf(order))
  {
    if BracketOnlyLast(order) {
      forall d, x | d in SetOf(order) && x in SetOf(order) && CLOSE in d
        ensures x == d || Before(x, d)
      {
        var i :| 0 <= i < |order| && order[i] == x;
        assert d == order[|order| - 1];
      }
    }
    if BracketOnlyGreatest(SetOf(order)) {
      forall i | 0 <= i < |order| - 1
        ensures CLOSE !in order[i]
      {
        BeforeTotal(order[i], order[i + 1]);
        assert order[i] in SetOf(order) && order[i + 1] in SetOf(order);
      }
    }
  }

  /** Printing a set and loading that gives the same set exactly when its names are canonical and
      none but the greatest holds a closing bracket. */
  lemma PrintedSetLoadsIff(content: Bytes, domains: set<Bytes>)
    requires QuotableSet(domains) && IsPrinted(content, domains)
    ensures Loaded(content) == domains <==> CanonicalNames(domains) && BracketOnlyGreatest(domains)
  {
    var order :| Sorted(order) && SetOf(order) == domains && content == Printed(order);
    SortedDistinct(order);
    assert forall i :: 0 <= i < |order| ==> order[i] in domains;
    PrintedLoadsIff(order);
    SortedBrackets(order);
    assert forall d :: d in domains ==> d in order;
  }

  // ----- What loading leaves in a set -----

  lemma TrimmedPlain(s: Bytes)
    requires PlainText(s)
    ensures PlainText(Trimmed(s))
  {
    TrimmedWithin(s, HASH);
    TrimmedWithin(s, NEWLINE);
  }

  lemma UncommentedPlain(line: Bytes)
    requires NEWLINE !in line
    ensures PlainText(Uncommented(line))
  {
    IndexIsFirst(line, HASH);
  }

  lemma {:induction false} LinesFree(content: Bytes)
    ensures Free(Lines(content), NEWLINE)
    decreases |content|
  {
    if content == [] {
    } else {
      CutParts(content, NEWLINE);
      match CutAt(content, NEWLINE)
      case Whole =>
      case Cut(line, rest) =>
        LinesFree(rest);
        FreeCons(line, Lines(rest), NEWLINE);
    }
  }

  lemma {:induction false} QuotedAreQuotable(inQuote: bool, cur: Bytes, s: Bytes)
    requires Quotable(cur) && PlainText(s)
    ensures AllQuotable(QuotedFrom(inQuote, cur, s))
    decreases |s|
  {
    if s == [] {
    } else if s[0] == QUOTE {
      QuotedAreQuotable(!inQuote, if inQuote then [] else cur, s[1..]);
    } else {
      QuotedAreQuotable(inQuote, if inQuote then cur + [s[0]] else cur, s[1..]);
    }
  }

  /** A name as loading leaves it: quotable and in lower case. */
  ghost predicate LoadedName(d: Bytes)
  {
    Quotable(d) && Lower(d) == d
  }

  lemma CanonLoadedName(x: Bytes)
    requires Quotable(x)
    ensures LoadedName(Canon(x))
  {
    assert forall i :: 0 <= i < |Canon(x)| ==> Canon(x)[i] == LowerByte(x[i]);
  }

  lemma QuotedLoadedNames(s: Bytes, d: Bytes)
    requires PlainText(s) && d in CanonSet(Quoted(s))
    ensures LoadedName(d)
  {
    QuotedAreQuotable(false, [], s);
    CanonSetMembers(Quoted(s), d);
    var i :| 0 <= i < |Quoted(s)| && Canon(Quoted(s)[i]) == d;
    CanonLoadedName(Quoted(s)[i]);
  }

  lemma LineLoadedNames(line: Bytes, inDomains: bool, d: Bytes)
    requires NEWLINE !in line && d in LoadLine(Trimmed(Uncommented(line)), inDomains).0
    ensures LoadedName(d)
  {
    var trimmed := Trimmed(Uncommented(line));
    UncommentedPlain(line);
    TrimmedPlain(Uncommented(line));
    if inDomains {
      QuotedLoadedNames(trimmed, d);
    } else {
      var rest := trimmed[Index(trimmed, EQUALS) + 1..];
      TrimmedPlain(rest);
      QuotedLoadedNames(Trimmed(rest), d);
    }
  }

  lemma {:induction false} LinesLoadedNames(lines: seq<Bytes>, inDomains: bool, d: Bytes)
    requires Free(lines, NEWLINE) && d in LoadFrom(lines, inDomains)
    ensures LoadedName(d)
  {
    var (added, goesOn) := LoadLine(Trimmed(Uncommented(lines[0])), inDomains);
    assert lines == [lines[0]] + lines[1..];
    FreeCons(lines[0], lines[1..], NEWLINE);
    if d in added {
      LineLoadedNames(lines[0], inDomains, d);
    } else {
      LinesLoadedNames(lines[1..], goesOn, d);
    }
  }

  /** Whatever a block list file says, the names loaded from it hold no quote, hash sign or newline
      and are in lower case. They may hold brackets and end in a dot. */
  lemma LoadedNames(content: Bytes, d: Bytes)
    requires d in Loaded(content)
    ensures LoadedName(d)
  {
    LinesFree(content);
    LinesLoadedNames(Lines(content), false, d);
  }

  lemma DomainLoadedName(d: Bytes)
    requires U.IsDomain(d)
    ensures LoadedName(d) && Canon(d) == d && CLOSE !in d && !EndsInDot(d)
  {
    U.DomainFixpoint(d);
    U.OnlyDomainBytes(d);
  }

  lemma LowerCanonical(d: Bytes)
    requires Lower(d) == d
    ensures Canon(d) == d <==> !EndsInDot(d)
  {
  }
}
