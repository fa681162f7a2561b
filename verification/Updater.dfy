/** One run of the updater: downloaded lists and the custom list become the block list in use,
    which is also written to a file. A restart begins with the custom list alone. */
module Updater {
  import opened Bytes
  import opened Text
  import opened Config
  import U = UpstreamBlocklist
  import B = Blocklist

  /** What a source contributes: its downloaded text, or the copy of an earlier one. */
  function SourceDomains(source: Option<Bytes>): set<Bytes>
  {
    if source.Some? then U.Parsed(source.value) else {}
  }

  function Listed(sources: seq<Option<Bytes>>): set<Bytes>
  {
    if sources == [] then {} else SourceDomains(sources[0]) + Listed(sources[1..])
  }

  /** A name is listed exactly if some source's text lists it. */
  lemma {:induction false} ListedIff(sources: seq<Option<Bytes>>, d: Bytes)
    ensures d in Listed(sources) <==>
            exists i :: 0 <= i < |sources| && sources[i].Some? && d in U.Parsed(sources[i].value)
  {
    if sources == [] {
    } else {
      ListedIff(sources[1..], d);
      assert forall i :: 1 <= i < |sources| ==> sources[i] == sources[1..][i - 1];
    }
  }

  /** The custom list: not configured, not readable, or its text. */
  datatype Custom = Unset | Unreadable | Readable(content: Bytes)

  function CustomNames(custom: Custom): set<Bytes>
  {
    if custom.Readable? then Loaded(custom.content) else {}
  }

  ghost predicate Available(sources: seq<Option<Bytes>>)
  {
    sources != [] && forall i :: 0 <= i < |sources| ==> sources[i].Some?
  }

  /** `cacheDir` says whether there is, or can be made, a directory for downloaded copies. */
  method BuildBlocklistFromSources(sources: seq<Option<Bytes>>, cacheDir: bool) returns (ok: bool, domains: set<Bytes>)
    ensures ok <==> Available(sources) && cacheDir
    ensures ok ==> domains == Listed(sources)
  {
    ok, domains := false, {};
    if sources == [] || !cacheDir {
      return;
    }
    assert sources[0..] == sources;
    for i := 0 to |sources|
      invariant forall j :: 0 <= j < i ==> sources[j].Some?
      invariant domains + Listed(sources[i..]) == Listed(sources)
    {
      assert sources[i..][1..] == sources[i + 1..];
      if sources[i].None? {
        return;
      }
      domains := U.ParseUpstreamBlocklistContent(sources[i].value, domains);
    }
    ok := true;
  }

  /** `writable` says whether the file can be written and renamed. Nothing is replaced unless all of
      it succeeds; then the set in use is the union, and it is what was printed. */
  method UpdateOnce(cacheDir: bool, sources: seq<Option<Bytes>>, custom: Custom, writable: bool,
                    blocklist: B.Blocklist)
    returns (ok: bool, file: Option<Bytes>)
    modifies blocklist
    ensures ok <==> cacheDir && Available(sources) && !custom.Unreadable? && writable
    ensures !ok ==> file == None && blocklist.domains == old(blocklist.domains)
    ensures ok ==> blocklist.domains == Listed(sources) + CustomNames(custom)
    ensures ok ==> file.Some? && IsPrinted(file.value, blocklist.domains)
  {
    ok, file := false, None;
    if !cacheDir {
      return;
    }
    var built, domains := BuildBlocklistFromSources(sources, cacheDir);
    if !built {
      return;
    }
    var customDomains := {};
    if custom.Unreadable? {
      return;
    }
    if custom.Readable? {
      customDomains := LoadBlocklist(custom.content, customDomains);
    }
    domains := domains + customDomains;
    if !writable {
      return;
    }
    var content := WriteBlocklistToml(domains);
    blocklist.SetDomains(domains);
    ok, file := true, Some(content);
  }

  // ----- What an update writes -----

  lemma {:induction false} ListedDomain(sources: seq<Option<Bytes>>, d: Bytes)
    requires d in Listed(sources)
    ensures U.IsDomain(d)
  {
    if d in SourceDomains(sources[0]) {
      U.ParsedAreFixpoints(sources[0].value, d);
    } else {
      ListedDomain(sources[1..], d);
    }
  }

  lemma UpdateName(sources: seq<Option<Bytes>>, custom: Custom, d: Bytes)
    requires d in Listed(sources) + CustomNames(custom)
    ensures LoadedName(d)
  {
    if d in Listed(sources) {
      ListedDomain(sources, d);
      DomainLoadedName(d);
    } else {
      LoadedNames(custom.content, d);
    }
  }

  /** What the updater prints is what it downloaded and what it loaded from the custom list.
      Loading that file again gives the same set exactly when no name ends in a dot and none but
      the greatest holds a closing bracket. */
  lemma UpdateRoundTrip(sources: seq<Option<Bytes>>, custom: Custom, content: Bytes)
    requires IsPrinted(content, Listed(sources) + CustomNames(custom))
    ensures var domains := Listed(sources) + CustomNames(custom);
            Loaded(content) == domains <==>
            (forall d :: d in domains ==> !EndsInDot(d)) && BracketOnlyGreatest(domains)
  {
    var domains := Listed(sources) + CustomNames(custom);
    forall d | d in domains
      ensures Quotable(d) && (Canon(d) == d <==> !EndsInDot(d))
    {
      UpdateName(sources, custom, d);
      LowerCanonical(d);
    }
    PrintedSetLoadsIff(content, domains);
  }

  /** Without a custom list nothing is lost: for all downloaded lists, printing what was parsed,
      in any order, and loading that gives exactly the parsed set. */
  lemma ListRoundTrip(sources: seq<Option<Bytes>>, order: seq<Bytes>)
    requires SetOf(order) == Listed(sources)
    ensures Loaded(Printed(order)) == Listed(sources)
  {
    forall i | 0 <= i < |order|
      ensures Quotable(order[i]) && Canon(order[i]) == order[i] && CLOSE !in order[i]
    {
      assert order[i] in SetOf(order);
      ListedDomain(sources, order[i]);
      DomainLoadedName(order[i]);
    }
    PrintedLoadsUpToBracket(order);
    UpToBracketIsPrefix(order);
    CanonicalSet(order);
  }

  lemma ListedOne(content: Bytes)
    ensures Listed([Some(content)]) == U.Parsed(content)
  {
    var sources: seq<Option<Bytes>> := [Some(content)];
    assert sources[1..] == [];
  }

  lemma BracketFirst(ab: Bytes, c: Bytes)
    requires Quotable(ab) && Quotable(c) && CLOSE in ab
    ensures Loaded(Printed([ab, c])) == {Canon(ab)}
  {
    PrintedLoadsUpToBracket([ab, c]);
    assert UpToBracket([ab, c]) == [ab];
    CanonSetCons(ab, []);
    assert [ab] + [] == [ab];
  }

  /** The custom entry `c` and the entry `a]b`, listed last, are both loaded; the set prints `a]b`
      first, and `c` is lost. */
  lemma BracketLosesName() returns (custom: Bytes, content: Bytes)
    ensures var domains := Listed([Some([])]) + CustomNames(Readable(custom));
            IsPrinted(content, domains) && [99] in domains && [99] !in Loaded(content)
  {
    ListedOne([]);
    var c: Bytes, ab: Bytes := [99], [97, 93, 98];
    var order := [ab, c];
    custom, content := Printed([c, ab]), Printed(order);
    assert c[0] != ab[0];
    assert Canon(c) == c && Canon(ab) == ab;
    PrintedLoadsIff([c, ab]);
    assert SetOf(order) == SetOf([c, ab]) && Before(ab, c) && Sorted(order);
    BracketFirst(ab, c);
  }

  lemma PrintedOne(d: Bytes)
    requires Quotable(d)
    ensures Loaded(Printed([d])) == {Canon(d)} && IsPrinted(Printed([d]), {d})
  {
    PrintedLoadsUpToBracket([d]);
    UpToBracketIsPrefix([d]);
    CanonSetCons(d, []);
    assert [d] + [] == [d];
    assert SetOf([d]) == {d} && Sorted([d]);
  }

  /** The custom entry `a..` is loaded as `a.`, and what is printed for that is loaded as `a`. */
  lemma DotChangesName() returns (custom: Bytes, content: Bytes)
    ensures var domains := Listed([Some([])]) + CustomNames(Readable(custom));
            IsPrinted(content, domains) && domains == {[97, DOT]} && Loaded(content) == {[97]}
  {
    var dots: Bytes, dot: Bytes, a: Bytes := [97, DOT, DOT], [97, DOT], [97];
    custom, content := Printed([dots]), Printed([dot]);
    ListedOne([]);
    PrintedOne(dots);
    PrintedOne(dot);
    assert Canon(dots) == dot && Canon(dot) == a;
  }

  // ----- What a restart loads -----

  /** At start-up the block list is the custom list alone, and there must be one. */
  method LoadAtStart(custom: Custom, blocklist: B.Blocklist) returns (ok: bool)
    modifies blocklist
    ensures ok <==> custom.Readable?
    ensures blocklist.domains == if ok then CustomNames(custom) else old(blocklist.domains)
  {
    ok := custom.Readable?;
    if ok {
      var domains := LoadBlocklist(custom.content, {});
      blocklist.SetDomains(domains);
    }
  }

  lemma UnionKeepsIff(some: set<Bytes>, all: set<Bytes>)
    ensures all == some + all <==> some <= all
  {
    if all == some + all {
      assert forall d :: d in some ==> d in some + all;
    }
  }

  /** An update and later a start with the same custom list: the set in use is the same again exactly
      when the custom list has everything that was downloaded. */
  method UpdateThenRestart(cacheDir: bool, sources: seq<Option<Bytes>>, custom: Custom, writable: bool,
                           blocklist: B.Blocklist)
    returns (updated: bool, started: bool, restarted: B.Blocklist)
    modifies blocklist
    ensures updated <==> cacheDir && Available(sources) && !custom.Unreadable? && writable
    ensures started <==> custom.Readable?
    ensures fresh(restarted)
    ensures updated && started ==>
              (restarted.domains == blocklist.domains <==> Listed(sources) <= CustomNames(custom))
  {
    var file;
    updated, file := UpdateOnce(cacheDir, sources, custom, writable, blocklist);
    restarted := new B.Blocklist();
    started := LoadAtStart(custom, restarted);
    UnionKeepsIff(Listed(sources), CustomNames(custom));
  }

  /** A list with the one rule for d and an empty custom list: d is in use after the update, the
      file written for it loads back, and a restart has forgotten it. */
  lemma RestartForgets(d: Bytes) returns (sources: seq<Option<Bytes>>, custom: Custom, content: Bytes)
    requires U.IsDomain(d)
    ensures Available(sources) && custom.Readable?
    ensures var domains := Listed(sources) + CustomNames(custom);
            domains == {d} && IsPrinted(content, domains) && Loaded(content) == domains
    ensures CustomNames(custom) == {}
  {
    var rule := U.PIPES + d + [U.CARET];
    sources, custom, content := [Some(rule)], Readable([]), Printed([d]);
    U.RuleAlone(d);
    ListedOne(rule);
    DomainLoadedName(d);
    PrintedOne(d);
  }
}
