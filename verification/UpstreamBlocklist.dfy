/** Parsing downloaded block lists: hosts-style, one domain per line, and `||domain^` rules. */
module UpstreamBlocklist {
  import opened Bytes
  import opened Text
  import B = Blocklist

  const BANG: byte := 33
  const STAR: byte := 42
  const HYPHEN: byte := 45
  const SLASH: byte := 47
  const COLON: byte := 58
  const BRACKET: byte := 91
  const CARET: byte := 94
  const CR: byte := 13
  const PIPES: Bytes := [124, 124]

  // ----- Domain names -----

  predicate IsDigit(c: byte)
  {
    48 <= c <= 57
  }

  predicate LabelByte(c: byte)
  {
    97 <= c <= 122 || IsDigit(c) || c == HYPHEN
  }

  /** Lower-case letters, digits and inner hyphens. */
  predicate ValidLabel(l: Bytes)
  {
    l != [] && l[0] != HYPHEN && l[|l| - 1] != HYPHEN && forall i :: 0 <= i < |l| ==> LabelByte(l[i])
  }

  method IsValidLabel(l: Bytes) returns (b: bool)
    ensures b == ValidLabel(l)
  {
    if l == [] {
      return false;
    }
    if l[0] == HYPHEN || l[|l| - 1] == HYPHEN {
      return false;
    }
    for i := 0 to |l|
      invariant forall j :: 0 <= j < i ==> LabelByte(l[j])
    {
      if LabelByte(l[i]) {
        continue;
      }
      return false;
    }
    return true;
  }

  predicate ValidLabels(labels: seq<Bytes>)
  {
    forall i :: 0 <= i < |labels| ==> ValidLabel(labels[i])
  }

  /** The names a list can hold: at least two labels, all valid. */
  predicate IsDomain(name: Bytes)
  {
    |Split(name, DOT)| >= 2 && ValidLabels(Split(name, DOT))
  }

  /** What NormalizeDomain makes of a token. */
  function Normalized(raw: Bytes): Option<Bytes>
  {
    if IsDomain(Canon(raw)) then Some(Canon(raw)) else None
  }

  predicate DomainByte(c: byte)
  {
    LabelByte(c) || c == DOT
  }

  predicate AllDomainBytes(s: Bytes)
  {
    forall i :: 0 <= i < |s| ==> DomainByte(s[i])
  }

  lemma ValidLabelsCons(x: Bytes, rest: seq<Bytes>)
    ensures ValidLabels([x] + rest) <==> ValidLabel(x) && ValidLabels(rest)
  {
    var all := [x] + rest;
    assert all[0] == x;
    assert forall i :: 0 <= i < |rest| ==> rest[i] == all[i + 1];
  }

  lemma {:induction false} SplitBytes(s: Bytes)
    requires ValidLabels(Split(s, DOT))
    ensures s != [] && s[0] != DOT && s[|s| - 1] != DOT && AllDomainBytes(s)
    decreases |s|
  {
    CutParts(s, DOT);
    match CutAt(s, DOT)
    case Whole =>
      assert Split(s, DOT)[0] == s;
    case Cut(head, tail) =>
      ValidLabelsCons(head, Split(tail, DOT));
      SplitBytes(tail);
  }

  /** A domain is made of lower-case letters, digits, hyphens and inner dots only. */
  lemma OnlyDomainBytes(s: Bytes)
    ensures IsDomain(s) ==>
            s != [] && s[0] != DOT && s[|s| - 1] != DOT && AllDomainBytes(s)
  {
    if IsDomain(s) {
      SplitBytes(s);
    }
  }

  method NormalizeDomain(raw: Bytes) returns (ok: bool, name: Bytes)
    ensures ok == Normalized(raw).Some? && (ok ==> name == Normalized(raw).value)
  {
    ok, name := false, [];
    var canon := CanonicalName(raw);
    if canon == [] {
      return;
    }
    if SLASH in canon || STAR in canon {
      OnlyDomainBytes(canon);
      return;
    }
    var labels := SplitAt(canon, DOT);
    if |labels| < 2 {
      return;
    }
    for i := 0 to |labels|
      invariant forall j :: 0 <= j < i ==> ValidLabel(labels[j])
    {
      var valid := IsValidLabel(labels[i]);
      if !valid {
        return;
      }
    }
    ok, name := true, canon;
  }

  /** Domains are canonical, hence fixpoints of normalization. */
  lemma DomainFixpoint(d: Bytes)
    requires IsDomain(d)
    ensures Canon(d) == d && Normalized(d) == Some(d)
  {
    OnlyDomainBytes(d);
    assert Lower(d) == d;
  }

  // ----- Lines and tokens -----

  /** The domain a token contributes, if it is one. */
  function Single(raw: Bytes): set<Bytes>
  {
    if Normalized(raw).Some? then {Normalized(raw).value} else {}
  }

  /** SplitWhitespace's loop: the token begun so far and the text still to read. */
  function TokensFrom(cur: Bytes, s: Bytes): seq<Bytes>
    decreases |s|
  {
    if s == [] then (if cur == [] then [] else [cur])
    else if IsSpace(s[0]) then (if cur == [] then [] else [cur]) + TokensFrom([], s[1..])
    else TokensFrom(cur + [s[0]], s[1..])
  }

  lemma Associate1(a: seq<Bytes>, x: Bytes, b: seq<Bytes>)
    ensures a + ([x] + b) == a + [x] + b
  {
  }

  method SplitWhitespace(s: Bytes) returns (parts: seq<Bytes>)
    ensures parts == TokensFrom([], s)
  {
    parts := [];
    var cur: Bytes := [];
    assert s[0..] == s;
    for i := 0 to |s|
      invariant parts + TokensFrom(cur, s[i..]) == TokensFrom([], s)
    {
      assert s[i..][1..] == s[i + 1..];
      if IsSpace(s[i]) {
        if cur != [] {
          Associate1(parts, cur, TokensFrom([], s[i + 1..]));
          parts := parts + [cur];
          cur := [];
        }
      } else {
        cur := cur + [s[i]];
      }
    }
    if cur != [] {
      parts := parts + [cur];
    }
  }

  predicate DigitsAndDots(s: Bytes)
  {
    forall i :: 0 <= i < |s| ==> s[i] == DOT || IsDigit(s[i])
  }

  predicate IpLike(token: Bytes)
  {
    COLON in token || (DOT in token && DigitsAndDots(token))
  }

  method LooksLikeIp(token: Bytes) returns (b: bool)
    ensures b == IpLike(token)
  {
    if COLON in token {
      return true;
    }
    var hasDot := false;
    for i := 0 to |token|
      invariant DigitsAndDots(token[..i]) && hasDot == (DOT in token[..i])
    {
      assert token[..i + 1] == token[..i] + [token[i]];
      if token[i] == DOT {
        hasDot := true;
      } else if !IsDigit(token[i]) {
        return false;
      }
    }
    assert token[..|token|] == token;
    return hasDot;
  }

  predicate MatchesAt(s: Bytes, t: Bytes, i: nat)
  {
    i + |t| <= |s| && s[i..i + |t|] == t
  }

  /** std::string::find of a text, other than npos. */
  predicate Contains(s: Bytes, t: Bytes)
  {
    exists i: nat | i <= |s| :: MatchesAt(s, t, i)
  }

  /** Comments, headers and element-hiding rules. */
  predicate Skippable(line: Bytes)
  {
    line == [] || line[0] == BANG || line[0] == BRACKET || line[0] == HASH ||
    Contains(line, [HASH, HASH]) || Contains(line, [HASH, 64, HASH]) ||  // #@#
    Contains(line, [HASH, 63, HASH]) || Contains(line, [HASH, 36, HASH])  // #?# #$#
  }

  /** The domains among the tokens from `i` on, up to a comment. */
  function TokenDomains(tokens: seq<Bytes>, i: nat): set<Bytes>
    decreases |tokens| - i
  {
    if i >= |tokens| || (tokens[i] != [] && tokens[i][0] == HASH) then {}
    else Single(tokens[i]) + TokenDomains(tokens, i + 1)
  }

  function WithoutCR(line: Bytes): Bytes
  {
    if line != [] && line[|line| - 1] == CR then line[..|line| - 1] else line
  }

  /** The domains of a trimmed line. */
  function TrimmedDomains(line: Bytes): set<Bytes>
  {
    if Skippable(line) then {}
    else if PIPES <= line then
      var caret := 2 + Index(line[2..], CARET);
      if caret == |line| then {} else Single(line[2..caret])
    else
      var tokens := TokensFrom([], line);
      if tokens == [] then {}
      else TokenDomains(tokens, if IpLike(tokens[0]) then 1 else 0)
  }

  function LineDomains(line: Bytes): set<Bytes>
  {
    TrimmedDomains(Trimmed(WithoutCR(line)))
  }

  function LinesDomains(lines: seq<Bytes>): set<Bytes>
  {
    if lines == [] then {} else LineDomains(lines[0]) + LinesDomains(lines[1..])
  }

  /** Everything a downloaded list contributes. */
  function Parsed(content: Bytes): set<Bytes>
  {
    LinesDomains(Lines(content))
  }

  /** Adds the normal form of a token that has one. */
  method Insert(raw: Bytes, domains0: set<Bytes>) returns (domains: set<Bytes>)
    ensures domains == domains0 + Single(raw)
  {
    domains := domains0;
    var ok, name := NormalizeDomain(raw);
    if ok {
      domains := domains + {name};
    }
  }

  /** The token loop. */
  method ParseTokens(tokens: seq<Bytes>, start: nat, domains0: set<Bytes>) returns (domains: set<Bytes>)
    requires start <= |tokens|
    ensures domains == domains0 + TokenDomains(tokens, start)
  {
    domains := domains0;
    for i := start to |tokens|
      invariant domains + TokenDomains(tokens, i) == domains0 + TokenDomains(tokens, start)
    {
      if tokens[i] != [] && tokens[i][0] == HASH {
        return;
      }
      domains := Insert(tokens[i], domains);
    }
  }

  /** The body of the line loop, after trimming. */
  method ParseTrimmed(trimmed: Bytes, domains0: set<Bytes>) returns (domains: set<Bytes>)
    ensures domains == domains0 + TrimmedDomains(trimmed)
  {
    domains := domains0;
    if Skippable(trimmed) {
      return;
    }
    var rule := StartsWith(trimmed, PIPES);
    if rule {
      var caret := Find(trimmed, CARET, 2);
      if caret == |trimmed| {
        return;
      }
      domains := Insert(trimmed[2..caret], domains);
      return;
    }
    var tokens := SplitWhitespace(trimmed);
    if tokens == [] {
      return;
    }
    var start := 0;
    var ip := LooksLikeIp(tokens[0]);
    if ip {
      start := 1;
    }
    domains := ParseTokens(tokens, start, domains0);
  }

  method ParseLine(raw: Bytes, domains0: set<Bytes>) returns (domains: set<Bytes>)
    ensures domains == domains0 + LineDomains(raw)
  {
    var line := raw;
    if line != [] && line[|line| - 1] == CR {
      line := line[..|line| - 1];
    }
    var trimmed := Trim(line);
    domains := ParseTrimmed(trimmed, domains0);
  }

  /** What the lines from `pos` on still contribute. */
  ghost function Unread(content: Bytes, pos: nat): set<Bytes>
  {
    if pos <= |content| then Parsed(content[pos..]) else {}
  }

  lemma ParsedCons(line: Bytes, rest: seq<Bytes>)
    ensures LinesDomains([line] + rest) == LineDomains(line) + LinesDomains(rest)
  {
    assert ([line] + rest)[1..] == rest;
  }

  lemma UnreadStep(content: Bytes, pos: nat, line: Bytes, next: nat)
    requires pos < next && pos < |content|
    requires Lines(content[pos..]) == [line] + (if next <= |content| then Lines(content[next..]) else [])
    ensures Unread(content, pos) == LineDomains(line) + Unread(content, next)
  {
    ParsedCons(line, if next <= |content| then Lines(content[next..]) else []);
  }

  method ParseUpstreamBlocklistContent(content: Bytes, domains0: set<Bytes>) returns (domains: set<Bytes>)
    ensures domains == domains0 + Parsed(content)
  {
    domains := domains0;
    var pos: nat := 0;
    assert content[0..] == content;
    while pos < |content|
      invariant domains + Unread(content, pos) == domains0 + Parsed(content)
      decreases |content| - pos
    {
      var line, next := GetLine(content, pos);
      UnreadStep(content, pos, line, next);
      domains := ParseLine(line, domains);
      pos := next;
    }
    assert Unread(content, pos) == {};
  }

  // ----- What a list means, line by line -----

  /** A label of letters, digits and inner hyphens. */
  ghost predicate PlainLabel(l: Bytes)
  {
    && l != [] && l[0] != 45 && l[|l| - 1] != 45
    && forall i :: 0 <= i < |l| ==> 97 <= l[i] <= 122 || 48 <= l[i] <= 57 || l[i] == 45
  }

  ghost predicate PlainLabels(labels: seq<Bytes>)
  {
    forall i :: 0 <= i < |labels| ==> PlainLabel(labels[i])
  }

  /** A domain is two or more such labels with dots between them. */
  lemma DomainIff(name: Bytes)
    ensures IsDomain(name) <==> exists labels :: |labels| >= 2 && PlainLabels(labels) && name == Join(labels)
  {
    if IsDomain(name) {
      SplitJoin(name, DOT);
      assert PlainLabels(Split(name, DOT));
    }
    if labels :| |labels| >= 2 && PlainLabels(labels) && name == Join(labels) {
      JoinSplit(labels, DOT);
    }
  }

  ghost predicate Has(line: Bytes, text: string)
    requires IsAscii(text)
  {
    exists a, b :: line == a + Ascii(text) + b
  }

  lemma ContainsIff(line: Bytes, t: Bytes)
    ensures Contains(line, t) <==> exists a, b :: line == a + t + b
  {
    if i: nat :| i <= |line| && MatchesAt(line, t, i) {
      assert line == line[..i] + t + line[i + |t|..];
    }
    forall a, b | line == a + t + b
      ensures Contains(line, t)
    {
      assert MatchesAt(line, t, |a|);
    }
  }

  /** Comments, headers and element-hiding rules are skipped. */
  lemma SkippedIff(line: Bytes)
    ensures Skippable(line) <==>
            || line == [] || line[0] in Ascii("!#[")
            || Has(line, "##") || Has(line, "#@#") || Has(line, "#?#") || Has(line, "#$#")
  {
    assert Ascii("!#[") == [33, 35, 91] && Ascii("##") == [35, 35] && Ascii("#@#") == [35, 64, 35];
    assert Ascii("#?#") == [35, 63, 35] && Ascii("#$#") == [35, 36, 35];
    ContainsIff(line, Ascii("##"));
    ContainsIff(line, Ascii("#@#"));
    ContainsIff(line, Ascii("#?#"));
    ContainsIff(line, Ascii("#$#"));
  }

  /** Token `k` names `d`, and neither it nor one since `i` starts a comment. */
  ghost predicate TokenNames(tokens: seq<Bytes>, i: nat, k: nat, d: Bytes)
  {
    && i <= k < |tokens| && Normalized(tokens[k]) == Some(d)
    && forall j :: i <= j <= k ==> tokens[j] == [] || tokens[j][0] != 35
  }

  /** Some token from `i` on does. */
  ghost predicate SomeTokenNames(tokens: seq<Bytes>, i: nat, d: Bytes)
  {
    exists k: nat :: TokenNames(tokens, i, k, d)
  }

  lemma TokenNamesStep(tokens: seq<Bytes>, i: nat, d: Bytes)
    requires i < |tokens| && (tokens[i] == [] || tokens[i][0] != 35)
    ensures SomeTokenNames(tokens, i, d) <==> Normalized(tokens[i]) == Some(d) || SomeTokenNames(tokens, i + 1, d)
  {
    var n := i + 1;
    if Normalized(tokens[i]) == Some(d) {
      assert TokenNames(tokens, i, i, d);
    }
    if SomeTokenNames(tokens, n, d) {
      var k: nat :| TokenNames(tokens, n, k, d);
      assert TokenNames(tokens, i, k, d);
    }
    if SomeTokenNames(tokens, i, d) {
      var k: nat :| TokenNames(tokens, i, k, d);
      assert k == i || TokenNames(tokens, n, k, d);
    }
  }

  lemma {:induction false} TokenDomainsIff(tokens: seq<Bytes>, i: nat, d: Bytes)
    ensures d in TokenDomains(tokens, i) <==> SomeTokenNames(tokens, i, d)
    decreases |tokens| - i
  {
    if i >= |tokens| || (tokens[i] != [] && tokens[i][0] == 35) {
    } else {
      TokenDomainsIff(tokens, i + 1, d);
      TokenNamesStep(tokens, i, d);
    }
  }

  /** The rule `||text^` with anything behind it, for a text without a caret. */
  ghost predicate RuleFor(line: Bytes, text: Bytes)
  {
    CARET !in text && exists rest :: line == Ascii("||") + text + Ascii("^") + rest
  }

  lemma RuleCut(line: Bytes, text: Bytes, rest: Bytes)
    requires CARET !in text && line == PIPES + text + [CARET] + rest
    ensures Index(line[2..], CARET) == |text| && line[2..2 + |text|] == text
  {
    assert line[2..] == text + [CARET] + rest && (text + [CARET] + rest)[..|text|] == text;
    IndexUnique(line[2..], CARET, |text|);
  }

  lemma RuleText(line: Bytes, k: nat, text: Bytes)
    requires PIPES <= line && k == Index(line[2..], CARET)
    ensures RuleFor(line, text) <==> 2 + k < |line| && text == line[2..2 + k]
  {
    assert Ascii("||") == PIPES && Ascii("^") == [CARET];
    if 2 + k < |line| && text == line[2..2 + k] {
      IndexIsFirst(line[2..], CARET);
      assert text == line[2..][..k] && line == PIPES + text + [CARET] + line[3 + k..];
    }
    if RuleFor(line, text) {
      var rest :| line == PIPES + text + [CARET] + rest;
      RuleCut(line, text, rest);
    }
  }

  lemma RuleIff(line: Bytes, d: Bytes)
    requires PIPES <= line && !Skippable(line)
    ensures d in TrimmedDomains(line) <==> exists text :: RuleFor(line, text) && Normalized(text) == Some(d)
  {
    var k := Index(line[2..], CARET);
    forall text
      ensures RuleFor(line, text) <==> 2 + k < |line| && text == line[2..2 + k]
    {
      RuleText(line, k, text);
    }
  }

  /** What a trimmed line lists: nothing if it is skipped; the domain of a rule; else the domains among
      its tokens up to a comment, the first token excepted if it looks like an address. */
  lemma LineIff(line: Bytes, d: Bytes)
    ensures d in TrimmedDomains(line) <==>
            !Skippable(line) &&
            if PIPES <= line then exists text :: RuleFor(line, text) && Normalized(text) == Some(d)
            else
              var tokens := TokensFrom([], line);
              tokens != [] && SomeTokenNames(tokens, if IpLike(tokens[0]) then 1 else 0, d)
  {
    if Skippable(line) {
    } else if PIPES <= line {
      RuleIff(line, d);
    } else {
      var tokens := TokensFrom([], line);
      if tokens != [] {
        TokenDomainsIff(tokens, if IpLike(tokens[0]) then 1 else 0, d);
      }
    }
  }

  lemma WithoutCRSpaced(l: Bytes, line: Bytes, r: Bytes) returns (l': Bytes, r': Bytes)
    requires AllSpace(l) && Tight(line) && AllSpace(r)
    ensures AllSpace(l') && AllSpace(r') && WithoutCR(l + line + r) == l' + line + r'
  {
    var raw := l + line + r;
    l', r' := l, r;
    if raw != [] && raw[|raw| - 1] == CR {
      if r != [] {
        r' := r[..|r| - 1];
      } else {
        l' := l[..|l| - 1];
      }
    }
  }

  /** Space around a line, a carriage return included, does not matter. */
  lemma SpaceAround(l: Bytes, line: Bytes, r: Bytes)
    requires AllSpace(l) && Tight(line) && AllSpace(r)
    ensures LineDomains(l + line + r) == TrimmedDomains(line)
  {
    var l', r' := WithoutCRSpaced(l, line, r);
    TrimExact(l', line, r');
  }

  /** Some line lists `d`. */
  ghost predicate SomeLineLists(lines: seq<Bytes>, d: Bytes)
  {
    exists i :: 0 <= i < |lines| && d in LineDomains(lines[i])
  }

  lemma {:induction false} LinesIff(lines: seq<Bytes>, d: Bytes)
    ensures d in LinesDomains(lines) <==> SomeLineLists(lines, d)
  {
    if lines == [] {
    } else {
      LinesIff(lines[1..], d);
      assert forall i :: 1 <= i < |lines| ==> lines[i] == lines[1..][i - 1];
    }
  }

  /** A text lists what its lines do. */
  lemma ParsedIff(content: Bytes, d: Bytes)
    ensures d in Parsed(content) <==> SomeLineLists(Lines(content), d)
  {
    LinesIff(Lines(content), d);
  }

  // ----- Laws of list parsing -----

  lemma {:induction false} TokenDomainsValid(tokens: seq<Bytes>, i: nat, d: Bytes)
    requires d in TokenDomains(tokens, i)
    ensures IsDomain(d)
    decreases |tokens| - i
  {
    if d in Single(tokens[i]) {
    } else {
      TokenDomainsValid(tokens, i + 1, d);
    }
  }

  lemma {:induction false} LinesDomainsValid(lines: seq<Bytes>, d: Bytes)
    requires d in LinesDomains(lines)
    ensures IsDomain(d)
  {
    if d in LineDomains(lines[0]) {
      var line := Trimmed(WithoutCR(lines[0]));
      if !(PIPES <= line) {
        var tokens := TokensFrom([], line);
        TokenDomainsValid(tokens, if IpLike(tokens[0]) then 1 else 0, d);
      }
    } else {
      LinesDomainsValid(lines[1..], d);
    }
  }

  /** Every member of a parsed list is a domain, and normalization leaves it as it is. */
  lemma ParsedAreFixpoints(content: Bytes, d: Bytes)
    requires d in Parsed(content)
    ensures IsDomain(d) && Normalized(d) == Some(d)
  {
    LinesDomainsValid(Lines(content), d);
    DomainFixpoint(d);
  }

  /** The first line contributes its own domains. */
  lemma FirstLineOf(line: Bytes, rest: Bytes)
    requires NEWLINE !in line
    ensures Parsed(line + [NEWLINE] + rest) == LineDomains(line) + Parsed(rest)
  {
    LinesCons(line, rest);
    ParsedCons(line, Lines(rest));
  }

  /** A last line without its newline contributes what it would with it. */
  lemma LastLine(line: Bytes)
    requires NEWLINE !in line
    ensures Parsed(line) == LineDomains(line)
  {
    if line == [] {
      assert Trimmed(WithoutCR([])) == [];
    } else {
      CutNone(line, NEWLINE);
      ParsedCons(line, []);
      assert [line] + [] == [line];
    }
  }

  lemma Regrouped(a: Bytes, b: Bytes, c: Bytes)
    ensures a + [NEWLINE] + b + [NEWLINE] + c == a + [NEWLINE] + (b + [NEWLINE] + c)
  {
  }

  /** Parsing is a homomorphism: two lists with a newline between them give the union. */
  lemma {:induction false} ParsedConcat(c1: Bytes, c2: Bytes)
    ensures Parsed(c1 + [NEWLINE] + c2) == Parsed(c1) + Parsed(c2)
    decreases |c1|
  {
    CutParts(c1, NEWLINE);
    match CutAt(c1, NEWLINE)
    case Whole =>
      FirstLineOf(c1, c2);
      LastLine(c1);
    case Cut(a, b) =>
      ParsedConcat(b, c2);
      FirstLineOf(a, b);
      FirstLineOf(a, b + [NEWLINE] + c2);
      Regrouped(a, b, c2);
  }

  // ----- The three formats agree -----

  lemma {:induction false} TokensWord(cur: Bytes, w: Bytes, rest: Bytes)
    requires forall i :: 0 <= i < |w| ==> !IsSpace(w[i])
    ensures TokensFrom(cur, w + rest) == TokensFrom(cur + w, rest)
    decreases |w|
  {
    if w == [] {
      assert w + rest == rest && cur + w == cur;
    } else {
      assert (w + rest)[1..] == w[1..] + rest && cur + w == cur + [w[0]] + w[1..];
      TokensWord(cur + [w[0]], w[1..], rest);
    }
  }

  /** Any space separates the tokens before it from those after it; with OneWord this says what
      the tokens of every line are. */
  lemma {:induction false} TokensSplit(cur: Bytes, a: Bytes, space: byte, b: Bytes)
    requires IsSpace(space)
    ensures TokensFrom(cur, a + [space] + b) == TokensFrom(cur, a) + TokensFrom([], b)
    decreases |a|
  {
    var s := a + [space] + b;
    if a == [] {
      assert s[1..] == b;
    } else {
      assert s[1..] == a[1..] + [space] + b;
      TokensSplit(if IsSpace(a[0]) then [] else cur + [a[0]], a[1..], space, b);
    }
  }

  /** A line without spaces is its own trimmed text and one token. */
  lemma OneWord(w: Bytes)
    requires w != [] && forall i :: 0 <= i < |w| ==> !IsSpace(w[i])
    ensures TokensFrom([], w) == [w] && Trimmed(WithoutCR(w)) == w
  {
    TokensWord([], w, []);
    assert w + [] == w && [] + w == w;
    TrimTight(w);
  }

  lemma MatchHasFirst(s: Bytes, t: Bytes, i: nat)
    requires t != [] && MatchesAt(s, t, i)
    ensures t[0] in s
  {
    assert s[i..i + |t|][0] == s[i];
  }

  lemma NoMatch(s: Bytes, t: Bytes)
    requires t != [] && t[0] !in s
    ensures !Contains(s, t)
  {
    if i: nat :| i <= |s| && MatchesAt(s, t, i) {
      MatchHasFirst(s, t, i);
    }
  }

  lemma NotSkippable(line: Bytes)
    requires line != [] && HASH !in line && line[0] != BANG && line[0] != BRACKET
    ensures !Skippable(line)
  {
    NoMatch(line, [HASH, HASH]);
    NoMatch(line, [HASH, 64, HASH]);
    NoMatch(line, [HASH, 63, HASH]);
    NoMatch(line, [HASH, 36, HASH]);
  }

  /** `||d^` lists d. */
  lemma RuleLists(d: Bytes)
    requires IsDomain(d)
    ensures LineDomains(PIPES + d + [CARET]) == {d}
  {
    OnlyDomainBytes(d);
    DomainFixpoint(d);
    var line := PIPES + d + [CARET];
    OneWord(line);
    NotSkippable(line);
    assert line[2..] == d + [CARET] && (d + [CARET])[..|d|] == d;
    IndexUnique(d + [CARET], CARET, |d|);
    assert line[2..2 + |d|] == d;
  }

  /** A list of that one rule lists d alone. */
  lemma RuleAlone(d: Bytes)
    requires IsDomain(d)
    ensures Parsed(PIPES + d + [CARET]) == {d}
  {
    assert NEWLINE !in PIPES + d + [CARET] by { OnlyDomainBytes(d); }
    LastLine(PIPES + d + [CARET]);
    RuleLists(d);
  }

  const NULL_ADDRESS: Bytes := [48, 46, 48, 46, 48, 46, 48]  // 0.0.0.0

  lemma LastToken(tokens: seq<Bytes>, i: nat, d: Bytes)
    requires |tokens| == i + 1 && tokens[i] == d && IsDomain(d)
    ensures TokenDomains(tokens, i) == {d}
  {
    DomainFixpoint(d);
    OnlyDomainBytes(d);
    assert TokenDomains(tokens, i + 1) == {};
  }

  lemma HostsTokens(ip: Bytes, d: Bytes)
    requires ip != [] && d != []
    requires forall i :: 0 <= i < |ip| ==> !IsSpace(ip[i])
    requires forall i :: 0 <= i < |d| ==> !IsSpace(d[i])
    ensures TokensFrom([], ip + [32] + d) == [ip] + [d]
  {
    TokensSplit([], ip, 32, d);
    OneWord(ip);
    OneWord(d);
  }

  lemma HostsTrimmed(ip: Bytes, d: Bytes)
    requires ip != [] && d != [] && !IsSpace(ip[0]) && !IsSpace(d[|d| - 1])
    ensures Trimmed(WithoutCR(ip + [32] + d)) == ip + [32] + d
  {
    var line := ip + [32] + d;
    assert line[0] == ip[0] && line[|line| - 1] == d[|d| - 1];
    TrimTight(line);
  }

  /** `0.0.0.0 d` lists d. */
  lemma HostsLineLists(d: Bytes)
    requires IsDomain(d)
    ensures LineDomains(NULL_ADDRESS + [32] + d) == {d}
  {
    OnlyDomainBytes(d);
    var ip, line := NULL_ADDRESS, NULL_ADDRESS + [32] + d;
    HostsTrimmed(ip, d);
    HostsTokens(ip, d);
    NotSkippable(line);
    assert line[0] == 48 && ip[1] == DOT && IpLike(ip);
    LastToken([ip] + [d], 1, d);
  }

  /** A bare `d` lists d exactly when it is not only digits and dots. */
  lemma BareLineLists(d: Bytes)
    requires IsDomain(d)
    ensures LineDomains(d) == if DigitsAndDots(d) then {} else {d}
  {
    OnlyDomainBytes(d);
    OneWord(d);
    NotSkippable(d);
    CutParts(d, DOT);
    assert DOT in d;
    assert IpLike(d) <==> DigitsAndDots(d);
    assert TokenDomains([d], 1) == {};
    LastToken([d], 0, d);
  }

  /** `1.2` is a domain, and a line that says so lists nothing. */
  lemma DigitsNotListed() returns (d: Bytes)
    ensures IsDomain(d) && LineDomains(d) == {}
  {
    var one: Bytes, two: Bytes := [49], [50];
    d := [49, DOT, 50];
    JoinSplit([one, two], DOT);
    assert [one, two][1..] == [two];
    assert d == one + [DOT] + two;
    BareLineLists(d);
  }

  /** A list that contributes d blocks d and everything under it. */
  lemma ListedIsBlocked(content: Bytes, d: Bytes, x: Bytes)
    requires d in Parsed(content)
    ensures B.Blocked(Parsed(content), d) && B.Blocked(Parsed(content), x + [DOT] + d)
  {
    ParsedAreFixpoints(content, d);
    DomainFixpoint(d);
    OnlyDomainBytes(d);
    B.SubdomainsBlocked(Parsed(content), x, d);
  }
}
