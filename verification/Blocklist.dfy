/** Matching a name against the block list: the name itself or any domain above it. */
module Blocklist {
  import opened Bytes
  import opened Text

  /** `s` ends with a dot followed by `d`. */
  predicate Under(s: Bytes, d: Bytes)
  {
    |d| < |s| && s[|s| - |d| - 1] == DOT && s[|s| - |d|..] == d
  }

  /** The declarative meaning: the canonical name is listed, or lies under a listed domain. */
  ghost predicate Blocked(domains: set<Bytes>, name: Bytes)
  {
    Canon(name) in domains || exists d :: d in domains && Under(Canon(name), d)
  }

  lemma DropCons(x: Bytes, rest: seq<Bytes>, k: nat)
    requires 1 <= k <= |rest| + 1
    ensures ([x] + rest)[k..] == rest[k - 1..]
  {
  }

  lemma UnderTail(head: Bytes, tail: Bytes, d: Bytes)
    requires Under(tail, d)
    ensures Under(head + [DOT] + tail, d)
  {
  }

  /** The suffixes that IsBlocked builds out of labels are the ones after a dot. */
  lemma {:induction false} LabelSuffixIsUnder(s: Bytes, k: nat)
    requires 1 <= k < |Split(s, DOT)|
    ensures Under(s, Join(Split(s, DOT)[k..]))
    decreases |s|
  {
    var c := CutAt(s, DOT);
    CutParts(s, DOT);
    var labels := Split(c.tail, DOT);
    DropCons(c.head, labels, k);
    if k == 1 {
      assert labels[0..] == labels;
      SplitJoin(c.tail, DOT);
    } else {
      LabelSuffixIsUnder(c.tail, k - 1);
      UnderTail(c.head, c.tail, Join(labels[k - 1..]));
    }
  }

  lemma NotBefore(head: Bytes, rest: Bytes, i: nat)
    requires DOT !in head && i < |head| + |rest| && (head + rest)[i] == DOT
    ensures |head| <= i
  {
  }

  lemma UnderAll(head: Bytes, tail: Bytes, d: Bytes)
    requires DOT !in head && Under(head + [DOT] + tail, d) && |tail| <= |d|
    ensures tail == d
  {
    Associate(head, [DOT], tail);
    NotBefore(head, [DOT] + tail, |head| + |tail| - |d|);
  }

  lemma {:induction false} UnderIsLabelSuffix(s: Bytes, d: Bytes) returns (k: nat)
    requires Under(s, d)
    ensures 1 <= k < |Split(s, DOT)| && Join(Split(s, DOT)[k..]) == d
    decreases |s|
  {
    CutParts(s, DOT);
    assert s[|s| - |d| - 1] in s;
    var c := CutAt(s, DOT);
    var labels := Split(c.tail, DOT);
    var j := 0;
    if |c.tail| <= |d| {
      UnderAll(c.head, c.tail, d);
      assert labels[0..] == labels;
      SplitJoin(c.tail, DOT);
    } else {
      assert Under(c.tail, d);
      j := UnderIsLabelSuffix(c.tail, d);
    }
    k := j + 1;
    DropCons(c.head, labels, k);
  }

  /** A name is blocked exactly when it, or one of its label suffixes, is listed. */
  lemma BlockedBySuffixes(domains: set<Bytes>, name: Bytes)
    ensures var labels := Split(Canon(name), DOT);
            Blocked(domains, name) <==>
            Canon(name) in domains || exists k :: 1 <= k < |labels| && Join(labels[k..]) in domains
  {
    var canon := Canon(name);
    var labels := Split(canon, DOT);
    if d :| d in domains && Under(canon, d) {
      var k := UnderIsLabelSuffix(canon, d);
    }
    if k :| 1 <= k < |labels| && Join(labels[k..]) in domains {
      LabelSuffixIsUnder(canon, k);
    }
  }

  /** The inner loop: the labels from `i` on, joined again. */
  method JoinFrom(labels: seq<Bytes>, i: nat) returns (suffix: Bytes)
    requires i < |labels|
    ensures suffix == Join(labels[i..])
  {
    suffix := labels[i];
    for j := i + 1 to |labels|
      invariant suffix == Join(labels[i..j])
    {
      JoinByAppend(DOT, labels[i..j], labels[j]);
      assert labels[i..j + 1] == labels[i..j] + [labels[j]];
      suffix := suffix + [DOT];
      suffix := suffix + labels[j];
    }
    assert labels[i..|labels|] == labels[i..];
  }

  class Blocklist {
    var domains: set<Bytes>

    constructor ()
      ensures domains == {}
    {
      domains := {};
    }

    method SetDomains(domains: set<Bytes>)
      modifies this
      ensures this.domains == domains
    {
      this.domains := domains;
    }

    method IsBlocked(name: Bytes) returns (blocked: bool)
      ensures blocked <==> Blocked(domains, name)
    {
      if domains == {} {
        return false;
      }
      var canon := CanonicalName(name);
      if canon in domains {
        return true;
      }
      var labels := SplitAt(canon, DOT);
      BlockedBySuffixes(domains, name);
      if |labels| < 2 {
        return false;
      }
      for i := 1 to |labels|
        invariant forall k :: 1 <= k < i ==> Join(labels[k..]) !in domains
      {
        var suffix := JoinFrom(labels, i);
        if suffix in domains {
          return true;
        }
      }
      return false;
    }
  }

  // ----- Consequences -----

  /** Neither the case of letters nor one trailing dot matters. */
  lemma CaseInsensitive(domains: set<Bytes>, a: Bytes, b: Bytes)
    requires SameLetters(Undotted(a), Undotted(b))
    ensures Blocked(domains, a) <==> Blocked(domains, b)
  {
    CanonIff(a, b);
  }

  lemma CanonUnder(x: Bytes, name: Bytes)
    requires name != []
    ensures Canon(x + [DOT] + name) == Lower(x) + [DOT] + Canon(name)
  {
    LowerAppend(x + [DOT], name);
    LowerAppend(x, [DOT]);
  }

  /** Everything under a blocked name is blocked. */
  lemma SubdomainsBlocked(domains: set<Bytes>, x: Bytes, name: Bytes)
    requires name != [] && Blocked(domains, name)
    ensures Blocked(domains, x + [DOT] + name)
  {
    CanonUnder(x, name);
    var s, t := Canon(x + [DOT] + name), Canon(name);
    if t in domains {
      assert Under(s, t);
    } else {
      var d :| d in domains && Under(t, d);
      assert Under(s, d);
    }
  }

  lemma UnderTransitive(s: Bytes, t: Bytes, d: Bytes)
    requires Under(s, t) && Under(t, d)
    ensures Under(s, d)
  {
    assert s[|s| - |d|..] == s[|s| - |t|..][|t| - |d|..];
  }

  /** Listing a domain under one already listed changes nothing. */
  lemma SubdomainRedundant(domains: set<Bytes>, sub: Bytes, d: Bytes, name: Bytes)
    requires d in domains && Under(sub, d)
    ensures Blocked(domains + {sub}, name) <==> Blocked(domains, name)
  {
    var s := Canon(name);
    if s == sub {
      assert Under(s, d);
    }
    if Under(s, sub) {
      UnderTransitive(s, sub, d);
    }
  }
}
