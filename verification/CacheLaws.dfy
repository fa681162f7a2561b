/** Laws of the cache over single calls, whole runs and pairs of runs. */
module CacheLaws {
  import opened Bytes
  import opened Cache

  // ----- What Put keeps -----

  /** `kept` is a suffix of `all` within the limit, and no longer suffix is. */
  ghost predicate LongestSuffix(all: seq<Item>, maxBytes: nat, kept: seq<Item>)
  {
    && |kept| <= |all| && kept == all[|all| - |kept|..] && Size(kept) <= maxBytes
    && forall j :: 0 <= j < |all| - |kept| ==> Size(all[j..]) > maxBytes
  }

  /** Fit keeps the longest suffix that fits: nothing in front of it could have stayed. */
  lemma {:induction false} FitIsLongestSuffix(items: seq<Item>, maxBytes: nat)
    ensures LongestSuffix(items, maxBytes, Fit(items, maxBytes))
  {
    if items == [] || Size(items) <= maxBytes {
    } else {
      var kept := Fit(items, maxBytes);
      FitIsLongestSuffix(items[1..], maxBytes);
      forall j | 0 <= j < |items| - |kept|
        ensures Size(items[j..]) > maxBytes
      {
        assert items[j..] == if j == 0 then items else items[1..][j - 1..];
      }
    }
  }

  /** The last item survives Fit exactly when it fits on its own; otherwise nothing does. */
  lemma FitLast(items: seq<Item>, last: Item, maxBytes: nat)
    ensures var kept := Fit(items + [last], maxBytes);
            if |last.response| > maxBytes then kept == [] else kept != [] && kept[|kept| - 1] == last
  {
    var all, kept := items + [last], Fit(items + [last], maxBytes);
    FitIsLongestSuffix(all, maxBytes);
    assert all[|items|..] == [last] && Size([last]) == |last.response| + Size([]);
    if kept != [] {
      SizeAppend(kept[..|kept| - 1], [last]);
      assert kept == kept[..|kept| - 1] + [last];
    }
  }

  /** After Put the recency order is the longest suffix that fits of the unexpired other entries
      followed by the new one; a response over the limit therefore leaves the cache empty, and
      any other is there, most recent. */
  lemma PutKeepsLongestSuffix(s: State, key: Bytes, response: Bytes, now: int, later: int)
    ensures var kept, added := PutStep(s, key, response, now, later).items, Item(key, response, later + s.ttl);
            && LongestSuffix(Keep(s.items, now, Some(key)) + [added], s.maxBytes, kept)
            && if |response| > s.maxBytes then kept == [] else kept != [] && kept[|kept| - 1] == added
  {
    var live, added := Keep(s.items, now, Some(key)), Item(key, response, later + s.ttl);
    var kept := Fit(live + [added], s.maxBytes);
    assert PutStep(s, key, response, now, later).items == kept;
    FitIsLongestSuffix(live + [added], s.maxBytes);
    FitLast(live, added, s.maxBytes);
  }

  lemma FitMembers(items: seq<Item>, maxBytes: nat, x: Item)
    requires x in Fit(items, maxBytes)
    ensures x in items
  {
    FitIsLongestSuffix(items, maxBytes);
  }

  /** Keep is exactly the subsequence of items that are neither expired nor for the key. */
  lemma {:induction false} KeepMembers(items: seq<Item>, now: int, key: Option<Bytes>, x: Item)
    ensures x in Keep(items, now, key) <==> x in items && !Dropped(x, now, key)
  {
    if items == [] {
    } else {
      KeepMembers(items[1..], now, key, x);
      assert x in items <==> x == items[0] || x in items[1..];
    }
  }

  // ----- The order of what is kept -----

  /** `x` was used before `y`. */
  ghost predicate Precedes(items: seq<Item>, x: Item, y: Item)
  {
    exists i, j :: 0 <= i < j < |items| && items[i] == x && items[j] == y
  }

  lemma PrecedesCons(h: Item, rest: seq<Item>, x: Item, y: Item)
    ensures Precedes([h] + rest, x, y) <==> (h == x && y in rest) || Precedes(rest, x, y)
  {
    var all := [h] + rest;
    if Precedes(all, x, y) {
      var i, j :| 0 <= i < j < |all| && all[i] == x && all[j] == y;
      assert all[j] == rest[j - 1] && (i > 0 ==> all[i] == rest[i - 1]);
    }
    if h == x && y in rest {
      var j :| 0 <= j < |rest| && rest[j] == y;
      assert all[0] == x && all[j + 1] == y;
    }
    if Precedes(rest, x, y) {
      var i, j :| 0 <= i < j < |rest| && rest[i] == x && rest[j] == y;
      assert all[i + 1] == x && all[j + 1] == y;
    }
  }

  lemma PrecedesSnoc(items: seq<Item>, last: Item, x: Item, y: Item)
    ensures Precedes(items + [last], x, y) <==> (last == y && x in items) || Precedes(items, x, y)
  {
    var all := items + [last];
    if Precedes(all, x, y) {
      var i, j :| 0 <= i < j < |all| && all[i] == x && all[j] == y;
      assert items[i] == x;
      if j < |items| {
        assert items[j] == y;
      }
    }
    if last == y && x in items {
      var i :| 0 <= i < |items| && items[i] == x;
      assert all[i] == x && all[|items|] == y;
    }
    if Precedes(items, x, y) {
      var i, j :| 0 <= i < j < |items| && items[i] == x && items[j] == y;
      assert all[i] == x && all[j] == y;
    }
  }

  /** Dropping entries leaves the others in order. */
  lemma {:induction false} KeepOrder(items: seq<Item>, now: int, key: Option<Bytes>, x: Item, y: Item)
    ensures Precedes(Keep(items, now, key), x, y) <==>
            Precedes(items, x, y) && !Dropped(x, now, key) && !Dropped(y, now, key)
  {
    if items == [] {
    } else {
      var h, rest := items[0], items[1..];
      assert items == [h] + rest;
      KeepOrder(rest, now, key, x, y);
      KeepMembers(rest, now, key, y);
      PrecedesCons(h, rest, x, y);
      PrecedesCons(h, Keep(rest, now, key), x, y);
    }
  }

  /** A miss leaves the unexpired entries in order. */
  lemma MissOrder(s: State, key: Bytes, now: int, x: Item, y: Item)
    requires Hit(s, key, now).None?
    ensures Precedes(GetStep(s, key, now).items, x, y) <==> Precedes(s.items, x, y) && now < x.expiry && now < y.expiry
  {
    KeepOrder(s.items, now, None, x, y);
  }

  /** A hit leaves the unexpired entries in order, but for its own, which comes behind all others. */
  lemma HitOrder(s: State, key: Bytes, now: int, x: Item, y: Item)
    requires DistinctKeys(s.items) && Hit(s, key, now).Some? && x.key != key
    ensures var items := GetStep(s, key, now).items;
            if y.key == key then Precedes(items, x, y) <==> x in items && y in items
            else Precedes(items, x, y) <==> Precedes(s.items, x, y) && now < x.expiry && now < y.expiry
    ensures !Precedes(GetStep(s, key, now).items, y, x) || y.key != key
  {
    var others := Keep(s.items, now, Some(key));
    var z := Lookup(Keep(s.items, now, None), key).value;
    KeepOrder(s.items, now, Some(key), x, y);
    KeepOrder(s.items, now, Some(key), y, x);
    KeepMembers(s.items, now, Some(key), x);
    KeepMembers(s.items, now, Some(key), y);
    PrecedesSnoc(others, z, x, y);
    PrecedesSnoc(others, z, y, x);
  }

  // ----- Whole runs -----

  datatype Op =
    | Get(key: Bytes, now: int)
    | Put(key: Bytes, response: Bytes, now: int, later: int)
    | SetLimits(maxBytes: nat, ttl: nat)

  function Step(s: State, op: Op): State
  {
    match op
    case Get(key, now) => GetStep(s, key, now)
    case Put(key, response, now, later) => PutStep(s, key, response, now, later)
    case SetLimits(maxBytes, ttl) => LimitStep(s, maxBytes, ttl)
  }

  /** The state after a run, last operation last. */
  function Run(s: State, ops: seq<Op>): State
  {
    if ops == [] then s else Step(Run(s, ops[..|ops| - 1]), ops[|ops| - 1])
  }

  /** What a run last put under a key, with the expiry it got then. */
  function LatestPut(s: State, ops: seq<Op>, key: Bytes): Option<Item>
  {
    if ops == [] then None
    else
      var before, op := ops[..|ops| - 1], ops[|ops| - 1];
      if op.Put? && op.key == key then Some(Item(key, op.response, op.later + Run(s, before).ttl))
      else LatestPut(s, before, key)
  }

  lemma RunAppend(s: State, ops: seq<Op>, op: Op)
    ensures Run(s, ops + [op]) == Step(Run(s, ops), op)
  {
    assert (ops + [op])[..|ops|] == ops;
  }

  lemma LatestPutAppend(s: State, ops: seq<Op>, op: Op, key: Bytes)
    ensures LatestPut(s, ops + [op], key) ==
            if op.Put? && op.key == key then Some(Item(key, op.response, op.later + Run(s, ops).ttl))
            else LatestPut(s, ops, key)
  {
    assert (ops + [op])[..|ops|] == ops;
  }

  /** No key twice and within the limit: what every reachable cache satisfies. */
  ghost predicate Sane(s: State)
  {
    DistinctKeys(s.items) && Size(s.items) <= s.maxBytes
  }

  lemma {:induction false} KeepDistinct(items: seq<Item>, now: int, key: Option<Bytes>)
    requires DistinctKeys(items)
    ensures DistinctKeys(Keep(items, now, key))
  {
    if items == [] {
    } else {
      var rest := Keep(items[1..], now, key);
      KeepDistinct(items[1..], now, key);
      forall i | 0 <= i < |rest|
        ensures rest[i].key != items[0].key
      {
        KeepMembers(items[1..], now, key, rest[i]);
      }
    }
  }

  lemma AppendDistinct(items: seq<Item>, x: Item)
    requires DistinctKeys(items) && forall i :: 0 <= i < |items| ==> items[i].key != x.key
    ensures DistinctKeys(items + [x])
  {
  }

  lemma {:induction false} KeepSize(items: seq<Item>, now: int, key: Option<Bytes>)
    ensures Size(Keep(items, now, key)) <= Size(items)
  {
    if items == [] {
    } else {
      KeepSize(items[1..], now, key);
    }
  }

  lemma RefreshedDistinct(items: seq<Item>, now: int, x: Item)
    requires DistinctKeys(items)
    ensures DistinctKeys(Keep(items, now, Some(x.key)) + [x])
  {
    KeepDistinct(items, now, Some(x.key));
    KeptUnexpired(items, now, Some(x.key));
    AppendDistinct(Keep(items, now, Some(x.key)), x);
  }

  lemma FitSane(items: seq<Item>, maxBytes: nat)
    requires DistinctKeys(items)
    ensures DistinctKeys(Fit(items, maxBytes)) && Size(Fit(items, maxBytes)) <= maxBytes
  {
    FitIsLongestSuffix(items, maxBytes);
  }

  /** Moving a live item to the back leaves the total size alone. */
  lemma {:induction false} TouchSize(items: seq<Item>, now: int, key: Bytes)
    requires DistinctKeys(items) && Lookup(Keep(items, now, None), key).Some?
    ensures var x := Lookup(Keep(items, now, None), key).value;
            Size(Keep(items, now, Some(key)) + [x]) == Size(Keep(items, now, None))
  {
    var live := Keep(items, now, None);
    var x := Lookup(live, key).value;
    KeepDistinct(items, now, None);
    var i :| 0 <= i < |live| && live[i] == x;
    KeepKey(items, now, key, i, live);
    SizeWithout(live, i);
    SizeAppend(live[..i] + live[i + 1..], [x]);
    assert Size([x]) == |x.response| + Size([]);
  }

  lemma GetSane(s: State, key: Bytes, now: int)
    requires Sane(s)
    ensures Sane(GetStep(s, key, now))
  {
    KeepDistinct(s.items, now, None);
    KeepSize(s.items, now, None);
    var found := Lookup(Keep(s.items, now, None), key);
    if found.Some? {
      RefreshedDistinct(s.items, now, found.value);
      TouchSize(s.items, now, key);
    }
  }

  lemma PutSane(s: State, key: Bytes, response: Bytes, now: int, later: int)
    requires Sane(s)
    ensures Sane(PutStep(s, key, response, now, later))
  {
    var x := Item(key, response, later + s.ttl);
    RefreshedDistinct(s.items, now, x);
    FitSane(Keep(s.items, now, Some(key)) + [x], s.maxBytes);
  }

  lemma StepSane(s: State, op: Op)
    requires Sane(s)
    ensures Sane(Step(s, op))
  {
    match op
    case Get(key, now) => GetSane(s, key, now);
    case Put(key, response, now, later) => PutSane(s, key, response, now, later);
    case SetLimits(maxBytes, _) => FitSane(s.items, maxBytes);
  }

  /** Every run from an empty cache keeps keys distinct and the total within the limit. */
  lemma {:induction false} RunSane(s: State, ops: seq<Op>)
    requires s.items == []
    ensures Sane(Run(s, ops))
  {
    if ops == [] {
    } else {
      RunSane(s, ops[..|ops| - 1]);
      StepSane(Run(s, ops[..|ops| - 1]), ops[|ops| - 1]);
    }
  }

  /** Get adds no item. */
  lemma GetMembers(s: State, key: Bytes, now: int, x: Item)
    requires x in GetStep(s, key, now).items
    ensures x in s.items
  {
    KeepMembers(s.items, now, None, x);
    KeepMembers(s.items, now, Some(key), x);
    var found := Lookup(Keep(s.items, now, None), key);
    if found.Some? {
      KeepMembers(s.items, now, None, found.value);
    }
  }

  /** Put adds its own item and keeps none other for the key. */
  lemma PutMembers(s: State, key: Bytes, response: Bytes, now: int, later: int, x: Item)
    requires x in PutStep(s, key, response, now, later).items
    ensures x == Item(key, response, later + s.ttl) || (x in s.items && x.key != key)
  {
    var added := Item(key, response, later + s.ttl);
    FitMembers(Keep(s.items, now, Some(key)) + [added], s.maxBytes, x);
    KeepMembers(s.items, now, Some(key), x);
  }

  /** Every item of a reachable cache is what was last put under its key. */
  lemma {:induction false} ItemsAreLatest(s: State, ops: seq<Op>, x: Item)
    requires s.items == [] && x in Run(s, ops).items
    ensures LatestPut(s, ops, x.key) == Some(x)
  {
    var before, op := ops[..|ops| - 1], ops[|ops| - 1];
    var c := Run(s, before);
    match op
    case Get(key, now) =>
      GetMembers(c, key, now, x);
      ItemsAreLatest(s, before, x);
    case Put(key, response, now, later) =>
      PutMembers(c, key, response, now, later, x);
      if x != Item(key, response, later + c.ttl) {
        ItemsAreLatest(s, before, x);
      }
    case SetLimits(maxBytes, ttl) =>
      FitMembers(c.items, maxBytes, x);
      ItemsAreLatest(s, before, x);
  }

  /** A hit returns exactly the bytes last put under the key, and only before they expire. */
  lemma HitIsLatestPut(s: State, ops: seq<Op>, key: Bytes, now: int)
    requires s.items == [] && Hit(Run(s, ops), key, now).Some?
    ensures var put := LatestPut(s, ops, key);
            put.Some? && Hit(Run(s, ops), key, now).value == put.value.response && now < put.value.expiry
  {
    var c := Run(s, ops);
    var x := Lookup(Keep(c.items, now, None), key).value;
    KeepMembers(c.items, now, None, x);
    ItemsAreLatest(s, ops, x);
  }

  // ----- Exactly when a lookup misses -----

  /** The entry for the key and everything more recent take more than the limit. */
  ghost predicate Crowded(all: seq<Item>, key: Bytes, maxBytes: nat)
  {
    exists j :: 0 <= j < |all| && all[j].key == key && Size(all[j..]) > maxBytes
  }

  /** What a Put or SetLimits then cuts down to the limit. */
  function BeforeFit(s: State, op: Op): seq<Item>
  {
    match op
    case Get(_, _) => []
    case Put(key, response, now, later) => Keep(s.items, now, Some(key)) + [Item(key, response, later + s.ttl)]
    case SetLimits(_, _) => s.items
  }

  ghost predicate EvictedBy(s: State, op: Op, key: Bytes)
  {
    Crowded(BeforeFit(s, op), key, Step(s, op).maxBytes)
  }

  /** Some operation from the latest Put for the key on has crowded its entry out. */
  ghost predicate EvictedSince(s: State, ops: seq<Op>, key: Bytes)
  {
    if ops == [] then false
    else
      var before, op := ops[..|ops| - 1], ops[|ops| - 1];
      EvictedBy(Run(s, before), op, key) || (!(op.Put? && op.key == key) && EvictedSince(s, before, key))
  }

  lemma SizeMonotone(items: seq<Item>, i: nat, j: nat)
    requires i <= j <= |items|
    ensures Size(items[j..]) <= Size(items[i..])
  {
    assert items[i..] == items[i..j] + items[j..];
    SizeAppend(items[i..j], items[j..]);
  }

  /** Fit keeps exactly the items that are not crowded out. */
  lemma FitKeeps(all: seq<Item>, maxBytes: nat, x: Item)
    requires DistinctKeys(all) && x in all
    ensures x in Fit(all, maxBytes) <==> !Crowded(all, x.key, maxBytes)
  {
    var kept := Fit(all, maxBytes);
    FitIsLongestSuffix(all, maxBytes);
    var m := |all| - |kept|;
    var i :| 0 <= i < |all| && all[i] == x;
    if i >= m {
      assert kept[i - m] == x;
      SizeMonotone(all, m, i);
      assert forall j :: 0 <= j < |all| && all[j].key == x.key ==> j == i;
    } else {
      assert Size(all[i..]) > maxBytes;
      assert forall j :: 0 <= j < |kept| ==> kept[j] == all[j + m];
    }
  }

  ghost predicate NotLater(op: Op, now: int)
  {
    op.SetLimits? || op.now <= now
  }

  lemma GetKeeps(s: State, key: Bytes, now: int, x: Item)
    requires DistinctKeys(s.items) && now < x.expiry
    ensures x in GetStep(s, key, now).items <==> x in s.items
  {
    KeepMembers(s.items, now, None, x);
    KeepMembers(s.items, now, Some(key), x);
    KeepDistinct(s.items, now, None);
    var live := Keep(s.items, now, None);
    var found := Lookup(live, key);
    if found.Some? {
      KeepMembers(s.items, now, None, found.value);
      if x in live && x.key == key {
        var i :| 0 <= i < |live| && live[i] == x;
        LookupAt(live, i);
      }
    }
  }

  /** Get drops exactly the expired entries. */
  lemma GetSurvivors(s: State, key: Bytes, now: int, x: Item)
    requires DistinctKeys(s.items)
    ensures x in GetStep(s, key, now).items <==> x in s.items && now < x.expiry
  {
    if now < x.expiry {
      GetKeeps(s, key, now, x);
    } else {
      KeepMembers(s.items, now, None, x);
      KeepMembers(s.items, now, Some(key), x);
      var found := Lookup(Keep(s.items, now, None), key);
      if found.Some? {
        KeepMembers(s.items, now, None, found.value);
      }
    }
  }

  lemma PutKeeps(s: State, key: Bytes, response: Bytes, now: int, later: int, x: Item)
    requires DistinctKeys(s.items) && now < x.expiry
    ensures var op := Put(key, response, now, later);
            x in PutStep(s, key, response, now, later).items <==>
            (x == Item(key, response, later + s.ttl) || (x in s.items && x.key != key)) && !EvictedBy(s, op, x.key)
  {
    var added := Item(key, response, later + s.ttl);
    var all := Keep(s.items, now, Some(key)) + [added];
    KeepMembers(s.items, now, Some(key), x);
    RefreshedDistinct(s.items, now, added);
    assert all[|all| - 1] == added;
    assert x in all <==> x == added || x in Keep(s.items, now, Some(key));
    if x in all {
      FitKeeps(all, s.maxBytes, x);
    } else if x in Fit(all, s.maxBytes) {
      FitMembers(all, s.maxBytes, x);
    }
  }

  lemma LimitKeeps(s: State, maxBytes: nat, ttl: nat, x: Item)
    requires DistinctKeys(s.items)
    ensures x in LimitStep(s, maxBytes, ttl).items <==>
            x in s.items && !EvictedBy(s, SetLimits(maxBytes, ttl), x.key)
  {
    if x in s.items {
      FitKeeps(s.items, maxBytes, x);
    } else if x in Fit(s.items, maxBytes) {
      FitMembers(s.items, maxBytes, x);
    }
  }

  lemma PresentStep(c: State, op: Op, now: int, x: Item, s: State, before: seq<Op>)
    requires s.items == [] && c == Run(s, before) && now < x.expiry && NotLater(op, now)
    ensures x in Step(c, op).items <==>
            ((op.Put? && x == Item(op.key, op.response, op.later + c.ttl)) ||
             (x in c.items && !(op.Put? && op.key == x.key))) && !EvictedBy(c, op, x.key)
  {
    RunSane(s, before);
    match op
    case Get(key, t) => GetKeeps(c, key, t, x);
    case Put(key, response, t, later) => PutKeeps(c, key, response, t, later, x);
    case SetLimits(maxBytes, ttl) => LimitKeeps(c, maxBytes, ttl, x);
  }

  /** An unexpired item is in the cache exactly if it was the latest put for its key and nothing has
      crowded it out since. */
  lemma {:induction false} PresentIff(s: State, ops: seq<Op>, now: int, x: Item)
    requires s.items == [] && now < x.expiry && forall i :: 0 <= i < |ops| ==> NotLater(ops[i], now)
    ensures x in Run(s, ops).items <==> LatestPut(s, ops, x.key) == Some(x) && !EvictedSince(s, ops, x.key)
  {
    if ops == [] {
    } else {
      var before, op := ops[..|ops| - 1], ops[|ops| - 1];
      assert NotLater(ops[|ops| - 1], now);
      PresentIff(s, before, now, x);
      PresentStep(Run(s, before), op, now, x, s, before);
    }
  }

  lemma {:induction false} LatestPutKey(s: State, ops: seq<Op>, key: Bytes)
    ensures LatestPut(s, ops, key).Some? ==> LatestPut(s, ops, key).value.key == key
  {
    if ops == [] {
    } else {
      LatestPutKey(s, ops[..|ops| - 1], key);
    }
  }

  /** With a clock that does not run backwards, a lookup hits exactly if the key was put, the latest
      put has not expired, and since then its entry and everything more recent never took more
      than the limit. Otherwise it misses. */
  lemma HitIff(s: State, ops: seq<Op>, key: Bytes, now: int)
    requires s.items == [] && forall i :: 0 <= i < |ops| ==> NotLater(ops[i], now)
    ensures Hit(Run(s, ops), key, now).Some? <==>
            var put := LatestPut(s, ops, key);
            put.Some? && now < put.value.expiry && !EvictedSince(s, ops, key)
  {
    var c, put := Run(s, ops), LatestPut(s, ops, key);
    if Hit(c, key, now).Some? {
      var x := Lookup(Keep(c.items, now, None), key).value;
      KeepMembers(c.items, now, None, x);
      PresentIff(s, ops, now, x);
    }
    if put.Some? && now < put.value.expiry && !EvictedSince(s, ops, key) {
      LatestPutKey(s, ops, key);
      PresentIff(s, ops, now, put.value);
      KeepMembers(c.items, now, None, put.value);
    }
  }

  /** What was just put is found, as long as it fits and has not expired. */
  lemma PutThenHit(s: State, key: Bytes, response: Bytes, now: int, later: int, got: int)
    requires |response| <= s.maxBytes && got < later + s.ttl
    ensures Hit(PutStep(s, key, response, now, later), key, got) == Some(response)
  {
    var c, added := PutStep(s, key, response, now, later), Item(key, response, later + s.ttl);
    PutKeepsLongestSuffix(s, key, response, now, later);
    assert added in c.items;
    KeepMembers(c.items, got, None, added);
    var found := Lookup(Keep(c.items, got, None), key);
    if found.Some? {
      KeepMembers(c.items, got, None, found.value);
      PutMembers(s, key, response, now, later, found.value);
    }
  }

  // ----- Two runs: LRU inclusion -----

  ghost predicate Suffix(a: seq<Item>, b: seq<Item>)
  {
    |a| <= |b| && a == b[|b| - |a|..]
  }

  lemma {:induction false} KeepAppend(a: seq<Item>, b: seq<Item>, now: int, key: Option<Bytes>)
    ensures Keep(a + b, now, key) == Keep(a, now, key) + Keep(b, now, key)
  {
    if a == [] {
      assert a + b == b;
    } else {
      assert (a + b)[1..] == a[1..] + b;
      KeepAppend(a[1..], b, now, key);
    }
  }

  lemma KeepSuffix(a: seq<Item>, b: seq<Item>, now: int, key: Option<Bytes>)
    requires Suffix(a, b)
    ensures Suffix(Keep(a, now, key), Keep(b, now, key))
  {
    assert b == b[..|b| - |a|] + a;
    KeepAppend(b[..|b| - |a|], a, now, key);
  }

  lemma SuffixAppend(a: seq<Item>, b: seq<Item>, x: Item)
    requires Suffix(a, b)
    ensures Suffix(a + [x], b + [x])
  {
  }

  /** A tighter limit on a suffix keeps a suffix of what the wider limit keeps. */
  lemma FitSuffix(a: seq<Item>, b: seq<Item>, small: nat, large: nat)
    requires Suffix(a, b) && small <= large
    ensures Suffix(Fit(a, small), Fit(b, large))
  {
    var x, y := Fit(a, small), Fit(b, large);
    FitIsLongestSuffix(a, small);
    FitIsLongestSuffix(b, large);
    assert x == b[|b| - |x|..] && y == b[|b| - |y|..];
  }

  /** Two caches that differ only in their limits, the smaller holding a suffix of the larger. */
  ghost predicate Included(small: State, large: State)
  {
    small.maxBytes <= large.maxBytes && small.ttl == large.ttl && Suffix(small.items, large.items)
  }

  lemma PutIncluded(small: State, large: State, key: Bytes, response: Bytes, now: int, later: int)
    requires Included(small, large)
    ensures Included(PutStep(small, key, response, now, later), PutStep(large, key, response, now, later))
  {
    var x := Item(key, response, later + small.ttl);
    KeepSuffix(small.items, large.items, now, Some(key));
    var a, b := Keep(small.items, now, Some(key)), Keep(large.items, now, Some(key));
    SuffixAppend(a, b, x);
    FitSuffix(a + [x], b + [x], small.maxBytes, large.maxBytes);
  }

  /** With distinct keys, what a suffix finds the whole finds too. */
  lemma LookupSuffix(a: seq<Item>, b: seq<Item>, key: Bytes)
    requires Suffix(a, b) && DistinctKeys(b) && Lookup(a, key).Some?
    ensures Lookup(b, key) == Lookup(a, key)
  {
    var x := Lookup(a, key).value;
    var i :| 0 <= i < |a| && a[i] == x;
    assert b[|b| - |a| + i] == x;
    LookupAt(b, |b| - |a| + i);
  }

  /** A Get preserves inclusion exactly when it hits in the smaller cache, misses in the larger,
      or finds nothing alive in the smaller. */
  lemma GetIncludedIff(small: State, large: State, key: Bytes, now: int)
    requires Included(small, large) && DistinctKeys(large.items)
    ensures Included(GetStep(small, key, now), GetStep(large, key, now)) <==>
            Hit(small, key, now).Some? || Hit(large, key, now).None? || Keep(small.items, now, None) == []
  {
    var a, b := Keep(small.items, now, None), Keep(large.items, now, None);
    KeepSuffix(small.items, large.items, now, None);
    KeepDistinct(large.items, now, None);
    if Lookup(a, key).Some? {
      LookupSuffix(a, b, key);
      KeepSuffix(small.items, large.items, now, Some(key));
      SuffixAppend(Keep(small.items, now, Some(key)), Keep(large.items, now, Some(key)), Lookup(a, key).value);
    } else if Lookup(b, key).Some? && a != [] {
      var after := GetStep(large, key, now).items;
      assert after[|after| - 1].key == key;
      assert a[|a| - 1] in a;
      assert !Suffix(a, after);
    }
  }

  /** An operation that both runs make, with every Get as GetIncludedIff wants it. */
  ghost predicate Fair(small: State, large: State, op: Op)
  {
    match op
    case Get(key, now) =>
      Hit(small, key, now).Some? || Hit(large, key, now).None? || Keep(small.items, now, None) == []
    case Put(_, _, _, _) => true
    case SetLimits(_, _) => false
  }

  ghost predicate FairRun(small: State, large: State, ops: seq<Op>)
  {
    ops == [] ||
    (FairRun(small, large, ops[..|ops| - 1]) &&
     Fair(Run(small, ops[..|ops| - 1]), Run(large, ops[..|ops| - 1]), ops[|ops| - 1]))
  }

  /** LRU inclusion: from empty caches with the same lifetime and limits M1 <= M2, after any
      common fair run the smaller cache holds a suffix of the larger one's recency order, with
      equal responses and expiries. */
  lemma {:induction false} LruInclusion(small: State, large: State, ops: seq<Op>)
    requires small.items == [] && large.items == []
    requires small.maxBytes <= large.maxBytes && small.ttl == large.ttl
    requires FairRun(small, large, ops)
    ensures Included(Run(small, ops), Run(large, ops))
  {
    if ops == [] {
    } else {
      var before, op := ops[..|ops| - 1], ops[|ops| - 1];
      LruInclusion(small, large, before);
      match op
      case Put(key, response, now, later) =>
        PutIncluded(Run(small, before), Run(large, before), key, response, now, later);
      case Get(key, now) =>
        RunSane(large, before);
        GetIncludedIff(Run(small, before), Run(large, before), key, now);
    }
  }

  lemma RunFour(s: State, op0: Op, op1: Op, op2: Op, op3: Op)
    ensures Run(s, [op0] + [op1] + [op2] + [op3]) == Step(Step(Step(Step(s, op0), op1), op2), op3)
  {
    RunAppend(s, [], op0);
    assert [] + [op0] == [op0];
    RunAppend(s, [op0], op1);
    RunAppend(s, [op0] + [op1], op2);
    RunAppend(s, [op0] + [op1] + [op2], op3);
  }

  lemma FirstPut(a: Item, maxBytes: nat)
    requires a == Item([1], [0, 0], 10) && maxBytes >= 2
    ensures PutStep(State([], maxBytes, 10), [1], [0, 0], 0, 0) == State([a], maxBytes, 10)
  {
    assert [a][1..] == [] && Size([a]) == 2 && [] + [a] == [a];
  }

  lemma SmallSide(a: Item, b: Item, c: Item)
    requires a == Item([1], [0, 0], 10) && b == Item([2], [0], 10) && c == Item([3], [0], 10)
    ensures PutStep(State([a], 2, 10), [2], [0], 0, 0) == State([b], 2, 10)
    ensures GetStep(State([b], 2, 10), [1], 0) == State([b], 2, 10)
    ensures PutStep(State([b], 2, 10), [3], [0], 0, 0) == State([b, c], 2, 10)
    ensures Hit(State([b, c], 2, 10), [2], 0).Some?
  {
    assert Keep([a], 0, Some([2])) == [a] && [a] + [b] == [a, b] && [a, b][1..] == [b] && [b][1..] == [];
    assert Size([]) == 0 && Size([b]) == 1 && Size([a, b]) == 3 && Fit([a, b], 2) == [b];
    var k: Bytes := [3];
    assert k[0] != b.key[0] && !Dropped(b, 0, Some(k)) && Keep([b], 0, Some(k)) == [b];
    assert Keep([b], 0, None) == [b] && [b] + [c] == [b, c];
    assert [b, c][1..] == [c] && Size([c]) == 1 && Size([b, c]) == 2;
    assert Keep([c], 0, None) == [c] && Keep([b, c], 0, None) == [b, c];
  }

  lemma LargeSide(a: Item, b: Item, c: Item)
    requires a == Item([1], [0, 0], 10) && b == Item([2], [0], 10) && c == Item([3], [0], 10)
    ensures PutStep(State([a], 3, 10), [2], [0], 0, 0) == State([a, b], 3, 10)
    ensures GetStep(State([a, b], 3, 10), [1], 0) == State([b, a], 3, 10)
    ensures PutStep(State([b, a], 3, 10), [3], [0], 0, 0) == State([a, c], 3, 10)
    ensures Hit(State([a, c], 3, 10), [2], 0).None?
  {
    assert Keep([a], 0, Some([2])) == [a] && [a] + [b] == [a, b] && [a, b][1..] == [b] && [b][1..] == [];
    assert Size([]) == 0 && Size([b]) == 1 && Size([a, b]) == 3;
    assert Keep([b], 0, None) == [b] && Keep([a, b], 0, None) == [a, b];
    assert b.key[0] == 2 && c.key[0] == 3;
    assert Keep([b], 0, Some([1])) == [b];
    assert Keep([a, b], 0, Some([1])) == Keep([b], 0, Some([1])) && [b] + [a] == [b, a];
    assert [b, a][1..] == [a] && a.key[0] == 1;
    var k: Bytes := [3];
    assert k[0] != a.key[0] && k[0] != b.key[0];
    assert k != b.key && b.expiry == 10;
    assert !Dropped(b, 0, Some(k));
    assert Keep([a], 0, Some(k)) == [a];
    assert Keep([b, a], 0, Some([3])) == [b] + [a] == [b, a];
    assert [b, a] + [c] == [b, a, c] && [b, a, c][1..] == [a, c] && [a, c][1..] == [c] && [c][1..] == [];
    assert Size([c]) == 1 && Size([a, c]) == 3 && Size([b, a, c]) == 4 && Fit([b, a, c], 3) == [a, c];
    assert Keep([c], 0, None) == [c] && Keep([a, c], 0, None) == [a, c];
  }

  /** Without fairness inclusion is lost for good: a Get that hits only in the larger cache makes
      a later Put evict there what the smaller cache still holds. */
  lemma UnfairGetBreaksInclusion()
    returns (small: State, large: State, ops: seq<Op>, key: Bytes, now: int)
    ensures small.items == [] && large.items == [] && small.maxBytes <= large.maxBytes && small.ttl == large.ttl
    ensures Hit(Run(small, ops), key, now).Some? && Hit(Run(large, ops), key, now).None?
  {
    small, large, key, now := State([], 2, 10), State([], 3, 10), [2], 0;
    var a, b, c := Item([1], [0, 0], 10), Item([2], [0], 10), Item([3], [0], 10);
    var op0, op1, op2, op3 := Put([1], [0, 0], 0, 0), Put([2], [0], 0, 0), Get([1], 0), Put([3], [0], 0, 0);
    ops := [op0] + [op1] + [op2] + [op3];
    RunFour(small, op0, op1, op2, op3);
    RunFour(large, op0, op1, op2, op3);
    FirstPut(a, 2);
    FirstPut(a, 3);
    SmallSide(a, b, c);
    LargeSide(a, b, c);
  }

  // ----- Misses from the outside: operations and their outcomes -----

  /** `hits` says of each Get whether it was a hit. */
  ghost predicate Observed(s: State, ops: seq<Op>, hits: seq<bool>)
  {
    |hits| == |ops| &&
    (ops == [] ||
     (Observed(s, ops[..|ops| - 1], hits[..|ops| - 1]) &&
      var op := ops[|ops| - 1];
      op.Get? ==> hits[|ops| - 1] == Hit(Run(s, ops[..|ops| - 1]), op.key, op.now).Some?))
  }

  /** The lifetime and the limit in force after the operations. */
  function TtlAfter(ttl: nat, ops: seq<Op>): nat
  {
    if ops == [] then ttl
    else if ops[|ops| - 1].SetLimits? then ops[|ops| - 1].ttl
    else TtlAfter(ttl, ops[..|ops| - 1])
  }

  function LimitAfter(maxBytes: nat, ops: seq<Op>): nat
  {
    if ops == [] then maxBytes
    else if ops[|ops| - 1].SetLimits? then ops[|ops| - 1].maxBytes
    else LimitAfter(maxBytes, ops[..|ops| - 1])
  }

  /** The recency order after a Get. */
  function AfterGet(before: seq<Item>, key: Bytes, now: int, hit: bool): seq<Item>
  {
    var found := Lookup(Keep(before, now, None), key);
    if hit && found.Some? then Keep(before, now, Some(key)) + [found.value] else Keep(before, now, None)
  }

  /** The recency order after an operation, as if there were no limit. */
  function Used(before: seq<Item>, op: Op, hit: bool, ttl: nat): seq<Item>
  {
    match op
    case Get(key, now) => AfterGet(before, key, now, hit)
    case Put(key, response, now, later) => Keep(before, now, Some(key)) + [Item(key, response, later + ttl)]
    case SetLimits(_, _) => before
  }

  /** All unexpired entries in order of their latest use, a Put or a hit, as if there were no limit:
      the operations and their outcomes alone determine it. */
  function Recency(ttl: nat, ops: seq<Op>, hits: seq<bool>): seq<Item>
    requires |hits| == |ops|
  {
    if ops == [] then []
    else
      var n := |ops| - 1;
      Used(Recency(ttl, ops[..n], hits[..n]), ops[n], hits[n], TtlAfter(ttl, ops[..n]))
  }

  /** At some Put or SetLimits from the latest Put for the key on, its entry and everything used more
      recently took more than the limit. */
  ghost predicate CrowdedOut(s: State, ops: seq<Op>, hits: seq<bool>, key: Bytes)
    requires |hits| == |ops|
  {
    if ops == [] then false
    else
      var n := |ops| - 1;
      (!ops[n].Get? && Crowded(Recency(s.ttl, ops, hits), key, LimitAfter(s.maxBytes, ops))) ||
      (!(ops[n].Put? && ops[n].key == key) && CrowdedOut(s, ops[..n], hits[..n], key))
  }

  lemma {:induction false} LimitsAfter(s: State, ops: seq<Op>)
    ensures Run(s, ops).ttl == TtlAfter(s.ttl, ops) && Run(s, ops).maxBytes == LimitAfter(s.maxBytes, ops)
  {
    if ops == [] {
    } else {
      LimitsAfter(s, ops[..|ops| - 1]);
    }
  }

  lemma SuffixTransitive(a: seq<Item>, b: seq<Item>, c: seq<Item>)
    requires Suffix(a, b) && Suffix(b, c)
    ensures Suffix(a, c)
  {
  }

  lemma FitIsSuffix(all: seq<Item>, maxBytes: nat)
    ensures Suffix(Fit(all, maxBytes), all)
  {
    FitIsLongestSuffix(all, maxBytes);
  }

  lemma {:induction false} RecencyDistinct(ttl: nat, ops: seq<Op>, hits: seq<bool>)
    requires |hits| == |ops|
    ensures DistinctKeys(Recency(ttl, ops, hits))
  {
    if ops == [] {
    } else {
      var n := |ops| - 1;
      var before := Recency(ttl, ops[..n], hits[..n]);
      RecencyDistinct(ttl, ops[..n], hits[..n]);
      match ops[n]
      case Get(key, now) =>
        KeepDistinct(before, now, None);
        var found := Lookup(Keep(before, now, None), key);
        if found.Some? {
          RefreshedDistinct(before, now, found.value);
        }
      case Put(key, response, now, later) =>
        RefreshedDistinct(before, now, Item(key, response, later + TtlAfter(ttl, ops[..n])));
      case SetLimits(_, _) =>
    }
  }

  /** A Get in a cache that holds a suffix of the recency order. */
  lemma GetRecency(c: State, before: seq<Item>, key: Bytes, now: int)
    requires Suffix(c.items, before) && DistinctKeys(before)
    ensures var found := Lookup(Keep(before, now, None), key);
            if Hit(c, key, now).Some? then
              found.Some? && Suffix(GetStep(c, key, now).items, Keep(before, now, Some(key)) + [found.value])
            else Suffix(GetStep(c, key, now).items, Keep(before, now, None))
  {
    var a, b := Keep(c.items, now, None), Keep(before, now, None);
    KeepSuffix(c.items, before, now, None);
    KeepDistinct(before, now, None);
    if Lookup(a, key).Some? {
      LookupSuffix(a, b, key);
      KeepSuffix(c.items, before, now, Some(key));
      SuffixAppend(Keep(c.items, now, Some(key)), Keep(before, now, Some(key)), Lookup(a, key).value);
    }
  }

  /** What a Put or SetLimits cuts down is a suffix of the recency order after it. */
  lemma BeforeFitSuffix(c: State, before: seq<Item>, op: Op, hit: bool, after: seq<Item>)
    requires Suffix(c.items, before) && !op.Get? && after == Used(before, op, hit, c.ttl)
    ensures Suffix(BeforeFit(c, op), after)
    ensures Step(c, op).items == Fit(BeforeFit(c, op), Step(c, op).maxBytes)
  {
    if op.Put? {
      KeepSuffix(c.items, before, op.now, Some(op.key));
      SuffixAppend(Keep(c.items, op.now, Some(op.key)), Keep(before, op.now, Some(op.key)),
                   Item(op.key, op.response, op.later + c.ttl));
    }
  }

  /** The cache holds a suffix of the recency order. */
  lemma {:induction false} HoldsRecent(s: State, ops: seq<Op>, hits: seq<bool>)
    requires s.items == [] && Observed(s, ops, hits)
    ensures Suffix(Run(s, ops).items, Recency(s.ttl, ops, hits))
  {
    if ops == [] {
    } else {
      var n := |ops| - 1;
      var c, before := Run(s, ops[..n]), Recency(s.ttl, ops[..n], hits[..n]);
      HoldsRecent(s, ops[..n], hits[..n]);
      LimitsAfter(s, ops[..n]);
      RecencyDistinct(s.ttl, ops[..n], hits[..n]);
      if ops[n].Get? {
        GetRecency(c, before, ops[n].key, ops[n].now);
      } else {
        BeforeFitSuffix(c, before, ops[n], hits[n], Recency(s.ttl, ops, hits));
        FitIsSuffix(BeforeFit(c, ops[n]), Step(c, ops[n]).maxBytes);
        SuffixTransitive(Step(c, ops[n]).items, BeforeFit(c, ops[n]), Recency(s.ttl, ops, hits));
      }
    }
  }

  lemma CrowdedAt(all: seq<Item>, i: nat, maxBytes: nat)
    requires DistinctKeys(all) && i < |all|
    ensures Crowded(all, all[i].key, maxBytes) <==> Size(all[i..]) > maxBytes
  {
  }

  lemma SuffixDistinct(a: seq<Item>, b: seq<Item>)
    requires Suffix(a, b) && DistinctKeys(b)
    ensures DistinctKeys(a)
  {
    assert forall i :: 0 <= i < |a| ==> a[i] == b[|b| - |a| + i];
  }

  /** A key in the suffix is crowded there exactly if it is in the whole. */
  lemma CrowdedSuffix(a: seq<Item>, b: seq<Item>, key: Bytes, maxBytes: nat)
    requires Suffix(a, b) && DistinctKeys(b) && exists i :: 0 <= i < |a| && a[i].key == key
    ensures Crowded(a, key, maxBytes) <==> Crowded(b, key, maxBytes)
  {
    var i :| 0 <= i < |a| && a[i].key == key;
    var j := |b| - |a| + i;
    SuffixDistinct(a, b);
    assert b[j] == a[i] && b[j..] == a[i..];
    CrowdedAt(a, i, maxBytes);
    CrowdedAt(b, j, maxBytes);
  }

  /** One operation crowds the entry out of the cache exactly if it does out of the recency order. */
  lemma EvictedStep(s: State, ops: seq<Op>, hits: seq<bool>, now: int, x: Item)
    requires s.items == [] && ops != [] && Observed(s, ops, hits) && now < x.expiry
    requires NotLater(ops[|ops| - 1], now) && !ops[|ops| - 1].Get?
    requires x in BeforeFit(Run(s, ops[..|ops| - 1]), ops[|ops| - 1])
    ensures EvictedBy(Run(s, ops[..|ops| - 1]), ops[|ops| - 1], x.key) <==>
            Crowded(Recency(s.ttl, ops, hits), x.key, LimitAfter(s.maxBytes, ops))
  {
    var n := |ops| - 1;
    var c, before := Run(s, ops[..n]), Recency(s.ttl, ops[..n], hits[..n]);
    HoldsRecent(s, ops[..n], hits[..n]);
    LimitsAfter(s, ops[..n]);
    LimitsAfter(s, ops);
    RecencyDistinct(s.ttl, ops, hits);
    BeforeFitSuffix(c, before, ops[n], hits[n], Recency(s.ttl, ops, hits));
    CrowdedSuffix(BeforeFit(c, ops[n]), Recency(s.ttl, ops, hits), x.key, Step(c, ops[n]).maxBytes);
  }

  /** An unexpired item that is in the cache, or is just put, is among what the operation cuts down. */
  lemma InBeforeFit(c: State, op: Op, now: int, x: Item)
    requires !op.Get? && NotLater(op, now) && now < x.expiry
    requires (op.Put? && x == Item(op.key, op.response, op.later + c.ttl)) ||
             (x in c.items && !(op.Put? && op.key == x.key))
    ensures x in BeforeFit(c, op)
  {
    if op.Put? {
      KeepMembers(c.items, op.now, Some(op.key), x);
      var all := BeforeFit(c, op);
      assert all[|all| - 1] == Item(op.key, op.response, op.later + c.ttl);
    }
  }

  lemma {:induction false} EvictedIffCrowdedOut(s: State, ops: seq<Op>, hits: seq<bool>, now: int, x: Item)
    requires s.items == [] && Observed(s, ops, hits) && now < x.expiry && LatestPut(s, ops, x.key) == Some(x)
    requires forall i :: 0 <= i < |ops| ==> NotLater(ops[i], now)
    ensures EvictedSince(s, ops, x.key) <==> CrowdedOut(s, ops, hits, x.key)
  {
    if ops == [] {
    } else {
      var n := |ops| - 1;
      var before, op := ops[..n], ops[n];
      assert NotLater(ops[n], now);
      if op.Put? && op.key == x.key {
        InBeforeFit(Run(s, before), op, now, x);
        EvictedStep(s, ops, hits, now, x);
      } else {
        EvictedIffCrowdedOut(s, before, hits[..n], now, x);
        PresentIff(s, before, now, x);
        if !op.Get? && !EvictedSince(s, before, x.key) {
          InBeforeFit(Run(s, before), op, now, x);
          EvictedStep(s, ops, hits, now, x);
        }
      }
    }
  }

  /** The same as HitIff, told from the outside: with a clock that does not run backwards, a lookup
      hits exactly if the key was put, the latest put has not expired, and since then its entry and
      the entries of all keys used after it, by a Put or a hit, never took more than the limit. */
  lemma HitIffRecent(s: State, ops: seq<Op>, hits: seq<bool>, key: Bytes, now: int)
    requires s.items == [] && Observed(s, ops, hits) && forall i :: 0 <= i < |ops| ==> NotLater(ops[i], now)
    ensures Hit(Run(s, ops), key, now).Some? <==>
            var put := LatestPut(s, ops, key);
            put.Some? && now < put.value.expiry && !CrowdedOut(s, ops, hits, key)
  {
    HitIff(s, ops, key, now);
    LatestPutKey(s, ops, key);
    var put := LatestPut(s, ops, key);
    if put.Some? && now < put.value.expiry {
      EvictedIffCrowdedOut(s, ops, hits, now, put.value);
    }
  }
}
