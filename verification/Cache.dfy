/** The response cache: a byte-bounded, time-limited map with a recency list. Entries hold an
    iterator into the list; list cells are objects, so that an iterator is their identity. */
module Cache {
  import opened Bytes

  // ----- Specification -----

  /** A cached response as seen from outside, in recency order: least recently used first. */
  datatype Item = Item(key: Bytes, response: Bytes, expiry: int)

  datatype State = State(items: seq<Item>, maxBytes: nat, ttl: nat)

  function Size(items: seq<Item>): nat
  {
    if items == [] then 0 else |items[0].response| + Size(items[1..])
  }

  predicate Dropped(x: Item, now: int, key: Option<Bytes>)
  {
    x.expiry <= now || (key.Some? && key.value == x.key)
  }

  /** The items that have not expired at `now`, without the one for `key` if there is one. */
  function Keep(items: seq<Item>, now: int, key: Option<Bytes>): seq<Item>
  {
    if items == [] then []
    else if Dropped(items[0], now, key) then Keep(items[1..], now, key)
    else [items[0]] + Keep(items[1..], now, key)
  }

  /** Items dropped from the front until the rest fits. */
  function Fit(items: seq<Item>, maxBytes: nat): seq<Item>
  {
    if items == [] || Size(items) <= maxBytes then items else Fit(items[1..], maxBytes)
  }

  /** The item for a key, if any. */
  function Lookup(items: seq<Item>, key: Bytes): (r: Option<Item>)
    ensures r.Some? ==> r.value in items && r.value.key == key
    ensures r.None? ==> forall x :: x in items ==> x.key != key
  {
    if items == [] then None else if items[0].key == key then Some(items[0]) else Lookup(items[1..], key)
  }

  function GetStep(s: State, key: Bytes, now: int): State
  {
    var live := Keep(s.items, now, None);
    match Lookup(live, key)
    case None => s.(items := live)
    case Some(x) => s.(items := Keep(s.items, now, Some(key)) + [x])
  }

  function Hit(s: State, key: Bytes, now: int): Option<Bytes>
  {
    match Lookup(Keep(s.items, now, None), key)
    case None => None
    case Some(x) => Some(x.response)
  }

  /** `now` and `later` are the two readings of the clock that Put makes. */
  function PutStep(s: State, key: Bytes, response: Bytes, now: int, later: int): State
  {
    s.(items := Fit(Keep(s.items, now, Some(key)) + [Item(key, response, later + s.ttl)], s.maxBytes))
  }

  function LimitStep(s: State, maxBytes: nat, ttl: nat): State
  {
    State(Fit(s.items, maxBytes), maxBytes, ttl)
  }

  ghost predicate DistinctKeys(items: seq<Item>)
  {
    forall i, j :: 0 <= i < j < |items| ==> items[i].key != items[j].key
  }

  // ----- Representation -----

  /** A cell of the recency list. */
  class Node {
    const key: Bytes

    constructor (key: Bytes)
      ensures this.key == key
    {
      this.key := key;
    }
  }

  datatype Entry = Entry(response: Bytes, expiry: int, size: nat, lruIt: Node)

  /** std::list::erase of the cell `it`. */
  function Erase(lru: seq<Node>, it: Node): seq<Node>
  {
    if lru == [] then [] else if lru[0] == it then lru[1..] else [lru[0]] + Erase(lru[1..], it)
  }

  ghost predicate KeysDistinct(lru: seq<Node>)
  {
    forall i, j :: 0 <= i < j < |lru| ==> lru[i].key != lru[j].key
  }

  ghost predicate CellsStored(lru: seq<Node>, entries: map<Bytes, Entry>)
  {
    forall i :: 0 <= i < |lru| ==> lru[i].key in entries && entries[lru[i].key].lruIt == lru[i]
  }

  ghost predicate EntriesListed(lru: seq<Node>, entries: map<Bytes, Entry>)
  {
    forall k :: k in entries ==> entries[k].lruIt in lru && entries[k].lruIt.key == k
  }

  ghost predicate SizesRight(entries: map<Bytes, Entry>)
  {
    forall k :: k in entries ==> entries[k].size == |entries[k].response|
  }

  /** List and map agree: no key twice in the list, the same keys in both, every stored iterator
      designates its own key's cell, and every size is that of its response. */
  ghost predicate Linked(lru: seq<Node>, entries: map<Bytes, Entry>)
  {
    KeysDistinct(lru) && CellsStored(lru, entries) && EntriesListed(lru, entries) && SizesRight(entries)
  }

  ghost function ItemOf(n: Node, entries: map<Bytes, Entry>): Item
    requires n.key in entries
  {
    Item(n.key, entries[n.key].response, entries[n.key].expiry)
  }

  ghost function ItemsOf(lru: seq<Node>, entries: map<Bytes, Entry>): seq<Item>
    requires Linked(lru, entries)
  {
    seq(|lru|, i requires 0 <= i < |lru| => ItemOf(lru[i], entries))
  }

  /** Position in the longer list of what stands at `j` once position `i` is gone. */
  function Skip(i: nat, j: nat): nat
  {
    if j < i then j else j + 1
  }

  lemma {:induction false} EraseAt(lru: seq<Node>, i: nat)
    requires i < |lru| && forall j :: 0 <= j < i ==> lru[j] != lru[i]
    ensures |Erase(lru, lru[i])| == |lru| - 1
    ensures forall j :: 0 <= j < |lru| - 1 ==> Erase(lru, lru[i])[j] == lru[Skip(i, j)]
  {
    if i == 0 {
    } else {
      EraseAt(lru[1..], i - 1);
      var rest := Erase(lru[1..], lru[i]);
      assert Erase(lru, lru[i]) == [lru[0]] + rest;
      assert forall j :: 1 <= j < |lru| - 1 ==> ([lru[0]] + rest)[j] == rest[j - 1];
    }
  }

  lemma {:induction false} SizeAppend(a: seq<Item>, b: seq<Item>)
    ensures Size(a + b) == Size(a) + Size(b)
  {
    if a == [] {
      assert a + b == b;
    } else {
      assert (a + b)[1..] == a[1..] + b;
      SizeAppend(a[1..], b);
    }
  }

  lemma SizeWithout(items: seq<Item>, i: nat)
    requires i < |items|
    ensures Size(items) == Size(items[..i] + items[i + 1..]) + |items[i].response|
  {
    SizeAppend(items[..i], items[i..]);
    SizeAppend(items[..i], items[i + 1..]);
    assert items == items[..i] + items[i..];
    assert items[i..][1..] == items[i + 1..];
  }

  lemma EraseKeepsListed(lru: seq<Node>, entries: map<Bytes, Entry>, i: nat)
    requires EntriesListed(lru, entries) && i < |lru| && forall j :: 0 <= j < i ==> lru[j] != lru[i]
    ensures EntriesListed(Erase(lru, lru[i]), entries - {lru[i].key})
  {
    EraseAt(lru, i);
    var lru', entries' := Erase(lru, lru[i]), entries - {lru[i].key};
    forall k | k in entries'
      ensures entries'[k].lruIt in lru'
    {
      var j :| 0 <= j < |lru| && lru[j] == entries[k].lruIt;
      assert j != i;
      var j' := if j < i then j else j - 1;
      assert Skip(i, j') == j && lru'[j'] == lru[j];
    }
  }

  /** Erasing a cell and its entry keeps list and map in agreement. */
  lemma EraseKeepsLinks(lru: seq<Node>, entries: map<Bytes, Entry>, i: nat)
    requires Linked(lru, entries) && i < |lru|
    ensures Linked(Erase(lru, lru[i]), entries - {lru[i].key})
  {
    EraseAt(lru, i);
    EraseKeepsListed(lru, entries, i);
  }

  lemma Splice(s: seq<Item>, i: nat, t: seq<Item>)
    requires i < |s| && |t| == |s| - 1 && forall j :: 0 <= j < |t| ==> t[j] == s[Skip(i, j)]
    ensures t == s[..i] + s[i + 1..]
  {
  }

  /** Erasing a cell and its entry removes just that item. */
  lemma EraseItems(lru: seq<Node>, entries: map<Bytes, Entry>, i: nat)
    requires Linked(lru, entries) && i < |lru| && Linked(Erase(lru, lru[i]), entries - {lru[i].key})
    ensures var items := ItemsOf(lru, entries);
            ItemsOf(Erase(lru, lru[i]), entries - {lru[i].key}) == items[..i] + items[i + 1..]
  {
    EraseAt(lru, i);
    var items, items' := ItemsOf(lru, entries), ItemsOf(Erase(lru, lru[i]), entries - {lru[i].key});
    forall j | 0 <= j < |items'|
      ensures items'[j] == items[Skip(i, j)]
    {
      assert Erase(lru, lru[i])[j] == lru[Skip(i, j)];
    }
    Splice(items, i, items');
  }

  lemma EraseLinked(lru: seq<Node>, entries: map<Bytes, Entry>, i: nat)
    requires Linked(lru, entries) && i < |lru|
    ensures var lru', entries' := Erase(lru, lru[i]), entries - {lru[i].key};
            var items := ItemsOf(lru, entries);
            && Linked(lru', entries') && ItemsOf(lru', entries') == items[..i] + items[i + 1..]
            && Size(items) == Size(ItemsOf(lru', entries')) + entries[lru[i].key].size
  {
    EraseKeepsLinks(lru, entries, i);
    EraseItems(lru, entries, i);
    SizeWithout(ItemsOf(lru, entries), i);
  }

  /** Appending a cell for a new key appends its item. */
  lemma AppendLinked(lru: seq<Node>, entries: map<Bytes, Entry>, n: Node, e: Entry)
    requires Linked(lru, entries) && n.key !in entries && e.lruIt == n && e.size == |e.response|
    ensures var lru', entries' := lru + [n], entries[n.key := e];
            var items := ItemsOf(lru, entries);
            && Linked(lru', entries') && ItemsOf(lru', entries') == items + [Item(n.key, e.response, e.expiry)]
            && Size(ItemsOf(lru', entries')) == Size(items) + e.size
  {
    var lru', entries' := lru + [n], entries[n.key := e];
    assert lru'[|lru|] == n;
    forall k | k in entries'
      ensures entries'[k].lruIt in lru' && entries'[k].lruIt.key == k
    {
    }
    SizeAppend(ItemsOf(lru, entries), [Item(n.key, e.response, e.expiry)]);
  }

  /** A key is in the map exactly when it has an item, at the place of its cell. */
  lemma FindLinked(lru: seq<Node>, entries: map<Bytes, Entry>, key: Bytes) returns (i: nat)
    requires Linked(lru, entries)
    ensures i <= |lru| && (key in entries <==> i < |lru|)
    ensures key in entries ==> lru[i].key == key && entries[key].lruIt == lru[i]
    ensures key !in entries ==> forall j :: 0 <= j < |lru| ==> lru[j].key != key
  {
    i := |lru|;
    if key in entries {
      var j :| 0 <= j < |lru| && lru[j] == entries[key].lruIt;
      i := j;
    }
  }

  // ----- Facts about the specification the methods need -----

  lemma {:induction false} KeepAgain(items: seq<Item>, now: int, key: Bytes)
    ensures Keep(Keep(items, now, None), now, Some(key)) == Keep(items, now, Some(key))
  {
    if items == [] {
    } else {
      KeepAgain(items[1..], now, key);
      var rest := Keep(items[1..], now, None);
      assert ([items[0]] + rest)[1..] == rest;
    }
  }

  /** Among unexpired items, removing a key that is absent removes nothing. */
  lemma {:induction false} KeepAbsent(items: seq<Item>, now: int, key: Bytes)
    requires forall i :: 0 <= i < |items| ==> items[i].expiry > now && items[i].key != key
    ensures Keep(items, now, Some(key)) == items
  {
    if items == [] {
    } else {
      KeepAbsent(items[1..], now, key);
    }
  }

  /** Among unexpired items with distinct keys, removing a key removes its one item. */
  lemma {:induction false} KeepPresent(items: seq<Item>, now: int, i: nat)
    requires i < |items| && DistinctKeys(items) && forall j :: 0 <= j < |items| ==> items[j].expiry > now
    ensures Keep(items, now, Some(items[i].key)) == items[..i] + items[i + 1..]
  {
    if i == 0 {
      KeepAbsent(items[1..], now, items[0].key);
    } else {
      KeepPresent(items[1..], now, i - 1);
      assert items[..i] + items[i + 1..] == [items[0]] + (items[1..][..i - 1] + items[1..][i..]);
    }
  }

  lemma {:induction false} KeptUnexpired(items: seq<Item>, now: int, key: Option<Bytes>)
    ensures forall i :: 0 <= i < |Keep(items, now, key)| ==> !Dropped(Keep(items, now, key)[i], now, key)
  {
    if items == [] {
    } else {
      var live, rest := Keep(items, now, key), Keep(items[1..], now, key);
      KeptUnexpired(items[1..], now, key);
      forall i | 0 <= i < |live|
        ensures !Dropped(live[i], now, key)
      {
        if !Dropped(items[0], now, key) {
          assert live[i] == if i == 0 then items[0] else rest[i - 1];
        }
      }
    }
  }

  lemma {:induction false} LookupAt(items: seq<Item>, i: nat)
    requires i < |items| && DistinctKeys(items)
    ensures Lookup(items, items[i].key) == Some(items[i])
  {
    if i == 0 {
    } else {
      LookupAt(items[1..], i - 1);
    }
  }

  lemma Associate3(a: seq<Item>, x: Item, b: seq<Item>)
    ensures a + ([x] + b) == a + [x] + b
  {
  }

  /** EvictExpired's loop: what is kept of the items from `i` on. */
  lemma KeepFrom(items: seq<Item>, i: nat, now: int)
    requires i < |items|
    ensures items[..i] + Keep(items[i..], now, None) ==
            if items[i].expiry <= now then items[..i] + Keep(items[i + 1..], now, None)
            else items[..i + 1] + Keep(items[i + 1..], now, None)
  {
    assert items[i..][1..] == items[i + 1..];
    if items[i].expiry > now {
      Associate3(items[..i], items[i], Keep(items[i + 1..], now, None));
      assert items[..i + 1] == items[..i] + [items[i]];
    }
  }

  // ----- The cache -----

  /** What Put removes: the item of the key, at `i` if it is there, from the live ones. */
  lemma KeepKey(items: seq<Item>, now: int, key: Bytes, i: nat, live: seq<Item>)
    requires live == Keep(items, now, None) && DistinctKeys(live) && i <= |live|
    requires i < |live| ==> live[i].key == key
    requires i == |live| ==> forall j :: 0 <= j < |live| ==> live[j].key != key
    ensures Keep(items, now, Some(key)) == if i < |live| then live[..i] + live[i + 1..] else live
  {
    KeepAgain(items, now, key);
    KeptUnexpired(items, now, None);
    if i < |live| {
      KeepPresent(live, now, i);
    } else {
      KeepAbsent(live, now, key);
    }
  }

  /** What Get finds and does: nothing without the key among the live items, else its item, at
      `i`, goes to the back. */
  lemma ReplacedItems(items: seq<Item>, now: int, key: Bytes, i: nat, live: seq<Item>)
    requires live == Keep(items, now, None) && DistinctKeys(live) && i <= |live|
    requires i < |live| ==> live[i].key == key
    requires i == |live| ==> forall j :: 0 <= j < |live| ==> live[j].key != key
    ensures Lookup(live, key) == if i < |live| then Some(live[i]) else None
    ensures i < |live| ==> Keep(items, now, Some(key)) == live[..i] + live[i + 1..]
  {
    if i < |live| {
      LookupAt(live, i);
    }
    KeepKey(items, now, key, i, live);
  }

  class DnsCache {
    var maxBytes: nat
    var ttlSec: nat
    var currentBytes: nat
    var lru: seq<Node>
    var entries: map<Bytes, Entry>

    /** The representation is sound; between public calls it also fits the limit. */
    ghost predicate Sound()
      reads this
    {
      Linked(lru, entries) && currentBytes == Size(ItemsOf(lru, entries))
    }

    ghost predicate Valid()
      reads this
    {
      Sound() && currentBytes <= maxBytes
    }

    ghost function Items(): seq<Item>
      reads this
      requires Sound()
    {
      ItemsOf(lru, entries)
    }

    ghost function View(): State
      reads this
      requires Sound()
    {
      State(Items(), maxBytes, ttlSec)
    }

    constructor (maxBytes: nat, ttlSec: nat)
      ensures Valid() && View() == State([], maxBytes, ttlSec)
    {
      this.maxBytes, this.ttlSec, currentBytes := maxBytes, ttlSec, 0;
      lru, entries := [], map[];
    }

    method SetLimits(maxBytes: nat, ttlSec: nat)
      requires Valid()
      modifies this
      ensures Valid() && View() == LimitStep(old(View()), maxBytes, ttlSec)
    {
      this.maxBytes, this.ttlSec := maxBytes, ttlSec;
      EvictIfNeeded();
    }

    method Get(key: Bytes, now: int) returns (hit: bool, response: Bytes)
      requires Valid()
      modifies this
      ensures Valid() && View() == GetStep(old(View()), key, now)
      ensures hit == Hit(old(View()), key, now).Some?
      ensures hit ==> response == Hit(old(View()), key, now).value
    {
      hit, response := false, [];
      EvictExpired(now);
      ghost var i := Locate(key);
      ReplacedItems(old(Items()), now, key, i, Items());
      if key !in entries {
        return;
      }
      Touch(key, i);
      hit, response := true, entries[key].response;
    }

    /** Where the item of a key is, past the end when there is none. */
    lemma Locate(key: Bytes) returns (i: nat)
      requires Sound()
      ensures i <= |Items()| && (key in entries <==> i < |Items()|) && DistinctKeys(Items())
      ensures i < |Items()| ==> Items()[i].key == key
      ensures i == |Items()| ==> forall j :: 0 <= j < |Items()| ==> Items()[j].key != key
    {
      i := FindLinked(lru, entries, key);
    }

    /** Moves the cell of `key` to the back of the list. */
    method Touch(key: Bytes, ghost i: nat)
      requires Sound() && key in entries && i < |Items()| && Items()[i].key == key
      modifies this`lru, this`entries
      ensures Sound() && key in entries && entries[key].response == old(Items())[i].response
      ensures Items() == old(Items())[..i] + old(Items())[i + 1..] + [old(Items())[i]]
      ensures Size(Items()) == Size(old(Items()))
    {
      var e := entries[key];
      EraseLinked(lru, entries, i);
      lru := Erase(lru, e.lruIt);
      var node := new Node(key);
      var moved := e.(lruIt := node);
      AppendLinked(lru, entries - {key}, node, moved);
      assert (entries - {key})[key := moved] == entries[key := moved];
      lru := lru + [node];
      entries := entries[key := moved];
    }

    method Put(key: Bytes, response: Bytes, now: int, later: int)
      requires Valid()
      modifies this
      ensures Valid() && View() == PutStep(old(View()), key, response, now, later)
    {
      DropStale(key, now);
      Append(key, response, later + ttlSec);
      EvictIfNeeded();
    }

    /** Put's first half: the expired entries and the one for `key` go. */
    method DropStale(key: Bytes, now: int)
      requires Sound()
      modifies this`lru, this`entries, this`currentBytes
      ensures Sound() && key !in entries && Items() == Keep(old(Items()), now, Some(key))
    {
      EvictExpired(now);
      ghost var i := Locate(key);
      KeepKey(old(Items()), now, key, i, Items());
      if key in entries {
        Remove(key, i);
      }
    }

    /** Takes an entry and its cell out. */
    method Remove(key: Bytes, ghost i: nat)
      requires Sound() && key in entries && i < |Items()| && Items()[i].key == key
      modifies this`lru, this`entries, this`currentBytes
      ensures Sound() && key !in entries && |lru| == old(|lru|) - 1
      ensures Items() == old(Items())[..i] + old(Items())[i + 1..] && currentBytes <= old(currentBytes)
    {
      EraseLinked(lru, entries, i);
      currentBytes := currentBytes - entries[key].size;
      lru := Erase(lru, entries[key].lruIt);
      entries := entries - {key};
    }

    /** Puts a new entry and its cell at the back. */
    method Append(key: Bytes, response: Bytes, expiry: int)
      requires Sound() && key !in entries
      modifies this`lru, this`entries, this`currentBytes
      ensures Sound() && Items() == old(Items()) + [Item(key, response, expiry)]
    {
      var node := new Node(key);
      var e := Entry(response, expiry, |response|, node);
      AppendLinked(lru, entries, node, e);
      lru := lru + [node];
      entries := entries[key := e];
      currentBytes := currentBytes + e.size;
    }

    method EvictExpired(now: int)
      requires Sound()
      modifies this`lru, this`entries, this`currentBytes
      ensures Sound() && Items() == Keep(old(Items()), now, None) && currentBytes <= old(currentBytes)
    {
      ghost var all := Keep(Items(), now, None);
      var i := 0;
      assert Items()[..0] == [] && Items()[0..] == Items();
      while i < |lru|
        invariant Sound() && 0 <= i <= |lru| && currentBytes <= old(currentBytes)
        invariant all == Items()[..i] + Keep(Items()[i..], now, None)
        decreases |lru| - i
      {
        i := Visit(i, now);
      }
    }

    /** EvictExpired's loop body: the cell at `i` goes if it has expired, else the loop moves on. */
    method Visit(i: nat, now: int) returns (next: nat)
      requires Sound() && i < |Items()|
      modifies this`lru, this`entries, this`currentBytes
      ensures Sound() && next <= |lru| && |lru| - next == old(|lru|) - i - 1 && currentBytes <= old(currentBytes)
      ensures Items()[..next] + Keep(Items()[next..], now, None) ==
              old(Items())[..i] + Keep(old(Items())[i..], now, None)
    {
      next := i;
      var key := lru[i].key;
      if key !in entries {
        assert false;  // no cell is ever orphaned
      }
      KeepFrom(Items(), i, now);
      if entries[key].expiry <= now {
        ghost var items := Items();
        Remove(key, i);
        assert Items()[..i] == items[..i] && Items()[i..] == items[i + 1..];
      } else {
        next := i + 1;
      }
    }

    method EvictIfNeeded()
      requires Sound()
      modifies this`lru, this`entries, this`currentBytes
      ensures Valid() && Items() == Fit(old(Items()), maxBytes)
    {
      while currentBytes > maxBytes && lru != []
        invariant Sound() && Fit(Items(), maxBytes) == Fit(old(Items()), maxBytes)
        decreases |lru|
      {
        var key := lru[0].key;
        if key !in entries {
          assert false;  // no cell is ever orphaned
        }
        ghost var items := Items();
        Remove(key, 0);
        assert Items() == items[1..];
      }
    }
  }
}
