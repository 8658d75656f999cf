/**
 One shard of the message cache (server.go): a map of entries, a list ordered by recency of use,
 and a map from keys to list elements, which have to stay in step.

 The operations are functions on shard values; the class updates its fields in place and is
 proved to compute those functions.
 */
module LruShard {
  import opened Collections
  import opened CacheKeys
  import Records

  datatype Message = Message(id: nat, response: bool, rcode: int, question: seq<Query>,
                             answer: seq<Records.RR>, ns: seq<Records.RR>, extra: seq<Records.RR>)

  datatype Entry = Entry(msg: Message, expires: int, key: string, isNegative: bool)

  /** A list element; `id` stands for its identity, which removal goes by. */
  datatype Element = Element(id: nat, entry: Entry)

  datatype Shard = Shard(items: map<string, Entry>, lru: seq<Element>, lruMap: map<string, Element>, nextId: nat)

  const EMPTY := Shard(map[], [], map[], 0)

  predicate DistinctIds(a: Element, b: Element) {
    a.id != b.id
  }

  /** The element is the one its key leads to, and that key's stored entry. */
  ghost predicate Indexed(s: Shard, e: Element) {
    && e.entry.key in s.lruMap && s.lruMap[e.entry.key] == e && e.id < s.nextId
    && e.entry.key in s.items && s.items[e.entry.key] == e.entry
  }

  /** The three structures hold the same entries under the same keys, each in one list element. */
  ghost predicate Coherent(s: Shard) {
    && s.items.Keys == s.lruMap.Keys && |s.lru| == |s.items.Keys|
    && (forall i :: 0 <= i < |s.lru| ==> Indexed(s, s.lru[i]))
    && Pairwise(s.lru, DistinctIds)
  }

  function ListKeys(lru: seq<Element>): (ks: set<string>) {
    set i | 0 <= i < |lru| :: lru[i].entry.key
  }

  lemma KeysDiffer(s: Shard, i: nat, j: nat)
    requires Coherent(s) && i < j < |s.lru|
    ensures s.lru[i].entry.key != s.lru[j].entry.key
  {
    assert Indexed(s, s.lru[i]) && Indexed(s, s.lru[j]) && DistinctIds(s.lru[i], s.lru[j]);
  }

  lemma {:induction false} DistinctKeysCount(lru: seq<Element>)
    requires Pairwise(lru, (a: Element, b: Element) => a.entry.key != b.entry.key)
    ensures |ListKeys(lru)| == |lru|
  {
    if lru != [] {
      var n := |lru| - 1;
      var front, k := lru[..n], lru[n].entry.key;
      DistinctKeysCount(front);
      assert ListKeys(lru) == ListKeys(front) + {k};
      assert forall i :: 0 <= i < n ==> front[i] == lru[i] && lru[i].entry.key != k;
    }
  }

  /** By counting: every stored key has its element in the list. */
  lemma StoredIsListed(s: Shard, k: string) returns (i: nat)
    requires Coherent(s) && k in s.items
    ensures i < |s.lru| && s.lru[i] == s.lruMap[k] && s.lru[i].entry == s.items[k] && s.items[k].key == k
  {
    forall i, j | 0 <= i < j < |s.lru|
      ensures s.lru[i].entry.key != s.lru[j].entry.key
    {
      KeysDiffer(s, i, j);
    }
    DistinctKeysCount(s.lru);
    var ks := ListKeys(s.lru);
    assert ks <= s.items.Keys by {
      forall x | x in ks
        ensures x in s.items.Keys
      {
        var j :| 0 <= j < |s.lru| && s.lru[j].entry.key == x;
        assert Indexed(s, s.lru[j]);
      }
    }
    SubsetOfSameSize(ks, s.items.Keys);
    i :| 0 <= i < |s.lru| && s.lru[i].entry.key == k;
    assert Indexed(s, s.lru[i]);
  }

  // ---------------------------------------------------------------- removing an element

  function IndexOf(lru: seq<Element>, id: nat): (i: nat)
    ensures i <= |lru|
    ensures forall j :: 0 <= j < i ==> lru[j].id != id
    ensures i < |lru| ==> lru[i].id == id
  {
    if lru == [] || lru[0].id == id then 0 else 1 + IndexOf(lru[1..], id)
  }

  /** The list without the element of this identity. */
  function Without(lru: seq<Element>, id: nat): seq<Element> {
    var i := IndexOf(lru, id);
    if i < |lru| then lru[..i] + lru[i + 1..] else lru
  }

  function Drop(s: Shard, e: Element): Shard {
    Shard(s.items - {e.entry.key}, Without(s.lru, e.id), s.lruMap - {e.entry.key}, s.nextId)
  }

  /** Dropping the element at place `i` takes exactly that place out of the list. */
  lemma DropAt(s: Shard, i: nat)
    requires Coherent(s) && i < |s.lru|
    ensures var t := Drop(s, s.lru[i]);
      && t.lru == s.lru[..i] + s.lru[i + 1..]
      && Coherent(t) && |t.items.Keys| == |s.items.Keys| - 1
  {
    var e := s.lru[i];
    var m := IndexOf(s.lru, e.id);
    assert m == i by {
      assert m < i ==> DistinctIds(s.lru[m], s.lru[i]);
    }
    var t := Drop(s, e);
    assert Indexed(s, e);
    assert t.items.Keys == s.items.Keys - {e.entry.key} && t.lruMap.Keys == s.lruMap.Keys - {e.entry.key};
    forall j | 0 <= j < |t.lru|
      ensures Indexed(t, t.lru[j])
    {
      var k := if j < i then j else j + 1;
      assert t.lru[j] == s.lru[k] && Indexed(s, s.lru[k]);
      assert if k < i then DistinctIds(s.lru[k], s.lru[i]) else DistinctIds(s.lru[i], s.lru[k]);
    }
    PairwiseRemove(s.lru, i, DistinctIds);
  }

  lemma PairwiseRemove(lru: seq<Element>, i: nat, rel: (Element, Element) -> bool)
    requires i < |lru| && Pairwise(lru, rel)
    ensures Pairwise(lru[..i] + lru[i + 1..], rel)
  {
    var r := lru[..i] + lru[i + 1..];
    forall j, k | 0 <= j < k < |r|
      ensures rel(r[j], r[k])
    {
      assert r[j] == lru[if j < i then j else j + 1] && r[k] == lru[if k < i then k else k + 1];
    }
  }

  lemma DropListed(s: Shard, k: string)
    requires Coherent(s) && k in s.items
    ensures k in s.lruMap && s.lruMap[k].entry == s.items[k] && s.items[k].key == k
    ensures Coherent(Drop(s, s.lruMap[k])) && |Drop(s, s.lruMap[k]).items.Keys| == |s.items.Keys| - 1
  {
    var i := StoredIsListed(s, k);
    DropAt(s, i);
  }

  lemma OwnKey(s: Shard, k: string)
    requires Coherent(s)
    ensures k in s.lruMap ==> s.lruMap[k].entry.key == k
  {
    if k in s.lruMap {
      DropListed(s, k);
    }
  }

  // ---------------------------------------------------------------- capacity

  function Back(s: Shard): Element
    requires s.lru != []
  {
    s.lru[|s.lru| - 1]
  }

  /** Evict from the back until there is room; `max` is the shard's share of the cache size. */
  function EnsureCapacity(s: Shard, max: nat): Shard
    requires max > 0
    decreases |s.lru|
  {
    if |s.items.Keys| < max || s.lru == [] then s else EnsureCapacity(Drop(s, Back(s)), max)
  }

  /** What a capacity eviction leaves: a prefix of the list, every entry kept as it was. */
  ghost predicate KeepsPrefix(s: Shard, t: Shard) {
    && |t.lru| <= |s.lru| && t.lru == s.lru[..|t.lru|] && t.nextId == s.nextId
    && forall k :: k in t.items ==> k in s.items && t.items[k] == s.items[k]
  }

  lemma {:induction false} EnsureCapacityKeeps(s: Shard, max: nat)
    requires Coherent(s) && max > 0
    ensures var t := EnsureCapacity(s, max);
      && Coherent(t) && KeepsPrefix(s, t) && (|s.items.Keys| < max ==> t == s)
      && |t.items.Keys| == if |s.items.Keys| < max then |s.items.Keys| else max - 1
    decreases |s.lru|
  {
    if |s.items.Keys| >= max {
      DropAt(s, |s.lru| - 1);
      var u := Drop(s, Back(s));
      assert u.lru == s.lru[..|s.lru| - 1];
      EnsureCapacityKeeps(u, max);
    } else {
      assert s.lru[..|s.lru|] == s.lru;
    }
  }

  /** One round of the eviction loop; nothing happens to an empty list. */
  function EvictBack(s: Shard): Shard {
    if s.lru == [] then s else Drop(s, Back(s))
  }

  function EvictTimes(s: Shard, n: nat): Shard {
    Iterate(EvictBack, s, n)
  }

  lemma EvictBackShrinks(s: Shard)
    requires Coherent(s)
    ensures Coherent(EvictBack(s))
    ensures |EvictBack(s).items.Keys| == SizeAfter(|s.items.Keys|, 1)
  {
    if s.lru != [] {
      DropAt(s, |s.lru| - 1);
    }
  }

  ghost function IsCoherent(): Shard -> bool {
    (s: Shard) => Coherent(s)
  }

  function SizeOfItems(): Shard -> nat {
    (s: Shard) => |s.items.Keys|
  }

  lemma EvictStep(ok: Shard -> bool, size: Shard -> nat, t: Shard)
    requires ok == IsCoherent() && size == SizeOfItems() && ok(t)
    ensures ok(EvictBack(t)) && size(EvictBack(t)) == SizeAfter(size(t), 1)
  {
    assert Coherent(t);
    EvictBackShrinks(t);
  }

  lemma EvictTimesShrinks(s: Shard, n: nat)
    requires Coherent(s)
    ensures |EvictTimes(s, n).items.Keys| == SizeAfter(|s.items.Keys|, n)
  {
    var ok, size := IsCoherent(), SizeOfItems();
    assert ok(s);
    IterateEvict(ok, size, s, n);
    assert size(EvictTimes(s, n)) == |EvictTimes(s, n).items.Keys| && size(s) == |s.items.Keys|;
  }

  lemma IterateEvict(ok: Shard -> bool, size: Shard -> nat, s: Shard, n: nat)
    requires ok == IsCoherent() && size == SizeOfItems() && ok(s)
    ensures size(EvictTimes(s, n)) == SizeAfter(size(s), n)
  {
    forall t | ok(t)
      ensures ok(EvictBack(t)) && size(EvictBack(t)) == SizeAfter(size(t), 1)
    {
      EvictStep(ok, size, t);
    }
    IterateShrinks(EvictBack, ok, size, s, n);
  }

  /**
   The eviction loop, which runs while the shard holds at least `max` entries, comes to an end
   exactly when `max` is positive. A cache of fewer than 32 entries gives its shards a share of
   zero, and then storing anything never returns.
   */
  lemma CapacityLoopEndsIff(s: Shard, max: nat)
    requires Coherent(s)
    ensures (exists n: nat :: |EvictTimes(s, n).items.Keys| < max) <==> max > 0
  {
    if max > 0 {
      EvictTimesShrinks(s, |s.items.Keys|);
    }
  }

  // ---------------------------------------------------------------- storing and looking up

  function PushFront(s: Shard, entry: Entry): Shard {
    var e := Element(s.nextId, entry);
    Shard(s.items[entry.key := entry], [e] + s.lru, s.lruMap[entry.key := e], s.nextId + 1)
  }

  /** An existing entry under the key is removed first. */
  function Replace(s: Shard, entry: Entry): Shard {
    PushFront(if entry.key in s.lruMap then Drop(s, s.lruMap[entry.key]) else s, entry)
  }

  function Store(s: Shard, max: nat, entry: Entry): Shard
    requires max > 0
  {
    Replace(EnsureCapacity(s, max), entry)
  }

  lemma PairwiseCons(e: Element, lru: seq<Element>, rel: (Element, Element) -> bool)
    requires Pairwise(lru, rel) && forall i :: 0 <= i < |lru| ==> rel(e, lru[i])
    ensures Pairwise([e] + lru, rel)
  {
    var r := [e] + lru;
    forall j, k | 0 <= j < k < |r|
      ensures rel(r[j], r[k])
    {
      assert r[k] == lru[k - 1] && (j > 0 ==> r[j] == lru[j - 1]);
    }
  }

  lemma PushFrontIsCoherent(s: Shard, entry: Entry)
    requires Coherent(s) && entry.key !in s.items
    ensures Coherent(PushFront(s, entry)) && |PushFront(s, entry).items.Keys| == |s.items.Keys| + 1
  {
    var t := PushFront(s, entry);
    var e := Element(s.nextId, entry);
    assert t.items.Keys == s.items.Keys + {entry.key} && t.lruMap.Keys == s.lruMap.Keys + {entry.key};
    forall i | 0 <= i < |t.lru|
      ensures Indexed(t, t.lru[i])
    {
      assert i > 0 ==> t.lru[i] == s.lru[i - 1] && Indexed(s, s.lru[i - 1]);
    }
    assert forall i :: 0 <= i < |s.lru| ==> Indexed(s, s.lru[i]);
    PairwiseCons(e, s.lru, DistinctIds);
  }

  lemma ReplaceKeeps(s: Shard, entry: Entry)
    requires Coherent(s)
    ensures var t := Replace(s, entry);
      && Coherent(t) && |t.items.Keys| <= |s.items.Keys| + 1
      && entry.key in t.items && t.items[entry.key] == entry
      && (forall k :: k in t.items && k != entry.key ==> k in s.items && t.items[k] == s.items[k])
  {
    if entry.key in s.lruMap {
      DropListed(s, entry.key);
      PushFrontIsCoherent(Drop(s, s.lruMap[entry.key]), entry);
    } else {
      PushFrontIsCoherent(s, entry);
    }
  }

  /** Storing keeps coherence and capacity; other entries are kept unchanged or evicted. */
  lemma StoreKeeps(s: Shard, max: nat, entry: Entry)
    requires Coherent(s) && max > 0
    ensures var t := Store(s, max, entry);
      && Coherent(t) && |t.items.Keys| <= max
      && entry.key in t.items && t.items[entry.key] == entry
      && (forall k :: k in t.items && k != entry.key ==> k in s.items && t.items[k] == s.items[k])
  {
    EnsureCapacityKeeps(s, max);
    ReplaceKeeps(EnsureCapacity(s, max), entry);
  }

  /**
   Room is made even where none is needed: replacing an entry of a full shard evicts the least
   recently used one, unless that is the entry itself.
   */
  lemma RefreshEvicts(s: Shard, entry: Entry)
    requires Coherent(s) && |s.lru| > 1 && entry.key in s.items && Back(s).entry.key != entry.key
    ensures Back(s).entry.key !in Store(s, |s.items.Keys|, entry).items
    ensures |Store(s, |s.items.Keys|, entry).items.Keys| == |s.items.Keys| - 1
  {
    var n := |s.lru| - 1;
    DropAt(s, n);
    var u := Drop(s, Back(s));
    assert EnsureCapacity(s, |s.items.Keys|) == u;
    assert Indexed(s, s.lru[n]);
    DropListed(u, entry.key);
    PushFrontIsCoherent(Drop(u, u.lruMap[entry.key]), entry);
  }

  function MoveToFront(s: Shard, e: Element): Shard {
    s.(lru := [e] + Without(s.lru, e.id))
  }

  /** The new shard, and the entry found if it is still alive; an expired one is evicted. */
  function LookUp(s: Shard, key: string, now: int): (Shard, Option<Entry>) {
    if key !in s.lruMap then (s, None)
    else
      var e := s.lruMap[key];
      if now < e.entry.expires then (MoveToFront(s, e), Some(e.entry)) else (Drop(s, e), None)
  }

  lemma MoveToFrontIsCoherent(s: Shard, i: nat)
    requires Coherent(s) && i < |s.lru|
    ensures Coherent(MoveToFront(s, s.lru[i]))
    ensures MoveToFront(s, s.lru[i]).lru == [s.lru[i]] + (s.lru[..i] + s.lru[i + 1..])
  {
    DropAt(s, i);
    var t := MoveToFront(s, s.lru[i]);
    forall j | 0 <= j < |t.lru|
      ensures Indexed(t, t.lru[j])
    {
      var k := if j == 0 then i else if j - 1 < i then j - 1 else j;
      assert t.lru[j] == s.lru[k] && Indexed(s, s.lru[k]);
    }
    MovedIsPairwise(s.lru, i, DistinctIds);
  }

  lemma MovedIsPairwise(lru: seq<Element>, i: nat, rel: (Element, Element) -> bool)
    requires i < |lru| && Pairwise(lru, rel) && forall a, b :: rel(a, b) ==> rel(b, a)
    ensures Pairwise([lru[i]] + (lru[..i] + lru[i + 1..]), rel)
  {
    var rest := lru[..i] + lru[i + 1..];
    forall j | 0 <= j < |rest|
      ensures rel(lru[i], rest[j])
    {
      assert rest[j] == lru[if j < i then j else j + 1];
    }
    PairwiseRemove(lru, i, rel);
    PairwiseCons(lru[i], rest, rel);
  }

  /** A look-up finds exactly the stored live entry, and never adds or alters one. */
  lemma LookUpKeeps(s: Shard, key: string, now: int)
    requires Coherent(s)
    ensures var (t, found) := LookUp(s, key, now);
      && Coherent(t) && |t.items.Keys| <= |s.items.Keys|
      && (found.Some? <==> key in s.items && now < s.items[key].expires)
      && (found.Some? ==> found.value == s.items[key] && t.items == s.items)
      && (forall k :: k in t.items ==> k in s.items && t.items[k] == s.items[k])
  {
    if key in s.lruMap {
      var i := StoredIsListed(s, key);
      DropAt(s, i);
      MoveToFrontIsCoherent(s, i);
    }
  }

  // ---------------------------------------------------------------- cleaning

  predicate Alive(e: Element, now: int) {
    now <= e.entry.expires
  }

  /** Keep what has not passed its expiry. */
  function Clean(s: Shard, now: int): Shard {
    Shard(map k | k in s.items && now <= s.items[k].expires :: s.items[k],
          Filter(s.lru, (e: Element) => Alive(e, now)),
          map k | k in s.lruMap && Alive(s.lruMap[k], now) :: s.lruMap[k], s.nextId)
  }

  /** Where the first dead element is; without one nothing is cleaned. */
  function FirstDead(lru: seq<Element>, now: int): (i: nat)
    ensures i <= |lru|
    ensures forall j :: 0 <= j < i ==> Alive(lru[j], now)
    ensures i < |lru| ==> !Alive(lru[i], now)
  {
    if lru == [] || !Alive(lru[0], now) then 0 else 1 + FirstDead(lru[1..], now)
  }

  lemma {:induction false} FilterDropsDead(lru: seq<Element>, p: Element -> bool, i: nat)
    requires i < |lru| && !p(lru[i])
    ensures Filter(lru[..i] + lru[i + 1..], p) == Filter(lru, p)
  {
    var r := lru[..i] + lru[i + 1..];
    if i == 0 {
      assert r == lru[1..];
    } else {
      FilterDropsDead(lru[1..], p, i - 1);
      assert r[1..] == lru[1..][..i - 1] + lru[1..][i..];
      assert r[0] == lru[0];
    }
  }

  lemma CleanDropsDead(s: Shard, now: int, i: nat)
    requires Coherent(s) && i < |s.lru| && !Alive(s.lru[i], now)
    ensures Clean(Drop(s, s.lru[i]), now) == Clean(s, now)
  {
    DropAt(s, i);
    FilterDropsDead(s.lru, (e: Element) => Alive(e, now), i);
    assert Indexed(s, s.lru[i]);
    var a, b := Clean(Drop(s, s.lru[i]), now), Clean(s, now);
    assert a.items == b.items && a.lruMap == b.lruMap;
  }

  lemma CleanKeepsAlive(s: Shard, now: int)
    requires Coherent(s) && FirstDead(s.lru, now) == |s.lru|
    ensures Clean(s, now) == s
  {
    FilterAll(s.lru, (e: Element) => Alive(e, now));
    forall k | k in s.items
      ensures now <= s.items[k].expires && Alive(s.lruMap[k], now)
    {
      var i := StoredIsListed(s, k);
    }
  }

  lemma {:induction false} CleanIsCoherent(s: Shard, now: int)
    requires Coherent(s)
    ensures Coherent(Clean(s, now)) && |Clean(s, now).items.Keys| <= |s.items.Keys|
    decreases |s.lru|
  {
    var i := FirstDead(s.lru, now);
    if i == |s.lru| {
      CleanKeepsAlive(s, now);
    } else {
      DropAt(s, i);
      CleanDropsDead(s, now, i);
      CleanIsCoherent(Drop(s, s.lru[i]), now);
    }
  }

  // ---------------------------------------------------------------- what keeps the list's order

  lemma {:induction false} EvictionOrder(s: Shard, max: nat, rel: (Element, Element) -> bool)
    requires Coherent(s) && max > 0 && Pairwise(s.lru, rel)
    ensures Pairwise(EnsureCapacity(s, max).lru, rel)
  {
    EnsureCapacityKeeps(s, max);
    var n := |EnsureCapacity(s, max).lru|;
    assert forall i :: 0 <= i < n ==> EnsureCapacity(s, max).lru[i] == s.lru[i];
  }

  /** Storing puts the entry in front and leaves the others in their order. */
  lemma StoreOrder(s: Shard, max: nat, entry: Entry, rel: (Element, Element) -> bool)
    requires Coherent(s) && max > 0 && Pairwise(s.lru, rel)
    ensures var r := Store(s, max, entry).lru; r != [] && r[0].entry == entry && Pairwise(r[1..], rel)
  {
    EvictionOrder(s, max, rel);
    EnsureCapacityKeeps(s, max);
    var u := EnsureCapacity(s, max);
    if entry.key in u.lruMap {
      var i := StoredIsListed(u, entry.key);
      DropAt(u, i);
      PairwiseRemove(u.lru, i, rel);
      assert Store(s, max, entry).lru[1..] == u.lru[..i] + u.lru[i + 1..];
    } else {
      assert Store(s, max, entry).lru[1..] == u.lru;
    }
  }

  /** A hit puts its entry in front; everything else stays in its order. */
  lemma LookUpOrder(s: Shard, key: string, now: int, rel: (Element, Element) -> bool)
    requires Coherent(s) && Pairwise(s.lru, rel)
    ensures var (t, found) := LookUp(s, key, now);
      if found.Some? then t.lru != [] && t.lru[0].entry.key == key && Pairwise(t.lru[1..], rel)
      else Pairwise(t.lru, rel)
  {
    if key in s.lruMap {
      var i := StoredIsListed(s, key);
      PairwiseRemove(s.lru, i, rel);
      DropAt(s, i);
      MoveToFrontIsCoherent(s, i);
      assert MoveToFront(s, s.lru[i]).lru[1..] == s.lru[..i] + s.lru[i + 1..];
    }
  }

  // ---------------------------------------------------------------- the mutable shard

  class CacheShard {
    var items: map<string, Entry>
    var lruList: seq<Element>
    var lruMap: map<string, Element>
    var nextId: nat

    constructor ()
      ensures View() == EMPTY
    {
      items, lruList, lruMap, nextId := map[], [], map[], 0;
    }

    function View(): Shard
      reads this
    {
      Shard(items, lruList, lruMap, nextId)
    }

    method EvictEntry(elem: Element)
      modifies this
      ensures View() == Drop(old(View()), elem)
    {
      items := items - {elem.entry.key};
      lruMap := lruMap - {elem.entry.key};
      lruList := Without(lruList, elem.id);
    }

    method EvictOldest()
      modifies this
      ensures View() == EvictBack(old(View()))
    {
      if |lruList| > 0 {
        EvictEntry(lruList[|lruList| - 1]);
      }
    }

    method MakeRoom(maxShardSize: nat)
      requires Coherent(View()) && maxShardSize > 0
      modifies this
      ensures View() == EnsureCapacity(old(View()), maxShardSize)
    {
      while |items.Keys| >= maxShardSize
        invariant Coherent(View())
        invariant EnsureCapacity(View(), maxShardSize) == EnsureCapacity(old(View()), maxShardSize)
        decreases |lruList|
      {
        DropAt(View(), |lruList| - 1);
        EvictOldest();
      }
    }

    /** Take an entry out under its own key, as replacing and cleaning do. */
    method Remove(key: string)
      requires key in lruMap && lruMap[key].entry.key == key
      modifies this
      ensures View() == Drop(old(View()), old(lruMap)[key])
    {
      lruList := Without(lruList, lruMap[key].id);
      lruMap := lruMap - {key};
      items := items - {key};
    }

    method Put(entry: Entry)
      requires entry.key in lruMap ==> lruMap[entry.key].entry.key == entry.key
      modifies this
      ensures View() == Replace(old(View()), entry)
    {
      if entry.key in lruMap {
        Remove(entry.key);
      }
      var elem := Element(nextId, entry);
      nextId := nextId + 1;
      lruList := [elem] + lruList;
      lruMap := lruMap[entry.key := elem];
      items := items[entry.key := entry];
    }

    method StoreEntry(maxShardSize: nat, entry: Entry)
      requires Coherent(View()) && maxShardSize > 0
      modifies this
      ensures View() == Store(old(View()), maxShardSize, entry)
    {
      OwnKey(EnsureCapacity(View(), maxShardSize), entry.key) by {
        EnsureCapacityKeeps(View(), maxShardSize);
      }
      MakeRoom(maxShardSize);
      Put(entry);
    }

    method Find(key: string, now: int) returns (found: Option<Entry>)
      requires Coherent(View())
      modifies this
      ensures (View(), found) == LookUp(old(View()), key, now)
    {
      if key in lruMap {
        var elem := lruMap[key];
        if now < elem.entry.expires {
          lruList := [elem] + Without(lruList, elem.id);
          return Some(elem.entry);
        } else {
          EvictEntry(elem);
        }
      }
      return None;
    }

    method Reset()
      modifies this
      ensures View() == EMPTY
    {
      items, lruList, lruMap, nextId := map[], [], map[], 0;
    }

    /** Visits the keys in an arbitrary order, as iteration over a map does. */
    method CleanExpired(now: int)
      requires Coherent(View())
      modifies this
      ensures View() == Clean(old(View()), now)
    {
      var pending := items.Keys;
      while pending != {}
        invariant pending <= items.Keys
        invariant Coherent(View()) && Clean(View(), now) == Clean(old(View()), now)
        invariant forall k :: k in items && k !in pending ==> now <= items[k].expires
        decreases pending
      {
        var key :| key in pending;
        if now > items[key].expires {
          ghost var i := StoredIsListed(View(), key);
          CleanDropsDead(View(), now, i);
          DropAt(View(), i);
          Remove(key);
        }
        pending := pending - {key};
      }
      assert FirstDead(lruList, now) == |lruList| by {
        assert forall i :: 0 <= i < |lruList| ==> Indexed(View(), lruList[i]);
      }
      CleanKeepsAlive(View(), now);
    }
  }
}
