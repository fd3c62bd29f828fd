/**
 * The byte cache `MemoryCache` (internal/cache/cache.go): a least-recently-used
 * cache built from a key -> element map and a doubly linked recency list whose
 * front is the most recently used entry.
 *
 * The linked list is modelled as a sequence of heap-allocated items, front
 * first; the map sends each key to the very item object in that sequence, and
 * `Set` on a present key overwrites that item's value in place, as the source
 * does through the element reference. Both operations are proved against the
 * value-level functions `Lookup` and `Store` over a sequence of entries.
 */
module LruCache {
  import opened Common

  /** What one list element holds, as a value. */
  datatype Entry = Entry(key: string, value: Bytes)

  function KeysOf(entries: seq<Entry>): (r: seq<string>)
    ensures |r| == |entries|
    ensures forall i :: 0 <= i < |entries| ==> r[i] == entries[i].key
  {
    seq(|entries|, i requires 0 <= i < |entries| => entries[i].key)
  }

  /** No key occurs twice in the recency order. */
  ghost predicate DistinctKeys(entries: seq<Entry>) {
    forall i, j :: 0 <= i < j < |entries| ==> entries[i].key != entries[j].key
  }

  function Max(a: int, b: int): int {
    if a < b then b else a
  }

  /** The order with the element at `i` taken out. */
  function Without(entries: seq<Entry>, i: nat): (r: seq<Entry>)
    requires i < |entries|
    ensures |r| == |entries| - 1
    ensures multiset(r) + multiset{entries[i]} == multiset(entries)
  {
    assert entries == entries[..i] + [entries[i]] + entries[i + 1..];
    entries[..i] + entries[i + 1..]
  }

  /**
   * `Get`: a present key moves to the front and its value is returned; a
   * missing key leaves the order alone and yields nothing.
   */
  function Lookup(entries: seq<Entry>, key: string): (r: (seq<Entry>, Option<Bytes>))
    ensures |r.0| == |entries|
    ensures r.1.Some? ==> |r.0| >= 1 && r.0[0] == Entry(key, r.1.value)
    ensures r.1.None? ==> r.0 == entries
  {
    match FirstIndex(KeysOf(entries), key)
    case None => (entries, None)
    case Some(i) => ([entries[i]] + Without(entries, i), Some(entries[i].value))
  }

  /**
   * `Set`: a present key moves to the front with its new value; a new key is
   * pushed on the front after the back entry has been dropped when the list
   * already holds `capacity` entries or more.
   */
  function Store(entries: seq<Entry>, capacity: int, key: string, value: Bytes): (r: seq<Entry>)
    ensures |r| >= 1 && r[0] == Entry(key, value)
    ensures |r| == if key in KeysOf(entries) || (|entries| >= capacity && |entries| > 0) then |entries| else |entries| + 1
    ensures forall e :: e in r ==> e == Entry(key, value) || e in entries
  {
    match FirstIndex(KeysOf(entries), key)
    case Some(i) => [Entry(key, value)] + Without(entries, i)
    case None =>
      var kept := if |entries| >= capacity && |entries| > 0 then entries[..|entries| - 1] else entries;
      [Entry(key, value)] + kept
  }

  /** A lookup right after a store finds the stored value, already at the front. */
  lemma StoreThenLookup(entries: seq<Entry>, capacity: int, key: string, value: Bytes)
    ensures Store(entries, capacity, key, value)[0] == Entry(key, value)
    ensures Lookup(Store(entries, capacity, key, value), key) == (Store(entries, capacity, key, value), Some(value))
  {
    var s := Store(entries, capacity, key, value);
    FirstIndexAt(KeysOf(s), key, 0);
    assert [s[0]] + Without(s, 0) == s;
  }

  /** Storing over a present key keeps the count and every other entry, in order. */
  lemma StoreExisting(entries: seq<Entry>, capacity: int, key: string, value: Bytes, i: nat)
    requires DistinctKeys(entries)
    requires i < |entries| && entries[i].key == key
    ensures Store(entries, capacity, key, value) == [Entry(key, value)] + entries[..i] + entries[i + 1..]
    ensures |Store(entries, capacity, key, value)| == |entries|
  {
    FirstIndexAt(KeysOf(entries), key, i);
  }

  /** A new key stored into a full cache drops exactly the back (least recently used) entry. */
  lemma StoreNewWhenFull(entries: seq<Entry>, capacity: int, key: string, value: Bytes)
    requires DistinctKeys(entries)
    requires key !in KeysOf(entries)
    requires |entries| >= capacity && |entries| > 0
    ensures Store(entries, capacity, key, value) == [Entry(key, value)] + entries[..|entries| - 1]
    ensures entries[|entries| - 1].key !in KeysOf(Store(entries, capacity, key, value))
  {
    var s := Store(entries, capacity, key, value);
    var last := entries[|entries| - 1];
    forall j | 0 <= j < |s| ensures s[j].key != last.key {
      if j == 0 {
        assert KeysOf(entries)[|entries| - 1] == last.key;
      } else {
        assert s[j] == entries[j - 1];
      }
    }
  }

  /** A new key stored below capacity evicts nothing. */
  lemma StoreNewWithRoom(entries: seq<Entry>, capacity: int, key: string, value: Bytes)
    requires key !in KeysOf(entries)
    requires |entries| < capacity
    ensures Store(entries, capacity, key, value) == [Entry(key, value)] + entries
  {
  }

  /** The entry count never exceeds max(capacity, 1). */
  lemma StoreBound(entries: seq<Entry>, capacity: int, key: string, value: Bytes)
    requires |entries| <= Max(capacity, 1)
    ensures |Store(entries, capacity, key, value)| <= Max(capacity, 1)
  {
  }

  /** Moving one entry to the front keeps keys distinct and adds no key. */
  lemma {:induction false} FrontDistinct(entries: seq<Entry>, i: nat, e: Entry)
    requires DistinctKeys(entries)
    requires i < |entries| && e.key == entries[i].key
    ensures DistinctKeys([e] + Without(entries, i))
    ensures forall k :: k in KeysOf([e] + Without(entries, i)) ==> k in KeysOf(entries)
  {
    var s := [e] + Without(entries, i);
    assert forall m :: 0 < m <= i ==> s[m] == entries[m - 1];
    assert forall m :: i < m < |s| ==> s[m] == entries[m];
    forall k | k in KeysOf(s) ensures k in KeysOf(entries) {
      var m :| 0 <= m < |s| && KeysOf(s)[m] == k;
      if m == 0 {
        assert KeysOf(entries)[i] == k;
      } else if m <= i {
        assert KeysOf(entries)[m - 1] == k;
      } else {
        assert KeysOf(entries)[m] == k;
      }
    }
  }

  /** Pushing an entry with a fresh key onto a prefix keeps keys distinct. */
  lemma {:induction false} PushDistinct(entries: seq<Entry>, n: nat, e: Entry)
    requires DistinctKeys(entries)
    requires n <= |entries| && e.key !in KeysOf(entries)
    ensures DistinctKeys([e] + entries[..n])
    ensures forall k :: k in KeysOf([e] + entries[..n]) ==> k == e.key || k in KeysOf(entries)
  {
    var s := [e] + entries[..n];
    assert forall m :: 0 < m < |s| ==> s[m] == entries[m - 1];
    forall a, b | 0 <= a < b < |s| ensures s[a].key != s[b].key {
      if a == 0 {
        assert KeysOf(entries)[b - 1] == s[b].key;
      }
    }
    forall k | k in KeysOf(s) ensures k == e.key || k in KeysOf(entries) {
      var m :| 0 <= m < |s| && KeysOf(s)[m] == k;
      if m > 0 {
        assert KeysOf(entries)[m - 1] == k;
      }
    }
  }

  /** Keys stay distinct through a store, and the only key a store can add is its own. */
  lemma StoreDistinct(entries: seq<Entry>, capacity: int, key: string, value: Bytes)
    requires DistinctKeys(entries)
    ensures DistinctKeys(Store(entries, capacity, key, value))
    ensures forall k :: k in KeysOf(Store(entries, capacity, key, value)) ==> k == key || k in KeysOf(entries)
  {
    match FirstIndex(KeysOf(entries), key)
    case Some(i) =>
      FrontDistinct(entries, i, Entry(key, value));
    case None =>
      var n := if |entries| >= capacity && |entries| > 0 then |entries| - 1 else |entries|;
      assert entries[..|entries|] == entries;
      PushDistinct(entries, n, Entry(key, value));
  }

  /** A missing key changes nothing; a present one is only moved to the front. */
  lemma LookupOnlyReorders(entries: seq<Entry>, key: string)
    ensures key !in KeysOf(entries) ==> Lookup(entries, key) == (entries, None)
    ensures multiset(Lookup(entries, key).0) == multiset(entries)
    ensures Lookup(entries, key).1.Some? <==> key in KeysOf(entries)
    ensures Lookup(entries, key).1.Some? ==> Lookup(entries, key).0[0].key == key
  {
  }

  /**
   * A hit at position `i` (the first entry with the key) moves that entry to
   * the front and keeps every other entry in its order.
   */
  lemma LookupExisting(entries: seq<Entry>, key: string, i: nat)
    requires i < |entries| && entries[i].key == key && key !in KeysOf(entries)[..i]
    ensures Lookup(entries, key) == ([entries[i]] + entries[..i] + entries[i + 1..], Some(entries[i].value))
  {
    FirstIndexAt(KeysOf(entries), key, i);
    assert [entries[i]] + Without(entries, i) == [entries[i]] + entries[..i] + entries[i + 1..];
  }

  /** One element of the recency list; its key never changes, its value may. */
  class Item {
    const key: string
    var value: Bytes

    constructor (key: string, value: Bytes)
      ensures this.key == key && this.value == value
    {
      this.key := key;
      this.value := value;
    }
  }

  function ItemKeys(items: seq<Item>): (r: seq<string>)
    ensures |r| == |items|
    ensures forall i :: 0 <= i < |items| ==> r[i] == items[i].key
  {
    seq(|items|, i requires 0 <= i < |items| => items[i].key)
  }

  /** The values the items hold right now, front first. */
  function EntriesOf(items: seq<Item>): (r: seq<Entry>)
    reads items
    ensures |r| == |items|
    ensures forall i :: 0 <= i < |items| ==> r[i] == Entry(items[i].key, items[i].value)
  {
    seq(|items|, i requires 0 <= i < |items| reads items => Entry(items[i].key, items[i].value))
  }

  /** Reading the values through the items loses no key. */
  lemma KeysOfEntries(items: seq<Item>)
    ensures KeysOf(EntriesOf(items)) == ItemKeys(items)
  {
  }

  /** Moving an item to the front moves its entry to the front of the value model. */
  lemma FrontEntries(items: seq<Item>, i: nat)
    requires i < |items|
    ensures EntriesOf([items[i]] + items[..i] + items[i + 1..]) == [EntriesOf(items)[i]] + Without(EntriesOf(items), i)
  {
    var entries := EntriesOf(items);
    var lhs := EntriesOf([items[i]] + items[..i] + items[i + 1..]);
    var rhs := [entries[i]] + entries[..i] + entries[i + 1..];
    forall m | 0 <= m < |items| ensures lhs[m] == rhs[m] {
      MovedAt(items, i, m);
      MovedAt(entries, i, m);
    }
    assert lhs == rhs;
  }

  /** Linking an item on the front puts its entry on the front of the value model. */
  lemma EntriesPush(items: seq<Item>, item: Item)
    ensures EntriesOf([item] + items) == [Entry(item.key, item.value)] + EntriesOf(items)
  {
    var pushed := [item] + items;
    assert forall j :: 0 < j < |pushed| ==> pushed[j] == items[j - 1];
  }

  /**
   * The map and the list are in one-to-one correspondence: no key is listed
   * twice, each listed element is what the map holds under its key, and every
   * mapped key is listed.
   */
  ghost predicate Linked(cache: map<string, Item>, items: seq<Item>) {
    && (forall i, j :: 0 <= i < j < |items| ==> items[i].key != items[j].key)
    && (forall i :: 0 <= i < |items| ==> items[i].key in cache && cache[items[i].key] == items[i])
    && (forall k :: k in cache ==> k in ItemKeys(items))
  }

  /** Under the correspondence the value model has distinct keys, exactly the mapped ones. */
  lemma LinkedModel(cache: map<string, Item>, items: seq<Item>)
    requires Linked(cache, items)
    ensures DistinctKeys(EntriesOf(items))
    ensures KeysOf(EntriesOf(items)) == ItemKeys(items)
    ensures forall k :: k in cache <==> k in ItemKeys(items)
  {
    assert KeysOf(EntriesOf(items)) == ItemKeys(items);
  }

  /** Where position `m` of the list after moving `i` to the front came from. */
  function MovedFrom(i: nat, m: nat): nat {
    if m == 0 then i else if m <= i then m - 1 else m
  }

  lemma MovedAt<T>(s: seq<T>, i: nat, m: nat)
    requires i < |s| && m < |s|
    ensures ([s[i]] + s[..i] + s[i + 1..])[m] == s[MovedFrom(i, m)]
  {
  }

  /** `MoveToFront` keeps the correspondence. */
  lemma LinkedMove(cache: map<string, Item>, items: seq<Item>, i: nat)
    requires Linked(cache, items) && i < |items|
    ensures Linked(cache, [items[i]] + items[..i] + items[i + 1..])
  {
    var moved := [items[i]] + items[..i] + items[i + 1..];
    forall a, b | 0 <= a < b < |moved| ensures moved[a].key != moved[b].key {
      MovedAt(items, i, a);
      MovedAt(items, i, b);
    }
    forall m | 0 <= m < |moved| ensures moved[m].key in cache && cache[moved[m].key] == moved[m] {
      MovedAt(items, i, m);
    }
    forall k | k in cache ensures k in ItemKeys(moved) {
      var j :| 0 <= j < |items| && ItemKeys(items)[j] == k;
      var m := if j < i then j + 1 else if j == i then 0 else j;
      MovedAt(items, i, m);
      assert ItemKeys(moved)[m] == k;
    }
  }

  /** Removing the back element from the list and its key from the map keeps the correspondence. */
  lemma LinkedEvict(cache: map<string, Item>, items: seq<Item>)
    requires Linked(cache, items) && |items| > 0
    ensures Linked(cache - {items[|items| - 1].key}, items[..|items| - 1])
  {
    var last := items[|items| - 1].key;
    var kept := items[..|items| - 1];
    forall k | k in cache - {last} ensures k in ItemKeys(kept) {
      var j :| 0 <= j < |items| && ItemKeys(items)[j] == k;
      assert j < |kept| && ItemKeys(kept)[j] == k;
    }
  }

  /** Pushing an element whose key is unmapped, and mapping it, keeps the correspondence. */
  lemma LinkedPush(cache: map<string, Item>, items: seq<Item>, item: Item)
    requires Linked(cache, items) && item.key !in cache
    ensures Linked(cache[item.key := item], [item] + items)
  {
    var pushed := [item] + items;
    forall k | k in cache[item.key := item] ensures k in ItemKeys(pushed) {
      if k == item.key {
        assert ItemKeys(pushed)[0] == k;
      } else {
        var j :| 0 <= j < |items| && ItemKeys(items)[j] == k;
        assert ItemKeys(pushed)[j + 1] == k;
      }
    }
  }

  class MemoryCache {
    const capacity: int
    /** Key -> the list element holding that key. */
    var cache: map<string, Item>
    /** The recency list, most recently used first. */
    var list: seq<Item>

    /** Map and list correspond, and the count is bounded by max(capacity, 1). */
    ghost predicate Valid()
      reads this
    {
      Linked(cache, list) && |list| <= Max(capacity, 1)
    }

    function Entries(): seq<Entry>
      reads this, list
    {
      EntriesOf(list)
    }

    constructor (capacity: int)
      ensures Valid()
      ensures this.capacity == capacity && Entries() == [] && cache == map[]
    {
      this.capacity := capacity;
      cache := map[];
      list := [];
    }

    /** Moves the element at `i` to the front of the list. */
    method MoveToFront(i: nat)
      requires Valid() && i < |list|
      modifies this`list
      ensures Valid()
      ensures list == [old(list)[i]] + old(list)[..i] + old(list)[i + 1..]
    {
      LinkedMove(cache, list, i);
      list := [list[i]] + list[..i] + list[i + 1..];
    }

    /** `Get`: reports the value and marks the key most recently used. */
    method Get(key: string) returns (value: Bytes, found: bool)
      requires Valid()
      modifies this`list
      ensures Valid()
      ensures (Entries(), if found then Some(value) else None) == Lookup(old(Entries()), key)
      ensures !found ==> value == [] && list == old(list)
      ensures found <==> key in cache
    {
      LinkedModel(cache, list);
      ghost var before := Entries();
      if key in cache {
        var elem := cache[key];
        var i := FirstIndex(ItemKeys(list), key).value;
        assert Lookup(before, key) == ([before[i]] + Without(before, i), Some(elem.value));
        FrontEntries(list, i);
        MoveToFront(i);
        value, found := elem.value, true;
      } else {
        value, found := [], false;
      }
    }

    /** Overwrites the value held by the front element, in place. */
    method WriteFront(value: Bytes)
      requires Valid() && |list| > 0
      modifies list[0]
      ensures Valid()
      ensures Entries() == [Entry(list[0].key, value)] + old(Entries())[1..]
    {
      ghost var before := Entries();
      var elem := list[0];
      assert forall j :: 0 < j < |list| ==> list[j] != elem by {
        assert forall j :: 0 < j < |list| ==> list[j].key != elem.key;
      }
      elem.value := value;
      assert forall j :: 0 < j < |list| ==> Entries()[j] == before[j];
    }

    /** Unlinks the back (least recently used) element and deletes its key from the map. */
    method EvictBack()
      requires Valid() && |list| > 0
      modifies this`cache, this`list
      ensures Linked(cache, list) && |list| == |old(list)| - 1
      ensures cache == old(cache) - {old(list)[|old(list)| - 1].key}
      ensures Entries() == old(Entries())[..|old(list)| - 1]
    {
      LinkedEvict(cache, list);
      var last := list[|list| - 1];
      cache := cache - {last.key};
      list := list[..|list| - 1];
    }

    /** Links a fresh element for an unmapped key on the front and maps it. */
    method PushFront(key: string, value: Bytes)
      requires Linked(cache, list) && key !in cache && |list| < Max(capacity, 1)
      modifies this`cache, this`list
      ensures Valid()
      ensures Entries() == [Entry(key, value)] + old(Entries())
      ensures key in cache && cache[key] == list[0]
    {
      var item := new Item(key, value);
      LinkedPush(cache, list, item);
      EntriesPush(list, item);
      list := [item] + list;
      cache := cache[key := item];
    }

    /**
     * `Set`: a present key takes the new value in its existing element and
     * moves to the front; a new key gets a fresh element on the front, after
     * the back element has been unlinked and unmapped when the list is full.
     */
    method Set(key: string, value: Bytes)
      requires Valid()
      modifies this, list
      ensures Valid()
      ensures Entries() == Store(old(Entries()), capacity, key, value)
      ensures key in cache && cache[key] == list[0]
    {
      if key in cache {
        SetExisting(key, value);
      } else {
        SetNew(key, value);
      }
    }

    /** `Set` of a mapped key: move its element to the front, then overwrite its value. */
    method SetExisting(key: string, value: Bytes)
      requires Valid() && key in cache
      modifies this`list, list
      ensures Valid()
      ensures Entries() == Store(old(Entries()), capacity, key, value)
      ensures key in cache && cache[key] == list[0]
    {
      LinkedModel(cache, list);
      ghost var before := Entries();
      var i := FirstIndex(ItemKeys(list), key).value;
      FrontEntries(list, i);
      MoveToFront(i);
      ghost var moved := Entries();
      assert moved == [before[i]] + Without(before, i);
      WriteFront(value);
      assert moved[1..] == Without(before, i);
      assert Store(before, capacity, key, value) == [Entry(key, value)] + Without(before, i);
    }

    /** `Set` of an unmapped key: evict the back element when full, then push a fresh one. */
    method SetNew(key: string, value: Bytes)
      requires Valid() && key !in cache
      modifies this`cache, this`list
      ensures Valid()
      ensures Entries() == Store(old(Entries()), capacity, key, value)
      ensures key in cache && cache[key] == list[0]
    {
      LinkedModel(cache, list);
      ghost var before := Entries();
      assert FirstIndex(KeysOf(before), key).None?;
      ghost var kept := if |before| >= capacity && |before| > 0 then before[..|before| - 1] else before;
      if |list| >= capacity && |list| > 0 {
        EvictBack();
      }
      assert Entries() == kept;
      PushFront(key, value);
    }
  }

}
