/** cache.go: the cache as the object it is, with items that the map and the recency list share. */
module CacheStore {
  import opened ListingCache
  import opened Shares  // Option

  lemma Around(l: seq<Key>, i: nat)
    requires Distinct(l) && i < |l|
    ensures l[i] !in l[..i] && l[i] !in l[i + 1..]
  {
    var a, b := l[..i], l[i + 1..];
    forall j | 0 <= j < |a| ensures a[j] != l[i] {
      assert a[j] == l[j];
    }
    forall j | 0 <= j < |b| ensures b[j] != l[i] {
      assert b[j] == l[i + 1 + j];
    }
  }

  /** Touching the key at `i`. */
  lemma TouchAt(l: seq<Key>, i: nat)
    requires Distinct(l) && i < |l|
    ensures Touch(l, l[i]) == [l[i]] + l[..i] + l[i + 1..]
  {
    hide Distinct, Except;
    Around(l, i);
    var a, b, k := l[..i], l[i + 1..], l[i];
    assert l == a + ([k] + b);
    ExceptConcat(a, [k] + b, k);
    ExceptConcat([k], b, k);
    ExceptFacts(a, k);
    ExceptFacts(b, k);
    ExceptOne(k);
    assert [] + b == b && [k] + (a + b) == [k] + a + b;
  }

  lemma ExceptOne(k: Key)
    ensures Except([k], k) == []
  {
  }

  class Item {
    const key: Key
    var nodes: Nodes

    constructor (key: Key, nodes: Nodes)
      ensures this.key == key && this.nodes == nodes
    {
      this.key := key;
      this.nodes := nodes;
    }
  }

  function Keys(items: seq<Item>): (o: seq<Key>)
    ensures |o| == |items| && forall i :: 0 <= i < |items| ==> o[i] == items[i].key
  {
    seq(|items|, i requires 0 <= i < |items| => items[i].key)
  }

  /** Map and list hold the same items, one for each key. */
  ghost predicate Linked(m: map<Key, Item>, lru: seq<Item>) {
    && Distinct(Keys(lru))
    && (forall i :: 0 <= i < |lru| ==> lru[i].key in m && m[lru[i].key] == lru[i])
    && (forall k :: k in m ==> m[k] in lru && m[k].key == k)
  }

  lemma KeysAreListed(m: map<Key, Item>, lru: seq<Item>)
    requires Linked(m, lru)
    ensures forall k :: k in m <==> k in Keys(lru)
  {
    forall k ensures k in m <==> k in Keys(lru) {
      if k in m {
        var i :| 0 <= i < |lru| && lru[i] == m[k];
        assert Keys(lru)[i] == k;
      }
      if k in Keys(lru) {
        var i :| 0 <= i < |lru| && Keys(lru)[i] == k;
      }
    }
  }

  lemma LinkedKeys(m: map<Key, Item>, lru: seq<Item>)
    requires Linked(m, lru)
    ensures Distinct(Keys(lru)) && forall k :: k in m ==> m[k] in lru && m[k].key == k
  {
  }

  lemma MovedMembers(items: seq<Item>, i: nat)
    requires i < |items|
    ensures forall x :: x in [items[i]] + items[..i] + items[i + 1..] <==> x in items
  {
    assert items == items[..i] + [items[i]] + items[i + 1..];
  }

  lemma MovedKeys(lru: seq<Item>, i: nat)
    requires Distinct(Keys(lru)) && i < |lru|
    ensures var moved := [lru[i]] + lru[..i] + lru[i + 1..];
            Keys(moved) == Touch(Keys(lru), lru[i].key) && Distinct(Keys(moved))
  {
    var keys, moved := Keys(lru), [lru[i]] + lru[..i] + lru[i + 1..];
    TouchAt(keys, i);
    ExceptDistinct(keys, keys[i]);
    hide Distinct, Except;
    assert Keys(moved) == [keys[i]] + keys[..i] + keys[i + 1..];
  }

  lemma MovedLinked(m: map<Key, Item>, lru: seq<Item>, i: nat)
    requires Linked(m, lru) && i < |lru|
    ensures var moved := [lru[i]] + lru[..i] + lru[i + 1..];
            Linked(m, moved) && Keys(moved) == Touch(Keys(lru), lru[i].key)
  {
    MovedKeys(lru, i);
    MovedMembers(lru, i);
    SameItemsLinked(m, lru, [lru[i]] + lru[..i] + lru[i + 1..]);
  }

  lemma SameItemsLinked(m: map<Key, Item>, lru: seq<Item>, moved: seq<Item>)
    requires Linked(m, lru) && Distinct(Keys(moved)) && forall x :: x in moved <==> x in lru
    ensures Linked(m, moved)
  {
    hide Distinct, Keys;
    forall j | 0 <= j < |moved| ensures moved[j].key in m && m[moved[j].key] == moved[j] {
      assert moved[j] in moved;
      var k :| 0 <= k < |lru| && lru[k] == moved[j];
    }
  }

  lemma EvictedLinked(m: map<Key, Item>, lru: seq<Item>)
    requires Linked(m, lru) && lru != []
    ensures var left := lru[..|lru| - 1];
            Linked(m - {lru[|lru| - 1].key}, left) && Keys(left) == Keys(lru)[..|lru| - 1]
  {
    var keys, left, gone := Keys(lru), lru[..|lru| - 1], lru[|lru| - 1].key;
    assert Keys(left) == keys[..|keys| - 1];
    forall k | k in m - {gone} ensures m[k] in left {
      var i :| 0 <= i < |lru| && lru[i] == m[k];
      assert keys[i] == k && keys[|keys| - 1] == gone;
      assert left[i] == m[k];
    }
  }

  lemma AddedLinked(m: map<Key, Item>, lru: seq<Item>, el: Item)
    requires Linked(m, lru) && el.key !in m
    ensures Linked(m[el.key := el], [el] + lru) && Keys([el] + lru) == Touch(Keys(lru), el.key)
  {
    KeysAreListed(m, lru);
    LinkedKeys(m, lru);
    AddedKeys(lru, el);
    AddedItems(m, lru, el);
  }

  lemma AddedKeys(lru: seq<Item>, el: Item)
    requires Distinct(Keys(lru)) && el.key !in Keys(lru)
    ensures Keys([el] + lru) == Touch(Keys(lru), el.key) && Distinct(Keys([el] + lru))
  {
    hide Distinct, Except;
    ExceptFacts(Keys(lru), el.key);
    ExceptDistinct(Keys(lru), el.key);
    assert Keys([el] + lru) == [el.key] + Keys(lru);
  }

  lemma AddedItems(m: map<Key, Item>, lru: seq<Item>, el: Item)
    requires Linked(m, lru) && el.key !in m && Distinct(Keys([el] + lru))
    ensures Linked(m[el.key := el], [el] + lru)
  {
    hide Distinct, Keys;
    var m', added := m[el.key := el], [el] + lru;
    forall k | k in m' ensures m'[k] in added && m'[k].key == k {
      assert k != el.key ==> m[k] in lru;
      assert added[0] == el;
    }
  }

  class Cache {
    var m: map<Key, Item>
    var lru: seq<Item>
    const max: nat

    /** The keys by recency. */
    ghost function Order(): (o: seq<Key>)
      reads this
    {
      Keys(lru)
    }

    /** Map and list agree, within the cap. */
    ghost predicate Valid()
      reads this
    {
      max >= 1 && |lru| <= max && Linked(m, lru)
    }

    ghost function Vals(): map<Key, Nodes>
      reads this, m.Values
    {
      map k | k in m :: m[k].nodes
    }

    /** What the list model says of this cache. */
    ghost function Abs(): ListingCache.State
      reads this, m.Values
    {
      ListingCache.State(Order(), Vals())
    }

    constructor (max: nat)
      ensures Abs() == ListingCache.EMPTY
      ensures Valid() && this.max == (if max < 1 then MAX_ENTRIES else max) && Order() == [] && m == map[]
    {
      this.max := if max < 1 then MAX_ENTRIES else max;
      m, lru := map[], [];
    }

    /** `list.MoveToFront`. */
    method MoveToFront(el: Item)
      requires Valid() && el in lru
      modifies this`lru
      ensures Valid() && lru != [] && lru[0] == el
      ensures Order() == Touch(old(Order()), el.key)
    {
      var i :| 0 <= i < |lru| && lru[i] == el;
      MovedLinked(m, lru, i);
      lru := [el] + lru[..i] + lru[i + 1..];
    }

    method Get(rel: string) returns (nodes: Option<Nodes>)
      requires Valid()
      modifies this`lru
      ensures Valid() && Vals() == old(Vals())
      ensures nodes.Some? <==> CacheKey(rel) in old(Order())
      ensures nodes.Some? ==> CacheKey(rel) in m && nodes.value == m[CacheKey(rel)].nodes
      ensures Order() == if nodes.Some? then Touch(old(Order()), CacheKey(rel)) else old(Order())
      ensures Abs() == ListingCache.Step(old(Abs()), ListingCache.Op.Get(CacheKey(rel)), max)
    {
      var key := CacheKey(rel);
      KeysAreListed(m, lru);
      if key !in m {
        return None;
      }
      var el := m[key];
      MoveToFront(el);
      return Some(el.nodes);
    }

    /** Removes the least recently used item. */
    method Evict()
      requires Linked(m, lru) && lru != []
      modifies this
      ensures Linked(m, lru) && lru == old(lru)[..|old(lru)| - 1] && Order() == old(Order())[..|old(lru)| - 1]
      ensures forall k :: k in m ==> k in old(m) && m[k] == old(m)[k]
    {
      EvictedLinked(m, lru);
      var item := lru[|lru| - 1];
      lru := lru[..|lru| - 1];
      m := m - {item.key};
    }

    /** The new listing is in front; at most the least recently used one has gone. */
    method Set(rel: string, nodes: Nodes)
      requires Valid()
      modifies this, m.Values
      ensures Valid() && Order() == Take(Touch(old(Order()), CacheKey(rel)), max)
      ensures Vals() == Kept(old(Vals())[CacheKey(rel) := nodes], Order())
      ensures Abs() == ListingCache.Step(old(Abs()), ListingCache.Op.Set(CacheKey(rel), nodes), max)
      ensures forall k :: k in m ==> (k in old(m) && m[k] == old(m)[k]) || fresh(m[k])
    {
      var key := CacheKey(rel);
      KeysAreListed(m, lru);
      if key in m {
        Replace(m[key], nodes);
      } else {
        Insert(key, nodes);
      }
    }

    method Replace(el: Item, nodes: Nodes)
      requires Valid() && el.key in m && m[el.key] == el
      modifies this, el
      ensures m == old(m)
      ensures Valid() && Order() == Take(Touch(old(Order()), el.key), max)
      ensures Vals() == Kept(old(Vals())[el.key := nodes], Order())
    {
      hide Linked, Except, Keys;
      KeysAreListed(m, lru);
      LinkedKeys(m, lru);
      ExceptDistinct(Order(), el.key);
      el.nodes := nodes;
      MoveToFront(el);
      KeysAreListed(m, lru);
    }

    method Insert(key: Key, nodes: Nodes)
      requires Valid() && key !in m
      modifies this
      ensures Valid() && Order() == Take(Touch(old(Order()), key), max)
      ensures Vals() == Kept(old(Vals())[key := nodes], Order())
      ensures forall k :: k in m ==> (k in old(m) && m[k] == old(m)[k]) || fresh(m[k])
    {
      hide Linked, Touch, Keys, Take;
      var el := new Item(key, nodes);
      AddedLinked(m, lru, el);
      lru := [el] + lru;
      m := m[key := el];
      ghost var filled := m;
      EvictOverflow();
      KeysAreListed(m, lru);
      assert forall k :: k in m ==> m[k].nodes == old(Vals())[key := nodes][k];
      assert forall k :: k in m <==> k in old(Vals())[key := nodes] && k in Order();
    }

    /** The eviction loop. */
    method EvictOverflow()
      requires Linked(m, lru)
      modifies this
      ensures Linked(m, lru) && Order() == Take(old(Order()), max) && |lru| <= max
      ensures forall k :: k in m ==> k in old(m) && m[k] == old(m)[k]
      ensures forall k :: k in old(m) && k in Order() ==> k in m
    {
      hide Linked;
      ghost var order := Order();
      while |lru| > max
        invariant Linked(m, lru)
        invariant |lru| <= |order| && Order() == order[..|lru|] && (|lru| == |order| || |lru| >= max)
        invariant forall k :: k in m ==> k in old(m) && m[k] == old(m)[k]
        decreases |lru|
      {
        Evict();
      }
      KeysAreListed(m, lru);
    }

    method Invalidate()
      modifies this
      ensures Abs() == ListingCache.EMPTY && m == map[] && lru == [] && (max >= 1 ==> Valid())
    {
      m := map[];
      lru := [];
    }
  }
}
