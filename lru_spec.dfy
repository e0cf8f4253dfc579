/**
 * The observable behaviour of the fixed-capacity LRU cache of
 * lru-cache/lru_cache.cpp, stated on values: the keys from most to least
 * recently used, the stored values and the capacity. The arena-based class
 * in module Lru is proved to follow these functions step for step.
 */
module LruSpec {

  /** What `get` answers for a key that is not cached. */
  const Miss: int := -1

  /** Capacity, keys from most recently used (front) to least, and values. */
  datatype Cache = Cache(capacity: int, order: seq<int>, values: map<int, int>)

  predicate Distinct(s: seq<int>) {
    forall i, j :: 0 <= i < j < |s| ==> s[i] != s[j]
  }

  /**
   * The cache invariant: the recency list holds every key once, its keys are
   * exactly the keys of the index, and there are at most `capacity` of them.
   */
  ghost predicate Inv(c: Cache) {
    && Distinct(c.order)
    && (forall i :: 0 <= i < |c.order| ==> c.order[i] in c.values)
    && (forall k :: k in c.values ==> k in c.order)
    && |c.values| == |c.order|
    && |c.order| <= c.capacity
  }

  /** A freshly constructed cache: the list is just head and tail. */
  function Empty(capacity: int): (c: Cache)
    ensures c.capacity == capacity && |c.order| == 0
    ensures capacity >= 0 ==> Inv(c)
  {
    Cache(capacity, [], map[])
  }

  /** `s` with every occurrence of `k` taken out, the rest in order. */
  function Erase(s: seq<int>, k: int): seq<int> {
    if s == [] then []
    else if s[0] == k then Erase(s[1..], k)
    else [s[0]] + Erase(s[1..], k)
  }

  /** The recency list after `moveToFront` of the node holding `k`. */
  function Promote(order: seq<int>, k: int): seq<int> {
    [k] + Erase(order, k)
  }

  /** `get`: the answer (Miss when absent) and the cache afterwards. */
  function Get(c: Cache, k: int): (r: (int, Cache))
    ensures r.1.capacity == c.capacity && r.1.values == c.values
  {
    if k in c.values then (c.values[k], c.(order := Promote(c.order, k)))
    else (Miss, c)
  }

  /**
   * `popTail` followed by erasing the popped key from the index; an empty
   * list pops nothing.
   */
  function Evict(c: Cache): (r: Cache)
    ensures r.capacity == c.capacity && r.order <= c.order && r.values.Keys <= c.values.Keys
    ensures c.order != [] ==> |r.order| == |c.order| - 1
  {
    if c.order == [] then c
    else
      var lru := c.order[|c.order| - 1];
      c.(order := c.order[..|c.order| - 1], values := c.values - {lru})
  }

  /** `put`: update and promote a present key, or evict when full and insert at the front. */
  function Put(c: Cache, k: int, v: int): (r: Cache)
    ensures r.capacity == c.capacity
    ensures r.order != [] && r.order[0] == k && k in r.values && r.values[k] == v
  {
    if k in c.values then c.(order := Promote(c.order, k), values := c.values[k := v])
    else
      var room := if |c.values| == c.capacity then Evict(c) else c;
      room.(order := [k] + room.order, values := room.values[k := v])
  }

  /** The `debugPrint` listing: (key, value) pairs from most to least recent. */
  function Listing(c: Cache): (r: seq<(int, int)>)
    requires forall i :: 0 <= i < |c.order| ==> c.order[i] in c.values
    ensures |r| == |c.order|
    ensures forall i :: 0 <= i < |r| ==> r[i].0 == c.order[i] && r[i].1 == c.values[c.order[i]]
    decreases |c.order|
  {
    if c.order == [] then []
    else [(c.order[0], c.values[c.order[0]])] + Listing(c.(order := c.order[1..]))
  }

  // ---------------------------------------------------------------------
  // Facts about Erase

  lemma {:induction false} EraseMembers(s: seq<int>, k: int)
    ensures forall x :: x in Erase(s, k) <==> x in s && x != k
    ensures |Erase(s, k)| <= |s|
  {
    if s != [] {
      EraseMembers(s[1..], k);
      assert s == [s[0]] + s[1..];
    }
  }

  lemma {:induction false} EraseDistinct(s: seq<int>, k: int)
    requires Distinct(s)
    ensures Distinct(Erase(s, k))
    ensures |Erase(s, k)| == if k in s then |s| - 1 else |s|
  {
    if s != [] {
      assert Distinct(s[1..]);
      EraseDistinct(s[1..], k);
      EraseMembers(s[1..], k);
      assert s == [s[0]] + s[1..];
      assert s[0] !in s[1..];
    }
  }

  lemma {:induction false} EraseAbsent(s: seq<int>, k: int)
    requires k !in s
    ensures Erase(s, k) == s
  {
    if s != [] {
      EraseAbsent(s[1..], k);
      assert s == [s[0]] + s[1..];
    }
  }

  /** In a list without duplicates, erasing the key at position p cuts out exactly that position. */
  lemma {:induction false} EraseAt(s: seq<int>, p: int)
    requires Distinct(s) && 0 <= p < |s|
    ensures Erase(s, s[p]) == s[..p] + s[p + 1..]
  {
    if p == 0 {
      assert s[0] !in s[1..];
      EraseAbsent(s[1..], s[0]);
    } else {
      assert Distinct(s[1..]);
      EraseAt(s[1..], p - 1);
      assert s[1..][p - 1] == s[p];
      assert s[1..][..p - 1] == s[1..p];
      assert s[1..][p..] == s[p + 1..];
      assert s[..p] == [s[0]] + s[1..p];
    }
  }

  lemma EraseIdempotent(s: seq<int>, k: int)
    ensures Erase(Erase(s, k), k) == Erase(s, k)
  {
  }

  // ---------------------------------------------------------------------
  // Invariant preservation

  lemma PromoteInv(order: seq<int>, k: int)
    requires Distinct(order) && k in order
    ensures Distinct(Promote(order, k))
    ensures |Promote(order, k)| == |order|
    ensures forall x :: x in Promote(order, k) <==> x in order
  {
    EraseDistinct(order, k);
    EraseMembers(order, k);
  }

  /** Every element of s is a key of m, when every element of s is in t and every element of t is. */
  lemma KeysCover(s: seq<int>, t: seq<int>, m: map<int, int>)
    requires forall x :: x in s ==> x in t
    requires forall i :: 0 <= i < |t| ==> t[i] in m
    ensures forall i :: 0 <= i < |s| ==> s[i] in m
  {
    forall i | 0 <= i < |s| ensures s[i] in m {
      var x := s[i];
      assert x in s;
      var j :| 0 <= j < |t| && t[j] == x;
    }
  }

  /** `get` keeps the list and the index in bijection and never changes the count. */
  lemma GetPreservesInv(c: Cache, k: int)
    requires Inv(c)
    ensures Inv(Get(c, k).1)
    ensures |Get(c, k).1.values| == |c.values|
  {
    if k in c.values {
      PromoteInv(c.order, k);
      KeysCover(Promote(c.order, k), c.order, c.values);
    }
  }

  /** `put` keeps the bijection and, for a capacity of at least one, `count <= capacity`. */
  lemma PutPreservesInv(c: Cache, k: int, v: int)
    requires Inv(c) && c.capacity >= 1
    ensures Inv(Put(c, k, v))
  {
    if k in c.values {
      PromoteInv(c.order, k);
      KeysCover(Promote(c.order, k), c.order, c.values);
    } else if |c.values| == c.capacity {
      EvictInv(c);
    }
  }

  lemma EvictInv(c: Cache)
    requires Inv(c) && c.order != []
    ensures var e := Evict(c);
      && Distinct(e.order)
      && (forall x :: x in e.values <==> x in e.order)
      && |e.values| == |e.order| == |c.order| - 1
  {
  }

  // ---------------------------------------------------------------------
  // What `get` and `put` do

  /** A miss returns -1 and changes neither the order nor the contents. */
  lemma GetMiss(c: Cache, k: int)
    requires k !in c.values
    ensures Get(c, k) == (Miss, c)
  {
  }

  /**
   * A hit returns the stored value, moves the key to the front, keeps every
   * value, the count, and the relative order of the other keys.
   */
  lemma GetHit(c: Cache, k: int)
    requires Inv(c) && k in c.values
    ensures var (r, c') := Get(c, k);
      && r == c.values[k]
      && c'.order[0] == k
      && Erase(c'.order, k) == Erase(c.order, k)
      && c'.values == c.values
      && |c'.order| == |c.order|
      && c'.capacity == c.capacity
  {
    PromoteInv(c.order, k);
    EraseIdempotent(c.order, k);
  }

  /**
   * A stored value of -1 reads exactly like a miss: `get` answers Miss iff
   * the key is absent or its value is -1.
   */
  lemma MissIsAmbiguous(c: Cache, k: int)
    ensures Get(c, k).0 == Miss <==> k !in c.values || c.values[k] == Miss
  {
  }

  /** Repeating a `get` with nothing in between answers the same and changes nothing more. */
  lemma GetTwice(c: Cache, k: int)
    ensures Get(Get(c, k).1, k) == Get(c, k)
  {
    if k in c.values {
      EraseMembers(c.order, k);
      EraseAbsent(Erase(c.order, k), k);
    }
  }

  /** `put` on a cached key replaces only that value, moves it to the front and keeps the count. */
  lemma PutExisting(c: Cache, k: int, v: int)
    requires k in c.values
    ensures var c' := Put(c, k, v);
      && c'.values == c.values[k := v]
      && c'.order[0] == k
      && Erase(c'.order, k) == Erase(c.order, k)
      && |c'.values| == |c.values|
  {
    EraseIdempotent(c.order, k);
  }

  /** `put` of a new key with room to spare inserts it at the front and evicts nothing. */
  lemma PutFresh(c: Cache, k: int, v: int)
    requires Inv(c) && k !in c.values && |c.values| < c.capacity
    ensures var c' := Put(c, k, v);
      && c'.order == [k] + c.order
      && c'.values == c.values[k := v]
      && |c'.values| == |c.values| + 1
  {
  }

  /**
   * `put` of a new key on a full cache removes exactly the last key of the
   * recency list from both the list and the index, then puts the new key in
   * front; the count stays at capacity.
   */
  lemma PutEvicts(c: Cache, k: int, v: int)
    requires Inv(c) && c.capacity >= 1 && k !in c.values && |c.values| == c.capacity
    ensures c.order != []
    ensures var lru := c.order[|c.order| - 1]; var c' := Put(c, k, v);
      && c'.order == [k] + c.order[..|c.order| - 1]
      && lru !in c'.values && lru !in c'.order
      && c'.values == (c.values - {lru})[k := v]
      && |c'.values| == |c.values|
  {
  }

  /**
   * With capacity 0 the full-cache branch pops nothing (the list is empty)
   * and inserts anyway, so the count passes the capacity and keeps growing.
   */
  lemma ZeroCapacityGrows()
    ensures |Put(Put(Empty(0), 1, 10), 2, 20).values| == 2
  {
  }
}
