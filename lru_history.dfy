/**
 * LRU eviction over a whole run of operations: starting from an empty cache,
 * the recency list is always the cached keys sorted by the time each was
 * last touched by `get` or `put`, newest first, so the key `put` evicts is
 * the cached key touched longest ago.
 */
module LruHistory {
  import opened LruSpec

  /** One public call on the cache. */
  datatype Op = GetOp(key: int) | PutOp(key: int, value: int)

  function Apply(c: Cache, op: Op): (r: Cache)
    ensures r.capacity == c.capacity
  {
    match op
    case GetOp(k) => Get(c, k).1
    case PutOp(k, v) => Put(c, k, v)
  }

  /** The cache after the calls `ops`, oldest first. */
  function Run(c: Cache, ops: seq<Op>): (r: Cache)
    ensures r.capacity == c.capacity
    decreases |ops|
  {
    if ops == [] then c else Apply(Run(c, ops[..|ops| - 1]), ops[|ops| - 1])
  }

  /** The position in `ops` of the last call naming `k`, or -1 if none does. */
  function LastTouch(ops: seq<Op>, k: int): (t: int)
    ensures -1 <= t < |ops|
    decreases |ops|
  {
    if ops == [] then -1
    else if ops[|ops| - 1].key == k then |ops| - 1
    else LastTouch(ops[..|ops| - 1], k)
  }

  /** `order` lists its keys by strictly decreasing last touch in `ops`. */
  ghost predicate ByRecency(order: seq<int>, ops: seq<Op>) {
    forall i, j :: 0 <= i < j < |order| ==> LastTouch(ops, order[i]) > LastTouch(ops, order[j])
  }

  /** A later call on a key outside `s` does not disturb the order of `s`. */
  lemma OtherCallKeepsOrder(s: seq<int>, ops: seq<Op>, op: Op)
    requires ByRecency(s, ops) && op.key !in s
    ensures ByRecency(s, ops + [op])
  {
  }

  /** The key of the newest call goes in front of every key it did not name. */
  lemma NewestInFront(s: seq<int>, ops: seq<Op>, op: Op)
    requires ByRecency(s, ops) && op.key !in s
    ensures ByRecency([op.key] + s, ops + [op])
  {
  }

  /** Erasing a key keeps the others in recency order. */
  lemma {:induction false} EraseKeepsOrder(s: seq<int>, k: int, ops: seq<Op>)
    requires ByRecency(s, ops)
    ensures ByRecency(Erase(s, k), ops)
  {
    if s != [] {
      var tail := s[1..];
      assert ByRecency(tail, ops) by {
        forall i, j | 0 <= i < j < |tail|
          ensures LastTouch(ops, tail[i]) > LastTouch(ops, tail[j])
        {
          assert tail[i] == s[i + 1] && tail[j] == s[j + 1];
        }
      }
      EraseKeepsOrder(tail, k, ops);
      if s[0] != k {
        var e := Erase(tail, k);
        EraseMembers(tail, k);
        var s' := [s[0]] + e;
        forall i, j | 0 <= i < j < |s'|
          ensures LastTouch(ops, s'[i]) > LastTouch(ops, s'[j])
        {
          if i == 0 {
            assert s'[j] == e[j - 1];
            assert e[j - 1] in tail;
            var m :| 0 <= m < |tail| && tail[m] == e[j - 1];
            assert s[m + 1] == e[j - 1];
          } else {
            assert s'[i] == e[i - 1] && s'[j] == e[j - 1];
          }
        }
      }
    }
  }

  /** One more call keeps the recency list sorted by last touch. */
  lemma ApplyKeepsOrder(c: Cache, ops: seq<Op>, op: Op)
    requires Inv(c) && ByRecency(c.order, ops)
    ensures ByRecency(Apply(c, op).order, ops + [op])
  {
    var k := op.key;
    if k in c.values {
      EraseKeepsOrder(c.order, k, ops);
      EraseMembers(c.order, k);
      NewestInFront(Erase(c.order, k), ops, op);
    } else {
      assert k !in c.order;
      if op.GetOp? {
        OtherCallKeepsOrder(c.order, ops, op);
      } else if |c.values| == c.capacity && c.order != [] {
        var rest := c.order[..|c.order| - 1];
        assert ByRecency(rest, ops);
        assert k !in rest;
        NewestInFront(rest, ops, op);
      } else {
        NewestInFront(c.order, ops, op);
      }
    }
  }

  /**
   * From an empty cache of capacity at least one, every run keeps the
   * invariant and keeps the list ordered newest-touched first.
   */
  lemma {:induction false} RunOrdered(capacity: int, ops: seq<Op>)
    requires capacity >= 1
    ensures Inv(Run(Empty(capacity), ops))
    ensures ByRecency(Run(Empty(capacity), ops).order, ops)
    ensures Run(Empty(capacity), ops).capacity == capacity
    decreases |ops|
  {
    if ops != [] {
      var prefix := ops[..|ops| - 1];
      var op := ops[|ops| - 1];
      RunOrdered(capacity, prefix);
      var c := Run(Empty(capacity), prefix);
      match op {
        case GetOp(k) => GetPreservesInv(c, k);
        case PutOp(k, v) => PutPreservesInv(c, k, v);
      }
      ApplyKeepsOrder(c, prefix, op);
      assert prefix + [op] == ops;
    }
  }

  /**
   * When a run has filled the cache and a new key is put, the key evicted is
   * the last of the recency list, every other cached key was touched more
   * recently, and the new key takes the freed place.
   */
  lemma EvictsLeastRecentlyUsed(ops: seq<Op>, capacity: int, k: int, v: int)
    requires capacity >= 1
    requires k !in Run(Empty(capacity), ops).values
    requires |Run(Empty(capacity), ops).values| == capacity
    ensures var c := Run(Empty(capacity), ops);
      && c.order != []
      && var lru := c.order[|c.order| - 1];
      && lru in c.values
      && (forall x :: x in c.values && x != lru ==> LastTouch(ops, x) > LastTouch(ops, lru))
      && Put(c, k, v).values.Keys == c.values.Keys - {lru} + {k}
  {
    RunOrdered(capacity, ops);
    var c := Run(Empty(capacity), ops);
    PutEvicts(c, k, v);
    var n := |c.order|;
    var lru := c.order[n - 1];
    forall x | x in c.values && x != lru
      ensures LastTouch(ops, x) > LastTouch(ops, lru)
    {
      var i :| 0 <= i < n && c.order[i] == x;
    }
  }
}
