/**
 * The demonstration run of lru-cache/lru_cache.cpp's main on a cache of
 * capacity 2, with each debugPrint as a snapshot and each get answer
 * returned.
 */
module LruDemo {
  import opened LruSpec
  import Lru

  /** put(1, 10) and put(2, 20) on a new cache of capacity 2. */
  lemma FirstTwoPuts()
    ensures Put(Put(Empty(2), 1, 10), 2, 20) == Cache(2, [2, 1], map[1 := 10, 2 := 20])
    ensures Listing(Cache(2, [2, 1], map[1 := 10, 2 := 20])) == [(2, 20), (1, 10)]
  {
  }

  /** get(1) hits and promotes key 1. */
  lemma GetOnePromotes()
    ensures Get(Cache(2, [2, 1], map[1 := 10, 2 := 20]), 1) == (10, Cache(2, [1, 2], map[1 := 10, 2 := 20]))
    ensures Listing(Cache(2, [1, 2], map[1 := 10, 2 := 20])) == [(1, 10), (2, 20)]
  {
    assert Promote([2, 1], 1) == [1, 2] by {
      assert [2, 1][1..] == [1];
      assert Erase([1], 1) == [];
      assert Erase([2, 1], 1) == [2];
    }
  }

  /** put(3, 30) on the full cache evicts key 2, then get(2) misses. */
  lemma PutThreeEvictsTwo()
    ensures Put(Cache(2, [1, 2], map[1 := 10, 2 := 20]), 3, 30) == Cache(2, [3, 1], map[1 := 10, 3 := 30])
    ensures Get(Cache(2, [3, 1], map[1 := 10, 3 := 30]), 2) == (Miss, Cache(2, [3, 1], map[1 := 10, 3 := 30]))
    ensures Listing(Cache(2, [3, 1], map[1 := 10, 3 := 30])) == [(3, 30), (1, 10)]
  {
  }

  /** put(4, 40) evicts key 1. */
  lemma PutFourEvictsOne()
    ensures Put(Cache(2, [3, 1], map[1 := 10, 3 := 30]), 4, 40) == Cache(2, [4, 3], map[3 := 30, 4 := 40])
    ensures Listing(Cache(2, [4, 3], map[3 := 30, 4 := 40])) == [(4, 40), (3, 30)]
  {
  }

  /** The closing gets: 1 misses, 3 and 4 hit. */
  lemma LastGets()
    ensures Get(Cache(2, [4, 3], map[3 := 30, 4 := 40]), 1).0 == Miss
    ensures Get(Cache(2, [4, 3], map[3 := 30, 4 := 40]), 3) == (30, Cache(2, [3, 4], map[3 := 30, 4 := 40]))
    ensures Get(Cache(2, [3, 4], map[3 := 30, 4 := 40]), 4).0 == 40
  {
    assert Promote([4, 3], 3) == [3, 4] by {
      assert [4, 3][1..] == [3];
      assert Erase([3], 3) == [];
      assert Erase([4, 3], 3) == [4];
    }
  }

  /** Lines 118-125: two puts, a snapshot, get(1), another snapshot. */
  method FillAndTouch() returns (cache: Lru.LruCache, s1: seq<(int, int)>, g1: int, s2: seq<(int, int)>)
    ensures fresh(cache) && fresh(cache.nodes) && cache.Valid()
    ensures cache.Model() == Cache(2, [1, 2], map[1 := 10, 2 := 20])
    ensures s1 == [(2, 20), (1, 10)] && g1 == 10 && s2 == [(1, 10), (2, 20)]
  {
    cache := new Lru.LruCache(2);
    cache.Put(1, 10);
    cache.Put(2, 20);
    FirstTwoPuts();
    s1 := cache.Snapshot();
    g1 := cache.Get(1);
    GetOnePromotes();
    s2 := cache.Snapshot();
  }

  /** Lines 127-133: put(3, 30) evicts 2, get(2) misses, put(4, 40) evicts 1. */
  method EvictTwice(cache: Lru.LruCache) returns (s3: seq<(int, int)>, g2: int, s4: seq<(int, int)>)
    requires cache.Valid() && cache.Model() == Cache(2, [1, 2], map[1 := 10, 2 := 20])
    modifies cache, cache.nodes
    ensures cache.Valid() && cache.Model() == Cache(2, [4, 3], map[3 := 30, 4 := 40])
    ensures s3 == [(3, 30), (1, 10)] && g2 == Miss && s4 == [(4, 40), (3, 30)]
  {
    cache.Put(3, 30);
    PutThreeEvictsTwo();
    s3 := cache.Snapshot();
    g2 := cache.Get(2);
    cache.Put(4, 40);
    PutFourEvictsOne();
    s4 := cache.Snapshot();
  }

  /**
   * The whole run of main: each debugPrint listing (most recent first) and
   * each get answer.
   */
  method Demo() returns (s1: seq<(int, int)>, g1: int, s2: seq<(int, int)>, s3: seq<(int, int)>,
                         g2: int, s4: seq<(int, int)>, g3: int, g4: int, g5: int)
    ensures s1 == [(2, 20), (1, 10)] && g1 == 10 && s2 == [(1, 10), (2, 20)]
    ensures s3 == [(3, 30), (1, 10)] && g2 == Miss
    ensures s4 == [(4, 40), (3, 30)] && g3 == Miss && g4 == 30 && g5 == 40
  {
    var cache;
    cache, s1, g1, s2 := FillAndTouch();
    s3, g2, s4 := EvictTwice(cache);
    LastGets();
    g3 := cache.Get(1);
    g4 := cache.Get(3);
    g5 := cache.Get(4);
  }
}
