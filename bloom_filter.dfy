/**
 * The BloomFilter class of bloom-filter/bloom_filter.cpp: a bit array of
 * `size` bits and `k` probes per item. Probe `seed` of an item is the
 * position hash(item, seed) % size, where `hash` stands for std::hash of
 * the item salted with the seed; it is a parameter of the model. Pure
 * functions state what an insertion and a query do to and with the bit
 * array; the class is proved to follow them.
 */
module Bloom {

  /** std::hash<string> applied to the item salted with the seed. */
  type Hash = (string, nat) -> nat

  /** No probing can happen when there are no bits, unless there are no probes. */
  predicate Probeable(size: int, k: int) {
    size > 0 || k <= 0
  }

  /** The private `hash`: probe number `seed` of `item`, reduced modulo the number of bits. */
  function Probe(h: Hash, size: int, item: string, seed: nat): (pos: nat)
    requires size > 0
    ensures pos < size
  {
    h(item, seed) % size
  }

  /** Position j is one of the first `n` probes of `item`. */
  ghost predicate IsProbe(h: Hash, size: int, item: string, n: int, j: int)
    requires size > 0
  {
    exists seed: nat :: seed < n && Probe(h, size, item, seed) == j
  }

  /** A new filter's bits: m bits, all false. */
  function Cleared(m: nat): (r: seq<bool>)
    ensures |r| == m && forall j :: 0 <= j < m ==> !r[j]
  {
    seq(m, _ => false)
  }

  /** The bits after the first n rounds of `insert`'s loop. */
  function SetProbes(h: Hash, size: int, bits: seq<bool>, item: string, n: nat): (r: seq<bool>)
    requires |bits| == size && (n == 0 || size > 0)
    ensures |r| == |bits|
    decreases n
  {
    if n == 0 then bits
    else SetProbes(h, size, bits, item, n - 1)[Probe(h, size, item, n - 1) := true]
  }

  /** The bits after `insert(item)`: all k rounds (none when k <= 0). */
  function Inserted(h: Hash, size: int, k: int, bits: seq<bool>, item: string): (r: seq<bool>)
    requires |bits| == size && Probeable(size, k)
    ensures |r| == |bits|
  {
    SetProbes(h, size, bits, item, if k < 0 then 0 else k)
  }

  /** What `possiblyContains(item)` answers: every one of the k probed bits is set. */
  predicate MayContain(h: Hash, size: int, k: int, bits: seq<bool>, item: string)
    requires |bits| == size && Probeable(size, k)
  {
    forall seed: nat :: seed < k ==> bits[Probe(h, size, item, seed)]
  }

  /** The bits after inserting `items` in order. */
  function InsertAll(h: Hash, size: int, k: int, bits: seq<bool>, items: seq<string>): (r: seq<bool>)
    requires |bits| == size && Probeable(size, k)
    ensures |r| == |bits|
    decreases |items|
  {
    if items == [] then bits
    else InsertAll(h, size, k, Inserted(h, size, k, bits, items[0]), items[1..])
  }

  /** Every bit set in a is set in b. */
  ghost predicate Covers(a: seq<bool>, b: seq<bool>) {
    |a| == |b| && forall j :: 0 <= j < |a| && a[j] ==> b[j]
  }

  // ---------------------------------------------------------------------
  // What `insert` does to the bits

  /** After n rounds, bit j is set iff it was set before or j is one of the first n probes. */
  lemma {:induction false} SetProbesBits(h: Hash, size: int, bits: seq<bool>, item: string, n: nat, j: int)
    requires |bits| == size && size > 0 && 0 <= j < size
    ensures SetProbes(h, size, bits, item, n)[j] <==> bits[j] || IsProbe(h, size, item, n, j)
    decreases n
  {
    if n > 0 {
      SetProbesBits(h, size, bits, item, n - 1, j);
      if Probe(h, size, item, n - 1) == j {
        assert IsProbe(h, size, item, n, j);
      } else if IsProbe(h, size, item, n, j) {
        var seed: nat :| seed < n && Probe(h, size, item, seed) == j;
        assert IsProbe(h, size, item, n - 1, j);
      }
    }
  }

  /**
   * `insert(item)` sets every probed position and leaves every other bit as
   * it was; the length never changes.
   */
  lemma InsertedBits(h: Hash, size: int, k: int, bits: seq<bool>, item: string)
    requires |bits| == size && Probeable(size, k)
    ensures |Inserted(h, size, k, bits, item)| == |bits|
    ensures forall j :: 0 <= j < size ==>
      (Inserted(h, size, k, bits, item)[j] <==> bits[j] || IsProbe(h, size, item, k, j))
  {
    if size > 0 {
      forall j | 0 <= j < size
        ensures Inserted(h, size, k, bits, item)[j] <==> bits[j] || IsProbe(h, size, item, k, j)
      {
        SetProbesBits(h, size, bits, item, if k < 0 then 0 else k, j);
      }
    }
  }

  /** `insert` never clears a bit. */
  lemma InsertMonotone(h: Hash, size: int, k: int, bits: seq<bool>, item: string)
    requires |bits| == size && Probeable(size, k)
    ensures Covers(bits, Inserted(h, size, k, bits, item))
  {
    InsertedBits(h, size, k, bits, item);
  }

  /** Inserting the same item twice gives the same bits as inserting it once. */
  lemma InsertIdempotent(h: Hash, size: int, k: int, bits: seq<bool>, item: string)
    requires |bits| == size && Probeable(size, k)
    ensures Inserted(h, size, k, Inserted(h, size, k, bits, item), item) == Inserted(h, size, k, bits, item)
  {
    var once := Inserted(h, size, k, bits, item);
    InsertedBits(h, size, k, bits, item);
    InsertedBits(h, size, k, once, item);
  }

  /** The order of two insertions does not matter. */
  lemma InsertCommutes(h: Hash, size: int, k: int, bits: seq<bool>, x: string, y: string)
    requires |bits| == size && Probeable(size, k)
    ensures Inserted(h, size, k, Inserted(h, size, k, bits, x), y)
         == Inserted(h, size, k, Inserted(h, size, k, bits, y), x)
  {
    InsertedBits(h, size, k, bits, x);
    InsertedBits(h, size, k, bits, y);
    InsertedBits(h, size, k, Inserted(h, size, k, bits, x), y);
    InsertedBits(h, size, k, Inserted(h, size, k, bits, y), x);
  }

  // ---------------------------------------------------------------------
  // No false negatives

  /** A query can only turn from "no" to "probably" as bits are set. */
  lemma MayContainCovered(h: Hash, size: int, k: int, a: seq<bool>, b: seq<bool>, item: string)
    requires |a| == size && Probeable(size, k) && Covers(a, b) && MayContain(h, size, k, a, item)
    ensures MayContain(h, size, k, b, item)
  {
  }

  /** Right after `insert(item)`, `possiblyContains(item)` is true. */
  lemma InsertThenContains(h: Hash, size: int, k: int, bits: seq<bool>, item: string)
    requires |bits| == size && Probeable(size, k)
    ensures MayContain(h, size, k, Inserted(h, size, k, bits, item), item)
  {
    InsertedBits(h, size, k, bits, item);
    forall seed: nat | seed < k ensures Inserted(h, size, k, bits, item)[Probe(h, size, item, seed)] {
      assert IsProbe(h, size, item, k, Probe(h, size, item, seed));
    }
  }

  /** Further insertions only set bits. */
  lemma {:induction false} InsertAllGrows(h: Hash, size: int, k: int, bits: seq<bool>, items: seq<string>)
    requires |bits| == size && Probeable(size, k)
    ensures Covers(bits, InsertAll(h, size, k, bits, items))
    decreases |items|
  {
    if items != [] {
      var next := Inserted(h, size, k, bits, items[0]);
      InsertMonotone(h, size, k, bits, items[0]);
      InsertAllGrows(h, size, k, next, items[1..]);
    }
  }

  /** After `insert(item)`, `possiblyContains(item)` stays true whatever is inserted later. */
  lemma NoFalseNegatives(h: Hash, size: int, k: int, bits: seq<bool>, item: string, later: seq<string>)
    requires |bits| == size && Probeable(size, k)
    ensures MayContain(h, size, k, InsertAll(h, size, k, Inserted(h, size, k, bits, item), later), item)
  {
    var once := Inserted(h, size, k, bits, item);
    InsertThenContains(h, size, k, bits, item);
    InsertAllGrows(h, size, k, once, later);
    MayContainCovered(h, size, k, once, InsertAll(h, size, k, once, later), item);
  }

  /** Every item of a run of inserts is reported as possibly present afterwards. */
  lemma {:induction false} InsertedAreContained(h: Hash, size: int, k: int, bits: seq<bool>, items: seq<string>, x: string)
    requires |bits| == size && Probeable(size, k) && x in items
    ensures MayContain(h, size, k, InsertAll(h, size, k, bits, items), x)
    decreases |items|
  {
    if items[0] == x {
      NoFalseNegatives(h, size, k, bits, x, items[1..]);
    } else {
      InsertedAreContained(h, size, k, Inserted(h, size, k, bits, items[0]), items[1..], x);
    }
  }

  /** A "no" from a filter that started empty means the item was never inserted. */
  lemma DefinitelyAbsent(h: Hash, size: nat, k: int, items: seq<string>, x: string)
    requires Probeable(size, k)
    requires !MayContain(h, size, k, InsertAll(h, size, k, Cleared(size), items), x)
    ensures x !in items
  {
    if x in items {
      InsertedAreContained(h, size, k, Cleared(size), items, x);
    }
  }

  class BloomFilter {
    /** The number of bits. */
    const size: int
    /** The number of hash functions, i.e. probes per item. */
    const k: int
    const hash: Hash
    const bits: array<bool>

    ghost predicate Valid()
      reads this
    {
      bits.Length == size
    }

    /** `bitArray.resize(m, false)`: m bits, all clear. */
    constructor (m: int, k: int, hash: Hash)
      requires m >= 0
      ensures Valid() && fresh(bits)
      ensures size == m && this.k == k && this.hash == hash
      ensures bits[..] == Cleared(m)
      ensures forall j :: 0 <= j < m ==> !bits[j]
    {
      size := m;
      this.k := k;
      this.hash := hash;
      bits := new bool[m](_ => false);
    }

    /** Set the k probed bits of item. */
    method Insert(item: string)
      requires Valid() && Probeable(size, k)
      modifies bits
      ensures bits[..] == Inserted(hash, size, k, old(bits[..]), item)
    {
      var i := 0;
      while i < k
        invariant 0 <= i && (i == 0 || i <= k)
        invariant bits[..] == SetProbes(hash, size, old(bits[..]), item, i)
      {
        var pos := Probe(hash, size, item, i);
        bits[pos] := true;
        i := i + 1;
      }
    }

    /** False as soon as a probed bit is clear ("definitely not present"), true otherwise. */
    method PossiblyContains(item: string) returns (r: bool)
      requires Valid() && Probeable(size, k)
      ensures r == MayContain(hash, size, k, bits[..], item)
      ensures !r <==> exists seed: nat :: seed < k && !bits[Probe(hash, size, item, seed)]
    {
      var i := 0;
      while i < k
        invariant 0 <= i && (i == 0 || i <= k)
        invariant forall seed: nat :: seed < i ==> bits[Probe(hash, size, item, seed)]
      {
        var pos := Probe(hash, size, item, i);
        if !bits[pos] {
          return false;
        }
        i := i + 1;
      }
      return true;
    }
  }

  /**
   * bloom-filter/bloom_filter.cpp's main: 20 bits, 3 probes, apple, banana
   * and cherry inserted; apple and banana are reported present, and mango's
   * answer depends on the hash.
   */
  method Demo(h: Hash) returns (apple: bool, banana: bool, mango: bool)
    ensures apple && banana
    ensures mango == MayContain(h, 20, 3, InsertAll(h, 20, 3, Cleared(20), ["apple", "banana", "cherry"]), "mango")
  {
    var bf := new BloomFilter(20, 3, h);
    bf.Insert("apple");
    bf.Insert("banana");
    bf.Insert("cherry");
    ghost var items := ["apple", "banana", "cherry"];
    assert items[1..][1..][1..] == [];
    assert bf.bits[..] == InsertAll(h, 20, 3, Cleared(20), items);
    InsertedAreContained(h, 20, 3, Cleared(20), items, "apple");
    InsertedAreContained(h, 20, 3, Cleared(20), items, "banana");
    apple := bf.PossiblyContains("apple");
    banana := bf.PossiblyContains("banana");
    mango := bf.PossiblyContains("mango");
  }
}
