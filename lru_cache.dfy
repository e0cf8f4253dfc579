/**
 * The LRUCache class of lru-cache/lru_cache.cpp over the arena of module
 * LruArena. The index is the key -> slot map that stands for the
 * unordered_map of node pointers. Ghost fields give the public view (Order,
 * Contents) and the live slots in list order (Slots); each public method is
 * proved to change the view exactly as the matching function of LruSpec.
 */
module Lru {
  import LruSpec
  import opened LruArena
  import opened LruLayout

  class LruCache {
    const capacity: int
    /** The node storage; slot 0 is the dummy head and slot 1 the dummy tail. */
    const nodes: array<Node>
    /** The key -> node index (the unordered_map), nodes given by slot. */
    var index: map<int, int>

    /** Keys from most to least recently used. */
    ghost var Order: seq<int>
    /** The value cached for each key. */
    ghost var Contents: map<int, int>
    /** The live slots in list order; Slots[i] holds Order[i]. */
    ghost var Slots: seq<int>

    ghost function Model(): LruSpec.Cache
      reads this
    {
      LruSpec.Cache(capacity, Order, Contents)
    }

    ghost predicate Valid()
      reads this, nodes
    {
      Represents(capacity, nodes[..], Slots, Order, Contents, index)
    }

    /** A new cache: head.next is the tail and tail.prev the head. */
    constructor (cap: int)
      requires cap >= 1
      ensures Valid() && fresh(nodes)
      ensures Model() == LruSpec.Empty(cap)
      ensures nodes[Head].next == Tail && nodes[Tail].prev == Head
    {
      capacity := cap;
      nodes := new Node[cap + 2](_ => Node(-1, -1, Nil, Nil));
      index := map[];
      Order, Contents, Slots := [], map[], [];
      new;
      nodes[Head] := nodes[Head].(next := Tail);
      nodes[Tail] := nodes[Tail].(prev := Head);
    }

    /** `node->value = value` on a node of the list s. */
    method SetValue(node: int, value: int, ghost s: seq<int>)
      requires Linked(nodes[..], s) && 2 <= node < nodes.Length
      modifies nodes
      ensures Linked(nodes[..], s)
      ensures nodes[..] == old(nodes[..])[node := old(nodes[node]).(value := value)]
    {
      SetValueLinked(nodes[..], s, node, value);
      nodes[node] := nodes[node].(value := value);
    }

    /** Unlink the node at position p of the list s; its own links stay as they were. */
    method RemoveNode(node: int, ghost s: seq<int>, ghost p: int)
      requires Linked(nodes[..], s) && 0 <= p < |s| && s[p] == node
      modifies nodes
      ensures Linked(nodes[..], Cut(s, p))
      ensures SamePayload(nodes[..], old(nodes[..]))
      ensures nodes[node] == old(nodes[node])
    {
      ghost var a := nodes[..];
      var prev := nodes[node].prev;
      var next := nodes[node].next;
      nodes[prev] := nodes[prev].(next := next);
      nodes[next] := nodes[next].(prev := prev);
      UnlinkLinked(a, s, p);
      assert nodes[..] == Unlink(a, node);
    }

    /** Link the unlisted node right after the head, in front of the list s. */
    method AddToFront(node: int, ghost s: seq<int>)
      requires Linked(nodes[..], s) && 2 <= node < nodes.Length && node !in s
      modifies nodes
      ensures Linked(nodes[..], [node] + s)
      ensures SamePayload(nodes[..], old(nodes[..]))
    {
      ghost var a := nodes[..];
      nodes[node] := nodes[node].(next := nodes[Head].next);
      nodes[node] := nodes[node].(prev := Head);
      var first := nodes[Head].next;
      nodes[first] := nodes[first].(prev := node);
      nodes[Head] := nodes[Head].(next := node);
      LinkFrontLinked(a, s, node);
      assert nodes[..] == LinkFront(a, node);
    }

    /** Unlink the node at position p of s and relink it right after the head. */
    method MoveToFront(node: int, ghost s: seq<int>, ghost p: int)
      requires Linked(nodes[..], s) && 0 <= p < |s| && s[p] == node
      modifies nodes
      ensures Linked(nodes[..], [node] + Cut(s, p))
      ensures SamePayload(nodes[..], old(nodes[..]))
    {
      RemoveNode(node, s, p);
      CutDistinct(s, p);
      AddToFront(node, Cut(s, p));
    }

    /** Unlink and return the node before the tail, or Nil when the list is empty. */
    method PopTail(ghost s: seq<int>) returns (node: int)
      requires Linked(nodes[..], s)
      modifies nodes
      ensures s == [] ==> node == Nil && nodes[..] == old(nodes[..])
      ensures s != [] ==> node == s[|s| - 1] && Linked(nodes[..], s[..|s| - 1])
      ensures SamePayload(nodes[..], old(nodes[..]))
    {
      TailPrev(nodes[..], s);
      node := nodes[Tail].prev;
      if node == Head {
        return Nil;
      }
      RemoveNode(node, s, |s| - 1);
    }

    /**
     * `get` behaves as LruSpec.Get: a miss answers -1 and changes nothing, a
     * hit answers the stored value and promotes the key. A stored -1 cannot
     * be told from a miss (LruSpec.MissIsAmbiguous).
     */
    method Get(key: int) returns (r: int)
      requires Valid()
      modifies this, nodes
      ensures Valid()
      ensures (r, Model()) == LruSpec.Get(old(Model()), key)
    {
      if key !in index {
        return LruSpec.Miss;
      }
      var node := index[key];
      ghost var a := nodes[..];
      ghost var p := KeyPosition(capacity, a, Slots, Order, Contents, index, key);
      MoveToFront(node, Slots, p);
      PromoteStep(capacity, a, nodes[..], Slots, Order, Contents, index, p);
      Slots := [node] + Cut(Slots, p);
      Order := [key] + Cut(Order, p);
      r := nodes[node].value;
    }

    /**
     * `put` behaves as LruSpec.Put. A cached key gets the new value and moves
     * to the front. Otherwise a full cache first pops the node before the
     * tail and erases its key from the index, and the new key is linked in
     * front, in the popped slot or in the next slot not yet used.
     */
    method Put(key: int, value: int)
      requires Valid()
      modifies this, nodes
      ensures Valid()
      ensures Model() == LruSpec.Put(old(Model()), key, value)
    {
      if key in index {
        Update(key, value);
      } else {
        ghost var m := Model();
        RepresentsCount(capacity, nodes[..], Slots, Order, Contents, index);
        var slot;
        if |index| == capacity {
          slot := EvictLru();
        } else {
          slot := |index| + 2;
          FreshStep(capacity, nodes[..], Slots, Order, Contents, index);
        }
        assert Model() == if |m.values| == m.capacity then LruSpec.Evict(m) else m;
        LinkNew(slot, key, value);
      }
    }

    /** `put` on a cached key: store the new value in its node and move the node to the front. */
    method Update(key: int, value: int)
      requires Valid() && key in index
      modifies this, nodes
      ensures Valid()
      ensures Model() == LruSpec.Put(old(Model()), key, value)
    {
      var node := index[key];
      ghost var a := nodes[..];
      ghost var p := KeyPosition(capacity, a, Slots, Order, Contents, index, key);
      ghost var slots, order, contents := Slots, Order, Contents;
      Slots, Order, Contents := [slots[p]] + Cut(slots, p), [order[p]] + Cut(order, p), contents[order[p] := value];
      SetValue(node, value, slots);
      MoveToFront(node, slots, p);
      UpdateStep(capacity, a, nodes[..], slots, order, contents, index, p, value);
    }

    /** A full cache pops the node before the tail and erases its key; its slot is returned for reuse. */
    method EvictLru() returns (slot: int)
      requires Valid() && |index| == capacity
      modifies this, nodes
      ensures RepresentsWithFreeSlot(capacity, nodes[..], Slots, Order, Contents, index, slot)
      ensures Model() == LruSpec.Evict(old(Model()))
    {
      RepresentsCount(capacity, nodes[..], Slots, Order, Contents, index);
      ghost var a := nodes[..];
      ghost var last := |Slots| - 1;
      ghost var lru := Order[last];
      slot := PopTail(Slots);
      assert slot == Slots[last];
      EvictStep(capacity, a, nodes[..], Slots, Order, Contents, index);
      var lruKey := nodes[slot].key;
      assert lruKey == lru;
      index := index - {lruKey};
      Slots := Slots[..last];
      Order := Order[..last];
      Contents := Contents - {lruKey};
    }

    /** Store a new node for the absent key in the free slot and link it in front. */
    method LinkNew(slot: int, key: int, value: int)
      requires RepresentsWithFreeSlot(capacity, nodes[..], Slots, Order, Contents, index, slot) && key !in Contents
      modifies this, nodes
      ensures Valid()
      ensures Model() == old(Model()).(order := [key] + old(Order), values := old(Contents)[key := value])
    {
      ghost var b := nodes[..];
      WriteOutsideLinked(b, Slots, slot, Node(key, value, Nil, Nil));
      nodes[slot] := Node(key, value, Nil, Nil);
      AddToFront(slot, Slots);
      InsertStep(capacity, b, nodes[..], Slots, Order, Contents, index, slot, key, value);
      index := index[key := slot];
      Slots := [slot] + Slots;
      Order := [key] + Order;
      Contents := Contents[key := value];
    }

    /** The `debugPrint` walk from head.next to the tail, collecting (key, value) pairs. */
    method Snapshot() returns (entries: seq<(int, int)>)
      requires Valid()
      ensures entries == LruSpec.Listing(Model())
    {
      ghost var listing := LruSpec.Listing(Model());
      entries := [];
      var cur := nodes[Head].next;
      ghost var i := 0;
      while cur != Tail
        invariant 0 <= i <= |Slots|
        invariant cur == if i == |Slots| then Tail else Slots[i]
        invariant entries == listing[..i]
        decreases |Slots| - i
      {
        assert nodes[..][Slots[i]] == nodes[cur];
        assert listing[..i + 1] == listing[..i] + [(nodes[cur].key, nodes[cur].value)];
        entries := entries + [(nodes[cur].key, nodes[cur].value)];
        cur := nodes[cur].next;
        i := i + 1;
      }
      assert listing[..i] == listing;
    }
  }
}
