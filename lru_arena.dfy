/**
 * The recency list of lru-cache/lru_cache.cpp as an arena: nodes live in
 * numbered slots, slot 0 is the dummy head, slot 1 the dummy tail, and a
 * pointer is a slot number (Nil for nullptr). This module states on
 * sequences what it means for the arena to hold a well-linked list and
 * proves that the pointer rewrites of removeNode and addToFront keep it so.
 */
module LruArena {
  import LruSpec

  const Head: int := 0
  const Tail: int := 1
  const Nil: int := -1

  /** One arena slot: the C++ Node, with pointers as slot numbers. */
  datatype Node = Node(key: int, value: int, prev: int, next: int)

  /** The slot before position i of the live chain s; the head before the first. */
  function PrevOf(s: seq<int>, i: int): int
    requires 0 <= i < |s|
  {
    if i == 0 then Head else s[i - 1]
  }

  /** The slot after position i of the live chain s; the tail after the last. */
  function NextOf(s: seq<int>, i: int): int
    requires 0 <= i < |s|
  {
    if i == |s| - 1 then Tail else s[i + 1]
  }

  /** Every slot of s is a real node slot (not a sentinel) of an arena of n slots. */
  ghost predicate InArena(n: int, s: seq<int>) {
    forall i :: 0 <= i < |s| ==> 2 <= s[i] < n
  }

  /** Every slot of s points back to its predecessor and on to its successor. */
  ghost predicate Links(a: seq<Node>, s: seq<int>)
    requires InArena(|a|, s)
  {
    forall i {:trigger a[s[i]]} :: 0 <= i < |s| ==> a[s[i]].prev == PrevOf(s, i) && a[s[i]].next == NextOf(s, i)
  }

  /**
   * The arena a holds the list head <-> s[0] <-> ... <-> s[|s|-1] <-> tail,
   * each live slot once: following next from the head meets exactly s, then
   * the tail, and following prev from the tail meets s backwards.
   */
  ghost predicate Linked(a: seq<Node>, s: seq<int>) {
    && 2 <= |a|
    && InArena(|a|, s)
    && LruSpec.Distinct(s)
    && a[Head].next == (if s == [] then Tail else s[0])
    && a[Tail].prev == (if s == [] then Head else s[|s| - 1])
    && Links(a, s)
  }

  /** Two arenas differ at most in their links. */
  ghost predicate SamePayload(a: seq<Node>, b: seq<Node>) {
    |a| == |b| && forall j :: 0 <= j < |a| ==> a[j].key == b[j].key && a[j].value == b[j].value
  }

  /** s without its element at position p. */
  function Cut(s: seq<int>, p: int): (r: seq<int>)
    requires 0 <= p < |s|
    ensures |r| == |s| - 1
    ensures forall i :: 0 <= i < |r| ==> r[i] == if i < p then s[i] else s[i + 1]
  {
    s[..p] + s[p + 1..]
  }

  /**
   * The value-level form of Lru.LruCache.RemoveNode's two writes
   * (node.prev.next := node.next; node.next.prev := node.prev), used to prove
   * what those writes do; it is not a second model of removeNode.
   */
  function Unlink(a: seq<Node>, node: int): seq<Node>
    requires 0 <= node < |a| && 0 <= a[node].prev < |a| && 0 <= a[node].next < |a|
  {
    var prev := a[node].prev;
    var next := a[node].next;
    var a1 := a[prev := a[prev].(next := next)];
    a1[next := a1[next].(prev := prev)]
  }

  /**
   * The value-level form of Lru.LruCache.AddToFront's four writes
   * (node.next := head.next; node.prev := head; head.next.prev := node;
   * head.next := node), used to prove what those writes do; it is not a
   * second model of addToFront.
   */
  function LinkFront(a: seq<Node>, node: int): seq<Node>
    requires 2 <= |a| && 0 <= node < |a| && 0 <= a[Head].next < |a|
  {
    var a1 := a[node := a[node].(next := a[Head].next)];
    var a2 := a1[node := a1[node].(prev := Head)];
    var first := a2[Head].next;
    var a3 := a2[first := a2[first].(prev := node)];
    a3[Head := a3[Head].(next := node)]
  }

  lemma CutDistinct(s: seq<int>, p: int)
    requires LruSpec.Distinct(s) && 0 <= p < |s|
    ensures LruSpec.Distinct(Cut(s, p)) && s[p] !in Cut(s, p)
  {
  }

  lemma CutLinks(a: seq<Node>, s: seq<int>, p: int)
    requires 2 <= |a| && InArena(|a|, s) && LruSpec.Distinct(s) && Links(a, s) && 0 <= p < |s|
    ensures InArena(|a|, Cut(s, p))
    ensures Links(Unlink(a, s[p]), Cut(s, p))
  {
    var s' := Cut(s, p);
    var a' := Unlink(a, s[p]);
    forall i | 0 <= i < |s'|
      ensures a'[s'[i]].prev == PrevOf(s', i) && a'[s'[i]].next == NextOf(s', i)
    {
      if i < p {
        assert s'[i] == s[i];
        assert a[s[i]].prev == PrevOf(s, i);
      } else {
        assert s'[i] == s[i + 1];
        assert a[s[i + 1]].prev == PrevOf(s, i + 1);
      }
    }
  }

  /** removeNode on a listed node leaves the list without it, still well linked. */
  lemma UnlinkLinked(a: seq<Node>, s: seq<int>, p: int)
    requires Linked(a, s) && 0 <= p < |s|
    ensures Linked(Unlink(a, s[p]), Cut(s, p))
    ensures SamePayload(Unlink(a, s[p]), a)
    ensures Unlink(a, s[p])[s[p]] == a[s[p]]
  {
    CutDistinct(s, p);
    CutLinks(a, s, p);
  }

  lemma FrontLinks(a: seq<Node>, s: seq<int>, node: int)
    requires 2 <= |a| && InArena(|a|, s) && LruSpec.Distinct(s) && Links(a, s)
    requires a[Head].next == (if s == [] then Tail else s[0])
    requires 2 <= node < |a| && node !in s
    ensures InArena(|a|, [node] + s)
    ensures Links(LinkFront(a, node), [node] + s)
  {
  }

  /** addToFront of an unlisted node puts it first, the list still well linked. */
  lemma LinkFrontLinked(a: seq<Node>, s: seq<int>, node: int)
    requires Linked(a, s) && 2 <= node < |a| && node !in s
    ensures Linked(LinkFront(a, node), [node] + s)
    ensures SamePayload(LinkFront(a, node), a)
  {
    FrontLinks(a, s, node);
    var s' := [node] + s;
    assert LruSpec.Distinct(s');
    if s != [] {
      assert 2 <= s[|s| - 1];
    }
  }

  /** Overwriting a slot outside the list does not disturb the list. */
  lemma WriteOutsideLinked(a: seq<Node>, s: seq<int>, slot: int, n: Node)
    requires Linked(a, s) && 2 <= slot < |a| && slot !in s
    ensures Linked(a[slot := n], s)
  {
  }

  /**
   * popTail: the node before the tail is the last of the list, and it is the
   * head exactly when the list is empty.
   */
  lemma TailPrev(a: seq<Node>, s: seq<int>)
    requires Linked(a, s)
    ensures a[Tail].prev == Head <==> s == []
    ensures s != [] ==> a[Tail].prev == s[|s| - 1] && Cut(s, |s| - 1) == s[..|s| - 1]
  {
  }
}
