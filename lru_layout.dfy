/**
 * The representation invariant of Lru.LruCache (the LRUCache class of
 * lru-cache/lru_cache.cpp), split out of the class so that it can be stated
 * and proved on values: how the arena, the list of live slots, the public
 * view (recency order and contents) and the key -> slot index agree, and how
 * each step of `get` and `put` keeps them agreeing. It has no counterpart in
 * the program itself.
 */
module LruLayout {
  import LruSpec
  import opened LruArena

  /**
   * The arena agrees with the view: slot slots[i] holds key order[i] and
   * its value, and the index maps order[i] to slots[i].
   */
  ghost predicate ViewMatches(a: seq<Node>, slots: seq<int>, order: seq<int>, contents: map<int, int>, index: map<int, int>) {
    && |slots| == |order|
    && InArena(|a|, slots)
    && (forall i {:trigger a[slots[i]]} :: 0 <= i < |slots| ==>
          && a[slots[i]].key == order[i]
          && order[i] in contents && a[slots[i]].value == contents[order[i]]
          && order[i] in index && index[order[i]] == slots[i])
  }

  /** Every slot of s is below n: nodes fill the arena from slot 2 upwards. */
  ghost predicate SlotsBelow(s: seq<int>, n: int) {
    forall i :: 0 <= i < |s| ==> s[i] < n
  }

  lemma PromoteMatches(a: seq<Node>, a': seq<Node>, slots: seq<int>, order: seq<int>,
                     contents: map<int, int>, index: map<int, int>, p: int, n: int)
    requires ViewMatches(a, slots, order, contents, index) && SamePayload(a', a) && 0 <= p < |slots|
    requires SlotsBelow(slots, n)
    ensures ViewMatches(a', [slots[p]] + Cut(slots, p), [order[p]] + Cut(order, p), contents, index)
    ensures SlotsBelow([slots[p]] + Cut(slots, p), n)
  {
    var s := [slots[p]] + Cut(slots, p);
    var o := [order[p]] + Cut(order, p);
    forall i | 0 <= i < |s|
      ensures 2 <= s[i] < |a'| && s[i] < n
      ensures a'[s[i]].key == o[i] && o[i] in contents && a'[s[i]].value == contents[o[i]]
      ensures o[i] in index && index[o[i]] == s[i]
    {
      var j := if i == 0 then p else if i <= p then i - 1 else i;
      assert s[i] == slots[j] && o[i] == order[j];
    }
  }

  lemma SetValueMatches(a: seq<Node>, slots: seq<int>, order: seq<int>,
                      contents: map<int, int>, index: map<int, int>, p: int, v: int)
    requires ViewMatches(a, slots, order, contents, index) && 0 <= p < |slots|
    ensures ViewMatches(a[slots[p] := a[slots[p]].(value := v)], slots, order, contents[order[p] := v], index)
  {
    var a' := a[slots[p] := a[slots[p]].(value := v)];
    forall i | 0 <= i < |slots|
      ensures a'[slots[i]].key == order[i] && a'[slots[i]].value == contents[order[p] := v][order[i]]
    {
      assert a[slots[i]].key == order[i];
      assert a[slots[p]].key == order[p];
    }
  }

  lemma EvictMatches(a: seq<Node>, a': seq<Node>, slots: seq<int>, order: seq<int>,
                   contents: map<int, int>, index: map<int, int>, n: int)
    requires ViewMatches(a, slots, order, contents, index) && SamePayload(a', a)
    requires |slots| >= 1 && LruSpec.Distinct(order) && SlotsBelow(slots, n)
    ensures var m := |slots| - 1; var lru := order[m];
      && ViewMatches(a', slots[..m], order[..m], contents - {lru}, index - {lru})
      && SlotsBelow(slots[..m], n)
  {
    var m := |slots| - 1;
    var lru := order[m];
    forall i | 0 <= i < m
      ensures a'[slots[..m][i]].key == order[..m][i]
      ensures order[..m][i] in contents - {lru}
      ensures a'[slots[..m][i]].value == (contents - {lru})[order[..m][i]]
      ensures order[..m][i] in index - {lru} && (index - {lru})[order[..m][i]] == slots[..m][i]
    {
      assert a[slots[i]].key == order[i];
      assert order[i] != lru;
    }
  }

  lemma InsertMatches(a: seq<Node>, a': seq<Node>, slots: seq<int>, order: seq<int>,
                    contents: map<int, int>, index: map<int, int>, slot: int, key: int, value: int)
    requires ViewMatches(a, slots, order, contents, index)
    requires 2 <= slot < |a| && slot !in slots && key !in order
    requires SamePayload(a', a[slot := Node(key, value, Nil, Nil)])
    ensures ViewMatches(a', [slot] + slots, [key] + order, contents[key := value], index[key := slot])
  {
    var s, o := [slot] + slots, [key] + order;
    forall i | 0 <= i < |s|
      ensures 2 <= s[i] < |a'|
      ensures a'[s[i]].key == o[i] && o[i] in contents[key := value] && a'[s[i]].value == contents[key := value][o[i]]
      ensures o[i] in index[key := slot] && index[key := slot][o[i]] == s[i]
    {
      if i > 0 {
        assert s[i] == slots[i - 1] && o[i] == order[i - 1];
        assert s[i] != slot && o[i] != key;
      }
    }
  }

  lemma SetValueLinked(a: seq<Node>, s: seq<int>, slot: int, v: int)
    requires Linked(a, s) && 2 <= slot < |a|
    ensures Linked(a[slot := a[slot].(value := v)], s)
  {
  }

  lemma KeysSize(m: map<int, int>, n: map<int, int>)
    requires m.Keys == n.Keys
    ensures |m| == |n|
  {
  }

  /**
   * The whole representation invariant on values: a well-linked arena of
   * capacity + 2 slots whose list, view and index agree, with the used slots
   * packed from slot 2 upwards.
   */
  ghost predicate Represents(cap: int, a: seq<Node>, slots: seq<int>, order: seq<int>,
                       contents: map<int, int>, index: map<int, int>) {
    && 1 <= cap
    && |a| == cap + 2
    && Linked(a, slots)
    && LruSpec.Inv(LruSpec.Cache(cap, order, contents))
    && index.Keys == contents.Keys
    && ViewMatches(a, slots, order, contents, index)
    && SlotsBelow(slots, |slots| + 2)
  }

  /**
   * The state just before a new node is linked in: one entry short of what
   * the capacity allows, and `slot` free, inside the arena and not listed.
   */
  ghost predicate RepresentsWithFreeSlot(cap: int, a: seq<Node>, slots: seq<int>, order: seq<int>,
                        contents: map<int, int>, index: map<int, int>, slot: int) {
    && 1 <= cap
    && |a| == cap + 2
    && Linked(a, slots)
    && LruSpec.Inv(LruSpec.Cache(cap, order, contents))
    && |order| < cap
    && index.Keys == contents.Keys
    && ViewMatches(a, slots, order, contents, index)
    && SlotsBelow(slots, |slots| + 3)
    && 2 <= slot < |slots| + 3 && slot !in slots
  }

  lemma RepresentsCount(cap: int, a: seq<Node>, slots: seq<int>, order: seq<int>,
                  contents: map<int, int>, index: map<int, int>)
    requires Represents(cap, a, slots, order, contents, index)
    ensures |slots| == |order| == |contents| == |index| <= cap
  {
  }

  /** A cached key sits at some position p of the list, in the slot the index gives. */
  lemma KeyPosition(cap: int, a: seq<Node>, slots: seq<int>, order: seq<int>,
                    contents: map<int, int>, index: map<int, int>, key: int) returns (p: int)
    requires Represents(cap, a, slots, order, contents, index) && key in index
    ensures 0 <= p < |slots| && order[p] == key && slots[p] == index[key] && a[slots[p]].key == key
  {
    assert key in contents;
    p :| 0 <= p < |order| && order[p] == key;
    assert a[slots[p]].key == order[p];
  }

  /** Promoting the entry at position p (moveToFront) keeps the invariant and is LruSpec.Get's new state. */
  lemma PromoteStep(cap: int, a: seq<Node>, a': seq<Node>, slots: seq<int>, order: seq<int>,
                    contents: map<int, int>, index: map<int, int>, p: int)
    requires Represents(cap, a, slots, order, contents, index) && 0 <= p < |slots|
    requires Linked(a', [slots[p]] + Cut(slots, p)) && SamePayload(a', a)
    ensures Represents(cap, a', [slots[p]] + Cut(slots, p), [order[p]] + Cut(order, p), contents, index)
    ensures LruSpec.Cache(cap, [order[p]] + Cut(order, p), contents)
         == LruSpec.Get(LruSpec.Cache(cap, order, contents), order[p]).1
    ensures index[order[p]] == slots[p] && a'[slots[p]].value == contents[order[p]]
  {
    assert a[slots[p]].key == order[p];
    PromoteMatches(a, a', slots, order, contents, index, p, |slots| + 2);
    LruSpec.EraseAt(order, p);
    LruSpec.GetPreservesInv(LruSpec.Cache(cap, order, contents), order[p]);
    var s' := [slots[p]] + Cut(slots, p);
    assert a'[s'[0]].value == contents[order[p]];
  }

  /** Overwriting the value of the entry at position p keeps the invariant. */
  lemma SetValueStep(cap: int, a: seq<Node>, slots: seq<int>, order: seq<int>,
                     contents: map<int, int>, index: map<int, int>, p: int, v: int)
    requires Represents(cap, a, slots, order, contents, index) && 0 <= p < |slots|
    ensures Represents(cap, a[slots[p] := a[slots[p]].(value := v)], slots, order, contents[order[p] := v], index)
  {
    SetValueMatches(a, slots, order, contents, index, p, v);
    SetValueLinked(a, slots, slots[p], v);
    var c := LruSpec.Cache(cap, order, contents);
    var c' := LruSpec.Cache(cap, order, contents[order[p] := v]);
    assert c'.values.Keys == c.values.Keys;
    KeysSize(c'.values, c.values);
  }

  /**
   * Overwriting the value of the entry at position p and moving it to the
   * front restores the invariant and is LruSpec.Put's new state.
   */
  lemma UpdateStep(cap: int, a: seq<Node>, a': seq<Node>, slots: seq<int>, order: seq<int>,
                   contents: map<int, int>, index: map<int, int>, p: int, v: int)
    requires Represents(cap, a, slots, order, contents, index) && 0 <= p < |slots|
    requires Linked(a', [slots[p]] + Cut(slots, p))
    requires SamePayload(a', a[slots[p] := a[slots[p]].(value := v)])
    ensures Represents(cap, a', [slots[p]] + Cut(slots, p), [order[p]] + Cut(order, p), contents[order[p] := v], index)
    ensures LruSpec.Cache(cap, [order[p]] + Cut(order, p), contents[order[p] := v])
         == LruSpec.Put(LruSpec.Cache(cap, order, contents), order[p], v)
  {
    var b := a[slots[p] := a[slots[p]].(value := v)];
    SetValueStep(cap, a, slots, order, contents, index, p, v);
    PromoteStep(cap, b, a', slots, order, contents[order[p] := v], index, p);
  }

  /** Popping the last node of a full cache and erasing its key frees its slot for the new node. */
  lemma EvictStep(cap: int, a: seq<Node>, a': seq<Node>, slots: seq<int>, order: seq<int>,
                  contents: map<int, int>, index: map<int, int>)
    requires Represents(cap, a, slots, order, contents, index) && |contents| == cap
    requires |slots| >= 1 && Linked(a', slots[..|slots| - 1]) && SamePayload(a', a)
    ensures var m := |slots| - 1; var lru := order[m];
      && a'[slots[m]].key == lru
      && RepresentsWithFreeSlot(cap, a', slots[..m], order[..m], contents - {lru}, index - {lru}, slots[m])
      && LruSpec.Cache(cap, order[..m], contents - {lru}) == LruSpec.Evict(LruSpec.Cache(cap, order, contents))
  {
  }

  /** With room to spare, the first slot not yet used is free. */
  lemma FreshStep(cap: int, a: seq<Node>, slots: seq<int>, order: seq<int>,
                  contents: map<int, int>, index: map<int, int>)
    requires Represents(cap, a, slots, order, contents, index) && |contents| < cap
    ensures RepresentsWithFreeSlot(cap, a, slots, order, contents, index, |index| + 2)
  {
  }

  /** Linking a new node for an absent key into the free slot restores the invariant. */
  lemma InsertStep(cap: int, a: seq<Node>, a': seq<Node>, slots: seq<int>, order: seq<int>,
                   contents: map<int, int>, index: map<int, int>, slot: int, key: int, value: int)
    requires RepresentsWithFreeSlot(cap, a, slots, order, contents, index, slot) && key !in contents
    requires Linked(a', [slot] + slots) && SamePayload(a', a[slot := Node(key, value, Nil, Nil)])
    ensures Represents(cap, a', [slot] + slots, [key] + order, contents[key := value], index[key := slot])
  {
  }

}
