/**
 * The response cache as it is written: a map of entries and a list of elements, tied to each other by
 * each entry's element (api/internal/handlers/middleware.go). It refines the list of LruSpec.
 */
module ResponseCaches {
  import opened Collections
  import opened Wrappers
  import opened LruSpec

  /** A list element: id is its identity. */
  datatype Element = Element(id: nat, key: string)

  datatype CacheEntry = CacheEntry(response: Response, expiresAt: int, element: Element)

  type Entries = map<string, CacheEntry>

  /** The element of every entry is in the list, under the entry's key. */
  predicate EntriesListed(entries: Entries, order: seq<Element>) {
    forall key :: key in entries ==> entries[key].element in order && entries[key].element.key == key
  }

  /** Every listed element is its entry's. */
  predicate ElementsOwned(entries: Entries, order: seq<Element>) {
    forall e :: e in order ==> e.key in entries && entries[e.key].element == e
  }

  /** Keys of the map and elements of the list are in bijection. */
  predicate Linked(entries: Entries, order: seq<Element>) {
    EntriesListed(entries, order) && ElementsOwned(entries, order) && Distinct(order)
  }

  function SlotOf(entries: Entries, e: Element): Slot
    requires e.key in entries
  {
    Slot(e.key, entries[e.key].response, entries[e.key].expiresAt)
  }

  predicate Covered(entries: Entries, order: seq<Element>) {
    forall i :: 0 <= i < |order| ==> order[i].key in entries
  }

  /** The list of slots the two structures stand for. */
  function SlotsOf(entries: Entries, order: seq<Element>): Slots
    requires Covered(entries, order)
  {
    if order == [] then []
    else SlotsOf(entries, order[..|order| - 1]) + [SlotOf(entries, order[|order| - 1])]
  }

  function Without(order: seq<Element>, e: Element): seq<Element> {
    if order == [] then []
    else Without(order[..|order| - 1], e) + if order[|order| - 1] == e then [] else [order[|order| - 1]]
  }

  // ---------------------------------------------------------------- how the two structures correspond

  lemma {:induction false} WithoutMembers(order: seq<Element>, e: Element)
    ensures forall x :: x in Without(order, e) <==> x in order && x != e
  {
    if order != [] {
      var init, last := order[..|order| - 1], order[|order| - 1];
      WithoutMembers(init, e);
      assert order == init + [last];
    }
  }

  lemma {:induction false} WithoutDistinct(order: seq<Element>, e: Element)
    requires Distinct(order)
    ensures Distinct(Without(order, e))
  {
    if order != [] {
      var init, last := order[..|order| - 1], order[|order| - 1];
      WithoutDistinct(init, e);
      WithoutMembers(init, e);
      assert last !in init;
      assert last !in Without(init, e);
    }
  }

  lemma SlotsOfAppend(entries: Entries, order: seq<Element>, e: Element)
    requires Covered(entries, order) && e.key in entries
    ensures Covered(entries, order + [e])
    ensures SlotsOf(entries, order + [e]) == SlotsOf(entries, order) + [SlotOf(entries, e)]
  {
    assert (order + [e])[..|order|] == order;
  }

  lemma WithoutKeyAppend(l: Slots, s: Slot, key: string)
    ensures WithoutKey(l + [s], key) == WithoutKey(l, key) + if s.key == key then [] else [s]
  {
    assert (l + [s])[..|l|] == l;
  }

  lemma {:induction false} SlotsOfMembers(entries: Entries, order: seq<Element>)
    requires Covered(entries, order)
    ensures |SlotsOf(entries, order)| == |order|
    ensures forall i :: 0 <= i < |order| ==> SlotsOf(entries, order)[i] == SlotOf(entries, order[i])
  {
    if order != [] {
      SlotsOfMembers(entries, order[..|order| - 1]);
    }
  }

  /** Only the listed keys' entries matter. */
  lemma {:induction false} SlotsOfFrame(entries: Entries, other: Entries, order: seq<Element>)
    requires Covered(entries, order) && Covered(other, order)
    requires forall i :: 0 <= i < |order| ==> SlotOf(entries, order[i]) == SlotOf(other, order[i])
    ensures SlotsOf(entries, order) == SlotsOf(other, order)
  {
    if order != [] {
      SlotsOfFrame(entries, other, order[..|order| - 1]);
    }
  }

  lemma {:induction false} SlotsOfPushFront(entries: Entries, e: Element, order: seq<Element>)
    requires Covered(entries, order) && e.key in entries
    ensures Covered(entries, [e] + order)
    ensures SlotsOf(entries, [e] + order) == [SlotOf(entries, e)] + SlotsOf(entries, order)
  {
    if order == [] {
      assert [e] + order == [] + [e];
      SlotsOfAppend(entries, [], e);
    } else {
      var init, last := order[..|order| - 1], order[|order| - 1];
      SlotsOfPushFront(entries, e, init);
      SlotsOfAppend(entries, [e] + init, last);
      assert [e] + order == ([e] + init) + [last];
    }
  }

  /** The element is the only one with its key. */
  predicate ToldByKey(order: seq<Element>, e: Element) {
    forall i :: 0 <= i < |order| ==> (order[i].key == e.key <==> order[i] == e)
  }

  /** Dropping a key's element from the list drops its slot. */
  lemma {:induction false} SlotsOfWithout(entries: Entries, order: seq<Element>, e: Element)
    requires Covered(entries, order) && ToldByKey(order, e)
    ensures Covered(entries, Without(order, e))
    ensures SlotsOf(entries, Without(order, e)) == WithoutKey(SlotsOf(entries, order), e.key)
  {
    if order != [] {
      var init, last := order[..|order| - 1], order[|order| - 1];
      SlotsOfWithout(entries, init, e);
      WithoutKeyAppend(SlotsOf(entries, init), SlotOf(entries, last), e.key);
      if last == e {
        assert Without(order, e) == Without(init, e);
      } else {
        SlotsOfAppend(entries, Without(init, e), last);
      }
    }
  }

  lemma FindSlot(entries: Entries, order: seq<Element>, key: string)
    requires Linked(entries, order)
    ensures Covered(entries, order)
    ensures Find(SlotsOf(entries, order), key)
         == if key in entries then Some(SlotOf(entries, entries[key].element)) else None
  {
    var l := SlotsOf(entries, order);
    SlotsOfMembers(entries, order);
    FindIsMember(l, key);
    assert forall s :: s in l ==> exists i :: 0 <= i < |order| && s == SlotOf(entries, order[i]);
    assert key in entries ==> exists i :: 0 <= i < |order| && order[i] == entries[key].element && l[i] in l;
  }

  lemma {:induction false} WithoutAbsent(l: Slots, key: string)
    requires forall i :: 0 <= i < |l| ==> l[i].key != key
    ensures WithoutKey(l, key) == l
  {
    if l != [] {
      WithoutAbsent(l[..|l| - 1], key);
    }
  }

  predicate IdsBelow(order: seq<Element>, n: nat) { forall i :: 0 <= i < |order| ==> order[i].id < n }

  lemma {:induction false} WithoutIdsBelow(order: seq<Element>, e: Element, n: nat)
    requires IdsBelow(order, n)
    ensures IdsBelow(Without(order, e), n)
  {
    if order != [] {
      WithoutIdsBelow(order[..|order| - 1], e, n);
    }
  }

  lemma FreshElement(order: seq<Element>, n: nat, key: string)
    requires IdsBelow(order, n)
    ensures Element(n, key) !in order && IdsBelow([Element(n, key)] + order, n + 1)
  {
  }

  /** A key without an entry has no slot to remove. */
  lemma NoEntryNoSlot(entries: Entries, order: seq<Element>, key: string)
    requires Linked(entries, order) && key !in entries
    ensures WithoutKey(SlotsOf(entries, order), key) == SlotsOf(entries, order)
  {
    SlotsOfMembers(entries, order);
    WithoutAbsent(SlotsOf(entries, order), key);
  }

  lemma RemovalLinks(entries: Entries, order: seq<Element>, key: string)
    requires Linked(entries, order) && key in entries
    ensures Linked(entries - {key}, Without(order, entries[key].element))
  {
    var e := entries[key].element;
    WithoutMembers(order, e);
    WithoutDistinct(order, e);
    assert EntriesListed(entries - {key}, Without(order, e));
  }

  /** In linked structures every listed key has an entry, and an element is told by its key. */
  lemma LinkedIsCovered(entries: Entries, order: seq<Element>)
    requires Linked(entries, order)
    ensures Covered(entries, order)
    ensures forall key :: key in entries ==> ToldByKey(order, entries[key].element)
  {
  }

  /** Removing an entry and its element keeps the bijection and removes the slot. */
  lemma RemovalKeepsLink(entries: Entries, order: seq<Element>, key: string)
    requires Linked(entries, order) && key in entries
    ensures var rest := Without(order, entries[key].element);
            && Linked(entries - {key}, rest)
            && SlotsOf(entries - {key}, rest) == WithoutKey(SlotsOf(entries, order), key)
            && |entries - {key}| == |entries| - 1
  {
    var e := entries[key].element;
    var rest := Without(order, e);
    RemovalLinks(entries, order, key);
    LinkedIsCovered(entries, order);
    LinkedIsCovered(entries - {key}, rest);
    SlotsOfWithout(entries, order, e);
    SlotsOfFrame(entries, entries - {key}, rest);
    assert (entries - {key}).Keys == entries.Keys - {key};
  }

  lemma DistinctPush(e: Element, order: seq<Element>)
    requires Distinct(order) && e !in order
    ensures Distinct([e] + order)
  {
  }

  /** Putting a new element in front, with an entry for its key, keeps the bijection and adds the slot. */
  lemma PushLinks(entries: Entries, order: seq<Element>, key: string, entry: CacheEntry)
    requires Linked(entries, order) && key !in entries && entry.element.key == key && entry.element !in order
    ensures Linked(entries[key := entry], [entry.element] + order)
  {
    var all, more := entries[key := entry], [entry.element] + order;
    DistinctPush(entry.element, order);
    assert forall x :: x in more <==> x == entry.element || x in order;
    assert EntriesListed(all, more) && ElementsOwned(all, more);
  }

  lemma PushKeepsLink(entries: Entries, order: seq<Element>, key: string, entry: CacheEntry)
    requires Linked(entries, order) && key !in entries && entry.element.key == key && entry.element !in order
    ensures Linked(entries[key := entry], [entry.element] + order)
    ensures SlotsOf(entries[key := entry], [entry.element] + order)
         == [Slot(key, entry.response, entry.expiresAt)] + SlotsOf(entries, order)
  {
    PushLinks(entries, order, key, entry);
    LinkedIsCovered(entries, order);
    SlotsOfFrame(entries, entries[key := entry], order);
    SlotsOfPushFront(entries[key := entry], entry.element, order);
  }

  lemma MoveLinks(entries: Entries, order: seq<Element>, key: string)
    requires Linked(entries, order) && key in entries
    ensures Linked(entries, [entries[key].element] + Without(order, entries[key].element))
  {
    var e := entries[key].element;
    var rest := Without(order, e);
    WithoutMembers(order, e);
    WithoutDistinct(order, e);
    DistinctPush(e, rest);
    assert forall x :: x in [e] + rest <==> x in order;
    assert EntriesListed(entries, [e] + rest) && ElementsOwned(entries, [e] + rest);
  }

  lemma MoveKeepsLink(entries: Entries, order: seq<Element>, key: string)
    requires Linked(entries, order) && key in entries
    ensures var e := entries[key].element;
            var moved := [e] + Without(order, e);
            && Linked(entries, moved)
            && SlotsOf(entries, moved) == [SlotOf(entries, e)] + WithoutKey(SlotsOf(entries, order), key)
  {
    var e := entries[key].element;
    MoveLinks(entries, order, key);
    LinkedIsCovered(entries, order);
    SlotsOfWithout(entries, order, e);
    SlotsOfPushFront(entries, e, Without(order, e));
  }

  /** The list is as long as the map is large. */
  lemma {:induction false} LinkedSizes(entries: Entries, order: seq<Element>)
    requires Linked(entries, order)
    ensures |order| == |entries|
    decreases |entries|
  {
    if order == [] {
      assert entries.Keys == {};
    } else {
      var key := order[|order| - 1].key;
      RemovalKeepsLink(entries, order, key);
      LastRemoved(entries, order);
      LinkedSizes(entries - {key}, order[..|order| - 1]);
    }
  }

  lemma LastRemoved(entries: Entries, order: seq<Element>)
    requires Linked(entries, order) && order != []
    ensures Without(order, order[|order| - 1]) == order[..|order| - 1]
  {
    NothingRemoved(order[..|order| - 1], order[|order| - 1]);
  }

  lemma {:induction false} NothingRemoved(order: seq<Element>, e: Element)
    requires e !in order
    ensures Without(order, e) == order
  {
    if order != [] {
      NothingRemoved(order[..|order| - 1], e);
    }
  }

  /** The slot at the front survives truncation, and its entry with it. */
  lemma KeptFront(entries: Entries, order: seq<Element>, s: Slot, rest: Slots, n: nat)
    requires Linked(entries, order) && n > 0 && SlotsOf(entries, order) == Truncated([s] + rest, n)
    ensures s.key in entries && entries[s.key].response == s.response
  {
    SlotsOfMembers(entries, order);
    assert SlotsOf(entries, order)[0] == s;
    assert s == SlotOf(entries, order[0]);
  }

  // ---------------------------------------------------------------- the cache itself

  class ResponseCache {
    const ttl: nat
    const maxEntries: nat
    var entries: Entries
    var order: seq<Element>
    /** Ids of list elements are never used again. */
    var nextId: nat

    ghost predicate Valid()
      reads this
    {
      && maxEntries > 0 && Linked(entries, order) && |entries| <= maxEntries
      && IdsBelow(order, nextId)
    }

    ghost function Cfg(): Config { Config(ttl, maxEntries) }

    /** The list of slots, most recently used first. */
    ghost function Contents(): Slots
      requires Linked(entries, order)
      reads this
    {
      SlotsOf(entries, order)
    }

    constructor (ttl: nat, maxEntries: nat)
      requires maxEntries > 0
      ensures Valid() && Contents() == [] && Cfg() == Config(ttl, maxEntries)
    {
      this.ttl, this.maxEntries, entries, order, nextId := ttl, maxEntries, map[], [], 0;
    }

    method RemoveLocked(key: string)
      requires Linked(entries, order) && key in entries && IdsBelow(order, nextId)
      modifies this`entries, this`order
      ensures Linked(entries, order) && IdsBelow(order, nextId) && Contents() == WithoutKey(old(Contents()), key)
      ensures entries == old(entries) - {key} && |entries| == |old(entries)| - 1
      ensures order == Without(old(order), old(entries)[key].element)
    {
      RemovalKeepsLink(entries, order, key);
      WithoutIdsBelow(order, entries[key].element, nextId);
      order := Without(order, entries[key].element);
      entries := entries - {key};
    }

    method MoveToFront(key: string)
      requires Linked(entries, order) && key in entries && IdsBelow(order, nextId)
      modifies this`order
      ensures Linked(entries, order) && IdsBelow(order, nextId)
      ensures Contents() == [SlotOf(entries, entries[key].element)] + WithoutKey(old(Contents()), key)
    {
      var e := entries[key].element;
      MoveKeepsLink(entries, order, key);
      WithoutIdsBelow(order, e, nextId);
      order := [e] + Without(order, e);
    }

    /** The first critical section: drop the entry if it expired, otherwise move it to the front. */
    method Check(key: string, now: int) returns (hit: Option<Response>)
      requires Valid()
      modifies this`entries, this`order
      ensures Valid()
      ensures Contents() == Applied(old(Contents()), Lookup(key, now), Cfg())
      ensures hit == if Hits(old(Contents()), key, now) then Some(Find(old(Contents()), key).value.response) else None
    {
      FindSlot(entries, order, key);
      hit := None;
      if key in entries {
        if now > entries[key].expiresAt {
          RemoveLocked(key);
        } else {
          hit := Some(entries[key].response);
          MoveToFront(key);
        }
      }
    }

    /** Replace the key's entry, if any, and push the new one to the front. */
    method Push(key: string, response: Response, expiresAt: int)
      requires Valid()
      modifies this`entries, this`order, this`nextId
      ensures Linked(entries, order) && IdsBelow(order, nextId)
      ensures Contents() == Pushed(old(Contents()), key, response, expiresAt)
    {
      if key in entries {
        RemoveLocked(key);
      } else {
        NoEntryNoSlot(entries, order, key);
      }
      var entry := CacheEntry(response, expiresAt, Element(nextId, key));
      FreshElement(order, nextId, key);
      PushKeepsLink(entries, order, key, entry);
      order := [entry.element] + order;
      entries := entries[key := entry];
      nextId := nextId + 1;
    }

    /** The second critical section: replace the entry, push it to the front, and evict the overflow. */
    method Put(key: string, response: Response, now: int)
      requires Valid()
      modifies this`entries, this`order, this`nextId
      ensures Valid()
      ensures Contents() == Applied(old(Contents()), Store(key, response, now), Cfg())
      ensures key in entries && entries[key].response == response
    {
      ghost var before := Contents();
      Push(key, response, now + ttl);
      EvictOverflow();
      KeptFront(entries, order, Slot(key, response, now + ttl), WithoutKey(before, key), maxEntries);
    }

    /** Drop the entry at the back of the list. */
    method DropBack()
      requires Linked(entries, order) && IdsBelow(order, nextId) && |entries| > 0
      modifies this`entries, this`order
      ensures Linked(entries, order) && IdsBelow(order, nextId) && |entries| == |old(entries)| - 1
      ensures |old(Contents())| == |old(entries)| && Contents() == old(Contents())[..|old(entries)| - 1]
    {
      ghost var e, o := entries, order;
      LinkedSizes(entries, order);
      var back := order[|order| - 1];
      LastRemoved(entries, order);
      RemoveLocked(back.key);
      SlotsOfFrame(e, entries, order);
      SlotsOfMembers(e, o);
      SlotsOfMembers(e, order);
    }

    /**
     * Drop the back of the list until the map fits. The bijection makes every back element's key
     * present, so each round removes an entry and the loop ends.
     */
    method EvictOverflow()
      requires Linked(entries, order) && IdsBelow(order, nextId)
      modifies this`entries, this`order
      ensures Linked(entries, order) && IdsBelow(order, nextId) && |entries| <= maxEntries
      ensures Contents() == Truncated(old(Contents()), maxEntries)
    {
      LinkedSizes(entries, order);
      SlotsOfMembers(entries, order);
      ghost var all := Contents();
      while |entries| > maxEntries
        invariant Linked(entries, order) && IdsBelow(order, nextId)
        invariant |entries| <= |all| && Contents() == all[..|entries|]
        invariant |entries| == |all| || |entries| >= maxEntries
        decreases |entries|
      {
        DropBack();
      }
    }
  }
}
