/**
 * What the response cache of api/internal/handlers/middleware.go is meant to be: a list of slots,
 * most recently used first. Lookups and stores of concurrent requests interleave in any order.
 */
module LruSpec {
  import opened Wrappers
  import opened Collections

  datatype Response = Response(status: int, body: string)

  datatype Slot = Slot(key: string, response: Response, expiresAt: int)

  type Slots = seq<Slot>

  /** One critical section: a lookup, or the store that ends a miss. */
  datatype Op = Lookup(key: string, now: int) | Store(key: string, response: Response, now: int)

  datatype Config = Config(ttl: nat, maxEntries: nat)

  function WithoutKey(l: Slots, key: string): Slots {
    if l == [] then []
    else WithoutKey(l[..|l| - 1], key) + if l[|l| - 1].key == key then [] else [l[|l| - 1]]
  }

  function Find(l: Slots, key: string): Option<Slot> {
    if l == [] then None
    else
      var before := Find(l[..|l| - 1], key);
      if before.Some? then before else if l[|l| - 1].key == key then Some(l[|l| - 1]) else None
  }

  predicate Hits(l: Slots, key: string, now: int) {
    Find(l, key).Some? && now <= Find(l, key).value.expiresAt
  }

  function Looked(l: Slots, key: string, now: int): Slots {
    if Find(l, key).None? then l
    else if Hits(l, key, now) then [Find(l, key).value] + WithoutKey(l, key)
    else WithoutKey(l, key)
  }

  function Pushed(l: Slots, key: string, r: Response, expiresAt: int): Slots {
    [Slot(key, r, expiresAt)] + WithoutKey(l, key)
  }

  function Truncated(l: Slots, n: nat): Slots { if |l| <= n then l else l[..n] }

  function Applied(l: Slots, op: Op, c: Config): Slots {
    match op
    case Lookup(key, now) => Looked(l, key, now)
    case Store(key, r, now) => Truncated(Pushed(l, key, r, now + c.ttl), c.maxEntries)
  }

  /** The cache after a history of critical sections. */
  function Run(h: seq<Op>, c: Config): Slots {
    if h == [] then [] else Applied(Run(h[..|h| - 1], c), h[|h| - 1], c)
  }

  // ---------------------------------------------------------------- last use

  /** A store uses its key, and so does a lookup that hits. */
  predicate Uses(l: Slots, op: Op, key: string) {
    op.key == key && (op.Store? || Hits(l, op.key, op.now))
  }

  /** The index of the last operation that used the key; -1 if none did. */
  function LastUse(h: seq<Op>, c: Config, key: string): (j: int)
    ensures -1 <= j < |h|
  {
    if h == [] then -1
    else if Uses(Run(h[..|h| - 1], c), h[|h| - 1], key) then |h| - 1
    else LastUse(h[..|h| - 1], c, key)
  }

  predicate Descending(l: Slots, rank: string -> int) {
    forall i, j :: 0 <= i < j < |l| ==> rank(l[i].key) > rank(l[j].key)
  }

  lemma {:induction false} WithoutKeyMembers(l: Slots, key: string)
    ensures forall s :: s in WithoutKey(l, key) <==> s in l && s.key != key
    ensures |WithoutKey(l, key)| <= |l|
  {
    if l != [] {
      var init, last := l[..|l| - 1], l[|l| - 1];
      WithoutKeyMembers(init, key);
      assert l == init + [last];
    }
  }

  lemma {:induction false} WithoutKeyDescending(l: Slots, key: string, rank: string -> int)
    requires Descending(l, rank)
    ensures Descending(WithoutKey(l, key), rank)
  {
    if l != [] {
      var init, last := l[..|l| - 1], l[|l| - 1];
      WithoutKeyDescending(init, key, rank);
      WithoutKeyMembers(init, key);
      forall i | 0 <= i < |WithoutKey(init, key)| ensures rank(WithoutKey(init, key)[i].key) > rank(last.key) {
        assert WithoutKey(init, key)[i] in init;
      }
    }
  }

  lemma {:induction false} FindIsMember(l: Slots, key: string)
    ensures Find(l, key).Some? ==> Find(l, key).value in l && Find(l, key).value.key == key
    ensures Find(l, key).None? ==> forall s :: s in l ==> s.key != key
  {
    if l != [] {
      FindIsMember(l[..|l| - 1], key);
      assert l == l[..|l| - 1] + [l[|l| - 1]];
    }
  }

  lemma PushFrontDescending(s: Slot, l: Slots, rank: string -> int)
    requires Descending(l, rank) && forall t :: t in l ==> rank(s.key) > rank(t.key)
    ensures Descending([s] + l, rank)
  {
  }

  /** The list is strictly ordered by last use, so no key occurs twice, and every slot was used. */
  predicate OrderedByUse(l: Slots, h: seq<Op>, c: Config) {
    && Descending(l, k => LastUse(h, c, k))
    && forall s :: s in l ==> 0 <= LastUse(h, c, s.key) < |h|
  }

  /** Ranks may change from one history to the next as long as the listed keys keep theirs. */
  lemma DescendingCongruence(l: Slots, rank: string -> int, other: string -> int)
    requires Descending(l, rank) && forall s :: s in l ==> rank(s.key) == other(s.key)
    ensures Descending(l, other)
  {
    assert forall i :: 0 <= i < |l| ==> l[i] in l;
  }

  /** A key moved or pushed to the front by the last operation leaves the rest in order behind it. */
  lemma FrontIsOrdered(h: seq<Op>, c: Config, s: Slot)
    requires h != [] && OrderedByUse(Run(h[..|h| - 1], c), h[..|h| - 1], c)
    requires Uses(Run(h[..|h| - 1], c), h[|h| - 1], s.key)
    ensures OrderedByUse([s] + WithoutKey(Run(h[..|h| - 1], c), s.key), h, c)
  {
    var init := h[..|h| - 1];
    var l := Run(init, c);
    var rest := WithoutKey(l, s.key);
    WithoutKeyMembers(l, s.key);
    WithoutKeyDescending(l, s.key, k => LastUse(init, c, k));
    DescendingCongruence(rest, k => LastUse(init, c, k), k => LastUse(h, c, k));
    PushFrontDescending(s, rest, k => LastUse(h, c, k));
  }

  lemma LookupStaysOrdered(h: seq<Op>, c: Config)
    requires h != [] && h[|h| - 1].Lookup?
    requires var l := Run(h[..|h| - 1], c); OrderedByUse(l, h[..|h| - 1], c) && |l| <= c.maxEntries
    ensures OrderedByUse(Run(h, c), h, c) && |Run(h, c)| <= c.maxEntries
  {
    var init, op := h[..|h| - 1], h[|h| - 1];
    var l := Run(init, c);
    FindIsMember(l, op.key);
    WithoutKeyMembers(l, op.key);
    if Hits(l, op.key, op.now) {
      FrontIsOrdered(h, c, Find(l, op.key).value);
      WithoutKeyShrinks(l, op.key);
    } else {
      WithoutKeyDescending(l, op.key, k => LastUse(init, c, k));
      DescendingCongruence(Run(h, c), k => LastUse(init, c, k), k => LastUse(h, c, k));
    }
  }

  /** What a store pushes, before the overflow is evicted. */
  function PushedBy(h: seq<Op>, c: Config): Slots
    requires h != [] && h[|h| - 1].Store?
  {
    var op := h[|h| - 1];
    Pushed(Run(h[..|h| - 1], c), op.key, op.response, op.now + c.ttl)
  }

  lemma StoreTruncates(h: seq<Op>, c: Config)
    requires h != [] && h[|h| - 1].Store?
    ensures Run(h, c) == Truncated(PushedBy(h, c), c.maxEntries)
  {
    assert Run(h, c) == Applied(Run(h[..|h| - 1], c), h[|h| - 1], c);
  }

  lemma StorePushes(h: seq<Op>, c: Config)
    requires h != [] && h[|h| - 1].Store?
    requires var l := Run(h[..|h| - 1], c); OrderedByUse(l, h[..|h| - 1], c) && |l| <= c.maxEntries
    ensures OrderedByUse(PushedBy(h, c), h, c) && |PushedBy(h, c)| <= c.maxEntries + 1
    ensures Run(h, c) == Truncated(PushedBy(h, c), c.maxEntries)
  {
    var op, l := h[|h| - 1], Run(h[..|h| - 1], c);
    var s := Slot(op.key, op.response, op.now + c.ttl);
    StoreTruncates(h, c);
    assert PushedBy(h, c) == [s] + WithoutKey(l, op.key);
    WithoutKeyMembers(l, op.key);
    FrontIsOrdered(h, c, s);
  }

  lemma {:induction false} AlwaysOrdered(h: seq<Op>, c: Config)
    ensures OrderedByUse(Run(h, c), h, c) && |Run(h, c)| <= c.maxEntries
  {
    if h != [] {
      AlwaysOrdered(h[..|h| - 1], c);
      if h[|h| - 1].Lookup? {
        LookupStaysOrdered(h, c);
      } else {
        StorePushes(h, c);
        TruncatedIsOrdered(PushedBy(h, c), h, c);
      }
    }
  }

  lemma TruncatedIsOrdered(l: Slots, h: seq<Op>, c: Config)
    requires OrderedByUse(l, h, c)
    ensures OrderedByUse(Truncated(l, c.maxEntries), h, c)
  {
    assert forall s :: s in Truncated(l, c.maxEntries) ==> s in l;
  }

  lemma {:induction false} WithoutKeyShrinks(l: Slots, key: string)
    requires Find(l, key).Some?
    ensures |WithoutKey(l, key)| < |l|
  {
    WithoutKeyMembers(l[..|l| - 1], key);
    if Find(l[..|l| - 1], key).Some? {
      WithoutKeyShrinks(l[..|l| - 1], key);
    }
  }

  // ---------------------------------------------------------------- what a hit returns

  /** The index of the last store of the key; -1 if there is none: the cache that never forgets. */
  function LastStore(h: seq<Op>, key: string): (i: int)
    ensures -1 <= i < |h|
  {
    if h == [] then -1
    else if h[|h| - 1].Store? && h[|h| - 1].key == key then |h| - 1
    else LastStore(h[..|h| - 1], key)
  }

  /** The slot holds what the last store of its key put there. */
  predicate FromLastStore(s: Slot, h: seq<Op>, c: Config) {
    var i := LastStore(h, s.key);
    0 <= i < |h| && h[i] == Store(s.key, s.response, s.expiresAt - c.ttl)
  }

  lemma {:induction false} SlotsFromLastStore(h: seq<Op>, c: Config)
    ensures forall s :: s in Run(h, c) ==> FromLastStore(s, h, c)
  {
    if h != [] {
      var init, op := h[..|h| - 1], h[|h| - 1];
      var l := Run(init, c);
      SlotsFromLastStore(init, c);
      WithoutKeyMembers(l, op.key);
      FindIsMember(l, op.key);
      forall s | s in Run(h, c) ensures FromLastStore(s, h, c) {
        if op.Store? && s.key == op.key {
          assert s == Slot(op.key, op.response, op.now + c.ttl);
        } else {
          assert s in l;
          assert LastStore(h, s.key) == LastStore(init, s.key);
        }
      }
    }
  }

  /**
   * Whatever the interleaving, a hit returns the status and body of the latest store for exactly that
   * key, made no more than the TTL earlier: the answer of a cache that never evicts.
   */
  lemma HitIsLatestStore(h: seq<Op>, c: Config, key: string, now: int)
    requires Hits(Run(h, c), key, now)
    ensures var i := LastStore(h, key);
            && 0 <= i < |h| && h[i].Store? && h[i].key == key
            && Find(Run(h, c), key).value.response == h[i].response && now - h[i].now <= c.ttl
  {
    SlotsFromLastStore(h, c);
    FindIsMember(Run(h, c), key);
  }

  // ---------------------------------------------------------------- what is evicted

  /**
   * A store evicts at most one slot, never its own, and only from a full cache; every slot that stays
   * was used after the one that goes.
   */
  lemma EvictsLeastRecentlyUsed(h: seq<Op>, c: Config, victim: Slot)
    requires h != [] && h[|h| - 1].Store? && c.maxEntries > 0
    requires victim in Run(h[..|h| - 1], c) && victim.key != h[|h| - 1].key && victim !in Run(h, c)
    ensures |Run(h, c)| == c.maxEntries
    ensures Run(h, c)[0].key == h[|h| - 1].key
    ensures forall s :: s in Run(h, c) ==> LastUse(h, c, s.key) > LastUse(h, c, victim.key)
    ensures forall s :: s in Run(h[..|h| - 1], c) && s.key != h[|h| - 1].key && s != victim ==> s in Run(h, c)
  {
    var init, op := h[..|h| - 1], h[|h| - 1];
    AlwaysOrdered(init, c);
    StorePushes(h, c);
    WithoutKeyMembers(Run(init, c), op.key);
    var pushed := PushedBy(h, c);
    assert pushed[0].key == op.key;
    OnlyLastDropped(pushed, c.maxEntries, victim);
    LastRanksLowest(pushed, k => LastUse(h, c, k));
  }

  lemma OnlyLastDropped(l: Slots, n: nat, victim: Slot)
    requires |l| <= n + 1 && victim in l && victim !in Truncated(l, n)
    ensures |l| == n + 1 && victim == l[n]
    ensures forall s :: s in l && s != victim ==> s in Truncated(l, n)
  {
  }

  lemma LastRanksLowest(l: Slots, rank: string -> int)
    requires l != [] && Descending(l, rank)
    ensures forall s :: s in l[..|l| - 1] ==> rank(s.key) > rank(l[|l| - 1].key)
  {
  }

  // ---------------------------------------------------------------- what must hit

  /** The keys used after the last use of this one. */
  function OthersSince(h: seq<Op>, c: Config, key: string): set<string> {
    set k | 0 <= k < |h| && LastUse(h, c, key) < k && Uses(Run(h[..k], c), h[k], h[k].key) :: h[k].key
  }

  /** The last store of the key has not expired, now or at any lookup of the key since. */
  predicate Unexpired(h: seq<Op>, c: Config, key: string, now: int) {
    var i := LastStore(h, key);
    && 0 <= i < |h| && now <= h[i].now + c.ttl
    && forall k :: i < k < |h| && h[k].key == key ==> h[k].now <= h[i].now + c.ttl
  }

  lemma {:induction false} LastUseUses(h: seq<Op>, c: Config, key: string)
    ensures var j := LastUse(h, c, key); 0 <= j ==> Uses(Run(h[..j], c), h[j], key)
  {
    if h != [] && !Uses(Run(h[..|h| - 1], c), h[|h| - 1], key) {
      var init := h[..|h| - 1];
      LastUseUses(init, c, key);
      assert forall j :: 0 <= j < |init| ==> init[..j] == h[..j];
    }
  }

  lemma LaterUseIsSince(h: seq<Op>, c: Config, key: string, other: string)
    requires LastUse(h, c, other) > LastUse(h, c, key)
    ensures other in OthersSince(h, c, key)
  {
    LastUseUses(h, c, other);
  }

  /** An operation that does not use the key can only add to what was used since. */
  lemma OthersSinceGrow(h: seq<Op>, c: Config, key: string)
    requires h != [] && !Uses(Run(h[..|h| - 1], c), h[|h| - 1], key)
    ensures |OthersSince(h[..|h| - 1], c, key)| <= |OthersSince(h, c, key)|
  {
    var init := h[..|h| - 1];
    assert forall k :: 0 <= k < |init| ==> init[..k] == h[..k];
    assert OthersSince(init, c, key) <= OthersSince(h, c, key);
    SubsetSize(OthersSince(init, c, key), OthersSince(h, c, key));
  }

  /** A store that drops a slot was made with maxEntries other keys used since. */
  lemma DroppedWasOutnumbered(h: seq<Op>, c: Config, key: string)
    requires h != [] && h[|h| - 1].Store?
    requires Find(Run(h[..|h| - 1], c), key).Some? && Find(Run(h, c), key).None? && key != h[|h| - 1].key
    ensures |OthersSince(h, c, key)| >= c.maxEntries
  {
    var l, op := Run(h[..|h| - 1], c), h[|h| - 1];
    AlwaysOrdered(h[..|h| - 1], c);
    StorePushes(h, c);
    FindIsMember(l, key);
    FindIsMember(Run(h, c), key);
    WithoutKeyMembers(l, op.key);
    var pushed, s := PushedBy(h, c), Find(l, key).value;
    OnlyLastDropped(pushed, c.maxEntries, s);
    var keys := seq(c.maxEntries, i requires 0 <= i < c.maxEntries => pushed[i].key);
    forall i | 0 <= i < |keys| ensures keys[i] in OthersSince(h, c, key) {
      assert LastUse(h, c, pushed[i].key) > LastUse(h, c, pushed[c.maxEntries].key) >= 0;
      LaterUseIsSince(h, c, key, keys[i]);
    }
    DistinctSize(keys);
    SubsetSize((set k | k in keys), OthersSince(h, c, key));
  }

  /** A key whose slot is not dropped by the operation keeps it. */
  lemma SlotSurvives(h: seq<Op>, c: Config, key: string)
    requires h != [] && Find(Run(h[..|h| - 1], c), key).Some? && |OthersSince(h, c, key)| < c.maxEntries
    requires h[|h| - 1].key == key ==> h[|h| - 1].Lookup? && Hits(Run(h[..|h| - 1], c), key, h[|h| - 1].now)
    ensures Find(Run(h, c), key).Some?
  {
    var l, op := Run(h[..|h| - 1], c), h[|h| - 1];
    FindIsMember(l, key);
    FindIsMember(Run(h, c), key);
    WithoutKeyMembers(l, op.key);
    if op.Lookup? {
      assert Find(l, key).value in Run(h, c);
    } else if Find(Run(h, c), key).None? {
      DroppedWasOutnumbered(h, c, key);
    }
  }

  /** An unexpired last store was unexpired before the operation that followed it, and at that operation. */
  lemma UnexpiredBefore(h: seq<Op>, c: Config, key: string, now: int)
    requires Unexpired(h, c, key, now) && !(h[|h| - 1].Store? && h[|h| - 1].key == key)
    ensures var before := if h[|h| - 1].key == key then h[|h| - 1].now else now;
            Unexpired(h[..|h| - 1], c, key, before)
  {
    assert LastStore(h, key) == LastStore(h[..|h| - 1], key);
  }

  /** What is listed is what the last store left, so it hits until that expires. */
  lemma ListedHits(h: seq<Op>, c: Config, key: string, now: int)
    requires Unexpired(h, c, key, now) && Find(Run(h, c), key).Some?
    ensures Hits(Run(h, c), key, now)
    ensures var i := LastStore(h, key); h[i].Store? && Find(Run(h, c), key).value.response == h[i].response
  {
    SlotsFromLastStore(h, c);
    FindIsMember(Run(h, c), key);
  }

  lemma {:induction false} RecentStoreIsListed(h: seq<Op>, c: Config, key: string, now: int)
    requires Unexpired(h, c, key, now) && |OthersSince(h, c, key)| < c.maxEntries
    ensures Find(Run(h, c), key).Some?
  {
    var init, op := h[..|h| - 1], h[|h| - 1];
    if op.Store? && op.key == key {
      assert Run(h, c)[0].key == key;
      FindIsMember(Run(h, c), key);
    } else if Uses(Run(init, c), op, key) {
      SlotSurvives(h, c, key);
    } else {
      var before := if op.key == key then op.now else now;
      UnexpiredBefore(h, c, key, now);
      OthersSinceGrow(h, c, key);
      RecentStoreIsListed(init, c, key, before);
      ListedHits(init, c, key, before);
      SlotSurvives(h, c, key);
    }
  }

  /**
   * The cache keeps its promise: whatever the interleaving, a lookup hits if the last store of its key has not
   * expired and fewer than maxEntries other keys were used since the key was.
   */
  lemma RecentStoreHits(h: seq<Op>, c: Config, key: string, now: int)
    requires Unexpired(h, c, key, now) && |OthersSince(h, c, key)| < c.maxEntries
    ensures Hits(Run(h, c), key, now)
    ensures var i := LastStore(h, key); h[i].Store? && Find(Run(h, c), key).value.response == h[i].response
  {
    RecentStoreIsListed(h, c, key, now);
    ListedHits(h, c, key, now);
  }
}
