/**
 * The daily digest of api/internal/digest/digest.go: the day's floods, grouped by country and state.
 */
module Digest {
  import opened Wrappers
  import opened Listing
  import opened StringOrder

  datatype DigestEvent = DigestEvent(id: nat, title: string, eventDate: Option<int>, sourceUrl: Option<string>)

  datatype StateGroup = StateGroup(stateName: string, events: seq<DigestEvent>)

  datatype CountryGroup = CountryGroup(countryName: string, states: seq<StateGroup>)

  type Bucket = map<string, map<string, seq<DigestEvent>>>

  const UNKNOWN_GROUP: string := "Unknown"

  // ---------------------------------------------------------------- entries and their stable sort

  /** An event with the names it is filed under. */
  datatype Entry = Entry(country: string, state: string, event: DigestEvent)

  function ValueOr(s: Option<string>, fallback: string): string {
    if s.None? || s.value == "" then fallback else s.value
  }

  function EntryOf(r: Row): Entry {
    Entry(ValueOr(r.country, UNKNOWN_GROUP), ValueOr(r.state, UNKNOWN_GROUP),
          DigestEvent(r.id, r.title, r.eventDate, r.sourceUrl))
  }

  function Entries(rows: seq<Row>): (es: seq<Entry>)
    ensures |es| == |rows| && forall i :: 0 <= i < |es| ==> es[i] == EntryOf(rows[i])
  {
    seq(|rows|, i requires 0 <= i < |rows| => EntryOf(rows[i]))
  }

  predicate KeyBefore(a: Entry, b: Entry) {
    StringBefore(a.country, b.country) || (a.country == b.country && StringBefore(a.state, b.state))
  }

  predicate Filed(e: Entry, country: string, state: string) { e.country == country && e.state == state }

  /** The events filed under one country and state, in their order. */
  function EventsOf(es: seq<Entry>, country: string, state: string): seq<DigestEvent> {
    if es == [] then []
    else
      EventsOf(es[..|es| - 1], country, state)
      + if Filed(es[|es| - 1], country, state) then [es[|es| - 1].event] else []
  }

  predicate SortedEntries(es: seq<Entry>) { forall i, j :: 0 <= i < j < |es| ==> !KeyBefore(es[j], es[i]) }

  /** Insertion after the entries that are not strictly later: the textbook stable sort. */
  function Inserted(e: Entry, es: seq<Entry>): seq<Entry> {
    if es == [] || !KeyBefore(e, es[|es| - 1]) then es + [e]
    else Inserted(e, es[..|es| - 1]) + [es[|es| - 1]]
  }

  function StableSort(es: seq<Entry>): (sorted: seq<Entry>)
  {
    if es == [] then [] else Inserted(es[|es| - 1], StableSort(es[..|es| - 1]))
  }

  lemma KeyBeforeOrders(a: Entry, b: Entry, c: Entry)
    ensures !KeyBefore(a, a) && !(KeyBefore(a, b) && KeyBefore(b, a))
    ensures KeyBefore(a, b) && KeyBefore(b, c) ==> KeyBefore(a, c)
    ensures !KeyBefore(a, b) && !KeyBefore(b, a) ==> Filed(a, b.country, b.state)
    ensures !KeyBefore(b, a) && !KeyBefore(c, b) ==> !KeyBefore(c, a)
  {
    StringBeforeConnected(a.country, b.country);
    StringBeforeConnected(b.country, c.country);
    StringBeforeConnected(a.country, c.country);
    StringBeforeConnected(a.state, b.state);
    StringBeforeConnected(b.state, c.state);
    StringBeforeConnected(a.state, c.state);
    AllTransitive(a.country, b.country, c.country);
    AllTransitive(a.state, b.state, c.state);
  }

  lemma AllTransitive(a: string, b: string, c: string)
    ensures StringBefore(a, b) && StringBefore(b, c) ==> StringBefore(a, c)
    ensures StringBefore(b, c) && StringBefore(c, a) ==> StringBefore(b, a)
    ensures StringBefore(c, a) && StringBefore(a, b) ==> StringBefore(c, b)
  {
    if StringBefore(a, b) && StringBefore(b, c) { StringBeforeTransitive(a, b, c); }
    if StringBefore(b, c) && StringBefore(c, a) { StringBeforeTransitive(b, c, a); }
    if StringBefore(c, a) && StringBefore(a, b) { StringBeforeTransitive(c, a, b); }
  }

  lemma {:induction false} InsertedSorts(e: Entry, es: seq<Entry>)
    requires SortedEntries(es)
    ensures SortedEntries(Inserted(e, es)) && |Inserted(e, es)| == |es| + 1
    ensures forall x :: x in Inserted(e, es) ==> x in es || x == e
  {
    if es != [] {
      var init, last := es[..|es| - 1], es[|es| - 1];
      assert es == init + [last];
      if !KeyBefore(e, last) {
        forall i | 0 <= i < |es| ensures !KeyBefore(e, es[i]) {
          KeyBeforeOrders(es[i], last, e);
        }
      } else {
        InsertedSorts(e, init);
        var longer := Inserted(e, init);
        forall i | 0 <= i < |longer| ensures !KeyBefore(last, longer[i]) {
          assert longer[i] in longer;
          KeyBeforeOrders(e, last, e);
        }
      }
    }
  }

  lemma {:induction false} InsertedKeepsFiling(e: Entry, es: seq<Entry>, country: string, state: string)
    ensures EventsOf(Inserted(e, es), country, state)
            == EventsOf(es, country, state) + if Filed(e, country, state) then [e.event] else []
  {
    if es == [] || !KeyBefore(e, es[|es| - 1]) {
      assert (es + [e])[..|es|] == es;
    } else {
      var init, last := es[..|es| - 1], es[|es| - 1];
      InsertedKeepsFiling(e, init, country, state);
      KeyBeforeOrders(e, last, e);
      assert (Inserted(e, init) + [last])[..|Inserted(e, init)|] == Inserted(e, init);
    }
  }

  /** The specification is a stable sort: ordered, and every filing keeps its events in order. */
  lemma {:induction false} StableSortIsStable(es: seq<Entry>)
    ensures SortedEntries(StableSort(es)) && |StableSort(es)| == |es|
    ensures forall c, s :: EventsOf(StableSort(es), c, s) == EventsOf(es, c, s)
  {
    if es != [] {
      var init, last := es[..|es| - 1], es[|es| - 1];
      StableSortIsStable(init);
      InsertedSorts(last, StableSort(init));
      forall c, s ensures EventsOf(StableSort(es), c, s) == EventsOf(es, c, s) {
        InsertedKeepsFiling(last, StableSort(init), c, s);
      }
    }
  }

  lemma {:induction false} FiledSomewhere(es: seq<Entry>, country: string, state: string)
    ensures EventsOf(es, country, state) != [] <==> exists i :: 0 <= i < |es| && Filed(es[i], country, state)
  {
    if es != [] {
      var init := es[..|es| - 1];
      FiledSomewhere(init, country, state);
      if EventsOf(init, country, state) != [] {
        var i :| 0 <= i < |init| && Filed(init[i], country, state);
        assert Filed(es[i], country, state);
      }
      forall i | 0 <= i < |es| && Filed(es[i], country, state) ensures EventsOf(es, country, state) != [] {
        assert i < |init| ==> Filed(init[i], country, state);
      }
    }
  }

  /** The key of the last entry is not before any key that is filed. */
  lemma LastIsLatest(es: seq<Entry>, e: Entry)
    requires es != [] && SortedEntries(es) && EventsOf(es, e.country, e.state) != []
    ensures !KeyBefore(es[|es| - 1], e)
  {
    FiledSomewhere(es, e.country, e.state);
    var i :| 0 <= i < |es| && Filed(es[i], e.country, e.state);
    KeyBeforeOrders(es[i], es[i], es[i]);
    assert KeyBefore(es[|es| - 1], e) == KeyBefore(es[|es| - 1], es[i]);
  }

  lemma SameTail(a: seq<DigestEvent>, b: seq<DigestEvent>, tail: seq<DigestEvent>)
    requires a + tail == b + tail
    ensures a == b
  {
    assert a == (a + tail)[..|a|] && b == (b + tail)[..|b|];
  }

  lemma SameLast(es: seq<Entry>, fs: seq<Entry>, c: string, s: string)
    requires es != [] && fs != [] && EventsOf(es, c, s) == EventsOf(fs, c, s)
    requires Filed(es[|es| - 1], c, s) && Filed(fs[|fs| - 1], c, s)
    ensures es[|es| - 1] == fs[|fs| - 1]
  {
    var x, y := es[|es| - 1], fs[|fs| - 1];
    var p, q := EventsOf(es[..|es| - 1], c, s), EventsOf(fs[..|fs| - 1], c, s);
    assert EventsOf(es, c, s) == p + [x.event];
    assert EventsOf(fs, c, s) == q + [y.event];
    SameEnd(p, q, x.event, y.event);
  }

  lemma SameEnd(p: seq<DigestEvent>, q: seq<DigestEvent>, x: DigestEvent, y: DigestEvent)
    requires p + [x] == q + [y]
    ensures x == y
  {
    assert (p + [x])[|p + [x]| - 1] == x && (q + [y])[|q + [y]| - 1] == y;
  }

  /** An ordered sequence is determined by what is filed where. */
  lemma {:induction false} StableSortUnique(es: seq<Entry>, fs: seq<Entry>)
    requires SortedEntries(es) && SortedEntries(fs)
    requires forall c, s :: EventsOf(es, c, s) == EventsOf(fs, c, s)
    ensures es == fs
  {
    if fs != [] {
      var y := fs[|fs| - 1];
      assert EventsOf(es, y.country, y.state) == EventsOf(fs, y.country, y.state) != [];
    }
    if es != [] {
      var x := es[|es| - 1];
      assert EventsOf(es, x.country, x.state) == EventsOf(fs, x.country, x.state) != [];
      var y := fs[|fs| - 1];
      LastIsLatest(fs, x);
      LastIsLatest(es, y);
      KeyBeforeOrders(x, y, x);
      var gs, hs := es[..|es| - 1], fs[..|fs| - 1];
      SameLast(es, fs, x.country, x.state);
      forall c, s ensures EventsOf(gs, c, s) == EventsOf(hs, c, s) {
        assert EventsOf(es, c, s) == EventsOf(fs, c, s);
        var tail := if Filed(x, c, s) then [x.event] else [];
        assert EventsOf(gs, c, s) + tail == EventsOf(hs, c, s) + tail;
        SameTail(EventsOf(gs, c, s), EventsOf(hs, c, s), tail);
      }
      StableSortUnique(gs, hs);
      assert es == gs + [x] && fs == hs + [y];
    }
  }

  // ---------------------------------------------------------------- the groups, read back

  function Tagged(country: string, state: string, events: seq<DigestEvent>): (es: seq<Entry>)
    ensures |es| == |events| && forall i :: 0 <= i < |es| ==> es[i] == Entry(country, state, events[i])
  {
    seq(|events|, i requires 0 <= i < |events| => Entry(country, state, events[i]))
  }

  function FlattenStates(country: string, states: seq<StateGroup>): seq<Entry> {
    if states == [] then []
    else
      var last := states[|states| - 1];
      FlattenStates(country, states[..|states| - 1]) + Tagged(country, last.stateName, last.events)
  }

  function Flatten(groups: seq<CountryGroup>): seq<Entry> {
    if groups == [] then []
    else
      var last := groups[|groups| - 1];
      Flatten(groups[..|groups| - 1]) + FlattenStates(last.countryName, last.states)
  }

  /** Names strictly increase, and no group is empty. */
  predicate OrderedStates(states: seq<StateGroup>) {
    && (forall i :: 0 <= i < |states| ==> states[i].events != [])
    && forall i, j :: 0 <= i < j < |states| ==> StringBefore(states[i].stateName, states[j].stateName)
  }

  predicate OrderedGroups(groups: seq<CountryGroup>) {
    && (forall i :: 0 <= i < |groups| ==> groups[i].states != [] && OrderedStates(groups[i].states))
    && forall i, j :: 0 <= i < j < |groups| ==> StringBefore(groups[i].countryName, groups[j].countryName)
  }

  lemma {:induction false} EventsOfConcat(a: seq<Entry>, b: seq<Entry>, country: string, state: string)
    ensures EventsOf(a + b, country, state) == EventsOf(a, country, state) + EventsOf(b, country, state)
  {
    if b == [] {
      assert a + b == a;
    } else {
      EventsOfConcat(a, b[..|b| - 1], country, state);
      assert (a + b)[..|a + b| - 1] == a + b[..|b| - 1];
    }
  }

  lemma {:induction false} EventsOfTagged(c: string, s: string, events: seq<DigestEvent>, country: string, state: string)
    ensures EventsOf(Tagged(c, s, events), country, state) == if c == country && s == state then events else []
  {
    if events != [] {
      var init := events[..|events| - 1];
      assert Tagged(c, s, events)[..|events| - 1] == Tagged(c, s, init);
      EventsOfTagged(c, s, init, country, state);
      assert events == init + [events[|events| - 1]];
    }
  }

  lemma {:induction false} NotInStates(c: string, states: seq<StateGroup>, country: string, state: string)
    requires c != country || forall i :: 0 <= i < |states| ==> states[i].stateName != state
    ensures EventsOf(FlattenStates(c, states), country, state) == []
  {
    if states != [] {
      var init, last := states[..|states| - 1], states[|states| - 1];
      NotInStates(c, init, country, state);
      EventsOfConcat(FlattenStates(c, init), Tagged(c, last.stateName, last.events), country, state);
      EventsOfTagged(c, last.stateName, last.events, country, state);
    }
  }

  lemma {:induction false} EventsOfState(c: string, states: seq<StateGroup>, k: nat)
    requires OrderedStates(states) && k < |states|
    ensures EventsOf(FlattenStates(c, states), c, states[k].stateName) == states[k].events
  {
    var init, last := states[..|states| - 1], states[|states| - 1];
    var name := states[k].stateName;
    EventsOfConcat(FlattenStates(c, init), Tagged(c, last.stateName, last.events), c, name);
    EventsOfTagged(c, last.stateName, last.events, c, name);
    StringBeforeConnected(name, name);
    if k < |init| {
      EventsOfState(c, init, k);
    } else {
      NotInStates(c, init, c, name);
    }
  }

  lemma {:induction false} NotInGroups(groups: seq<CountryGroup>, country: string, state: string)
    requires forall i :: 0 <= i < |groups| ==> groups[i].countryName != country
    ensures EventsOf(Flatten(groups), country, state) == []
  {
    if groups != [] {
      var init, last := groups[..|groups| - 1], groups[|groups| - 1];
      NotInGroups(init, country, state);
      EventsOfConcat(Flatten(init), FlattenStates(last.countryName, last.states), country, state);
      NotInStates(last.countryName, last.states, country, state);
    }
  }

  lemma {:induction false} EventsOfGroup(groups: seq<CountryGroup>, k: nat, state: string)
    requires OrderedGroups(groups) && k < |groups|
    ensures var g := groups[k];
            EventsOf(Flatten(groups), g.countryName, state) == EventsOf(FlattenStates(g.countryName, g.states), g.countryName, state)
  {
    var init, last := groups[..|groups| - 1], groups[|groups| - 1];
    var name := groups[k].countryName;
    EventsOfConcat(Flatten(init), FlattenStates(last.countryName, last.states), name, state);
    StringBeforeConnected(name, name);
    if k < |init| {
      EventsOfGroup(init, k, state);
      NotInStates(last.countryName, last.states, name, state);
    } else {
      NotInGroups(init, name, state);
    }
  }

  /** What precedes stays before what follows. */
  lemma SortedConcat(a: seq<Entry>, b: seq<Entry>)
    requires SortedEntries(a) && SortedEntries(b)
    requires forall i, j :: 0 <= i < |a| && 0 <= j < |b| ==> !KeyBefore(b[j], a[i])
    ensures SortedEntries(a + b)
  {
  }

  lemma {:induction false} StatesSorted(c: string, states: seq<StateGroup>)
    requires OrderedStates(states)
    ensures SortedEntries(FlattenStates(c, states))
    ensures forall e :: e in FlattenStates(c, states) ==>
              e.country == c && exists i :: 0 <= i < |states| && states[i].stateName == e.state
  {
    if states != [] {
      var init, last := states[..|states| - 1], states[|states| - 1];
      StatesSorted(c, init);
      var a, b := FlattenStates(c, init), Tagged(c, last.stateName, last.events);
      StringBeforeConnected(c, c);
      StringBeforeConnected(last.stateName, last.stateName);
      forall i, j | 0 <= i < |a| && 0 <= j < |b| ensures !KeyBefore(b[j], a[i]) {
        assert a[i] in a;
        StringBeforeConnected(a[i].state, last.stateName);
      }
      SortedConcat(a, b);
      forall e | e in a + b ensures exists i :: 0 <= i < |states| && states[i].stateName == e.state {
        if e in a {
          var i :| 0 <= i < |init| && init[i].stateName == e.state;
          assert states[i].stateName == e.state;
        }
      }
    }
  }

  lemma {:induction false} GroupsSorted(groups: seq<CountryGroup>)
    requires OrderedGroups(groups)
    ensures SortedEntries(Flatten(groups))
    ensures forall e :: e in Flatten(groups) ==> exists i :: 0 <= i < |groups| && groups[i].countryName == e.country
  {
    if groups != [] {
      var init, last := groups[..|groups| - 1], groups[|groups| - 1];
      GroupsSorted(init);
      var a, b := Flatten(init), FlattenStates(last.countryName, last.states);
      StatesSorted(last.countryName, last.states);
      forall i, j | 0 <= i < |a| && 0 <= j < |b| ensures !KeyBefore(b[j], a[i]) {
        assert a[i] in a && b[j] in b;
        StringBeforeConnected(a[i].country, last.countryName);
      }
      SortedConcat(a, b);
      forall e | e in a + b ensures exists i :: 0 <= i < |groups| && groups[i].countryName == e.country {
        if e in a {
          var i :| 0 <= i < |init| && init[i].countryName == e.country;
          assert groups[i].countryName == e.country;
        }
      }
    }
  }

  // ---------------------------------------------------------------- the grouping

  /** Each bin holds exactly the events filed under it; there are no empty bins. */
  ghost predicate Binned(bucket: Bucket, es: seq<Entry>) {
    && (forall c, s :: EventsOf(es, c, s) == Bin(bucket, c, s))
    && (forall c :: c in bucket ==> bucket[c] != map[])
    && forall c, s :: c in bucket && s in bucket[c] ==> bucket[c][s] != []
  }

  function Bin(bucket: Bucket, c: string, s: string): seq<DigestEvent> {
    if c in bucket && s in bucket[c] then bucket[c][s] else []
  }

  method FillBucket(rows: seq<Row>) returns (bucket: Bucket)
    ensures Binned(bucket, Entries(rows))
  {
    bucket := map[];
    for i := 0 to |rows|
      invariant Binned(bucket, Entries(rows)[..i])
    {
      var e := EntryOf(rows[i]);
      ghost var before := bucket;
      if e.country !in bucket {
        bucket := bucket[e.country := map[]];
      }
      var states := bucket[e.country];
      var events := if e.state in states then states[e.state] else [];
      bucket := bucket[e.country := states[e.state := events + [e.event]]];
      assert bucket == WithEntry(before, e);
      AddedToBin(before, Entries(rows), i);
    }
    assert Entries(rows)[..|rows|] == Entries(rows);
  }

  /** The bucket once e is appended to its bin. */
  function WithEntry(bucket: Bucket, e: Entry): Bucket {
    bucket[e.country := (if e.country in bucket then bucket[e.country] else map[])
                          [e.state := Bin(bucket, e.country, e.state) + [e.event]]]
  }

  lemma BinWithEntry(bucket: Bucket, e: Entry, c: string, s: string)
    ensures Bin(WithEntry(bucket, e), c, s) == Bin(bucket, c, s) + if Filed(e, c, s) then [e.event] else []
  {
  }

  lemma EventsOfNext(es: seq<Entry>, i: nat, c: string, s: string)
    requires i < |es|
    ensures EventsOf(es[..i + 1], c, s) == EventsOf(es[..i], c, s) + if Filed(es[i], c, s) then [es[i].event] else []
  {
    assert es[..i + 1][..i] == es[..i];
  }

  lemma NoEmptyBin(bucket: Bucket, e: Entry)
    requires (forall c :: c in bucket ==> bucket[c] != map[])
    requires forall c, s :: c in bucket && s in bucket[c] ==> bucket[c][s] != []
    ensures forall c :: c in WithEntry(bucket, e) ==> WithEntry(bucket, e)[c] != map[]
    ensures forall c, s :: c in WithEntry(bucket, e) && s in WithEntry(bucket, e)[c] ==> WithEntry(bucket, e)[c][s] != []
  {
    assert e.state in WithEntry(bucket, e)[e.country];
  }

  lemma AddedToBin(bucket: Bucket, es: seq<Entry>, i: nat)
    requires i < |es| && Binned(bucket, es[..i])
    ensures Binned(WithEntry(bucket, es[i]), es[..i + 1])
  {
    forall c, s ensures EventsOf(es[..i + 1], c, s) == Bin(WithEntry(bucket, es[i]), c, s) {
      assert EventsOf(es[..i], c, s) == Bin(bucket, c, s);
      EventsOfNext(es, i, c, s);
      BinWithEntry(bucket, es[i], c, s);
    }
    NoEmptyBin(bucket, es[i]);
  }

  /** The groups list exactly the states of one country's bucket, with their events. */
  predicate Lists(groups: seq<StateGroup>, states: map<string, seq<DigestEvent>>) {
    && (forall i :: 0 <= i < |groups| ==> groups[i].stateName in states && groups[i].events == states[groups[i].stateName])
    && forall s :: s in states ==> exists i :: 0 <= i < |groups| && groups[i].stateName == s
  }

  method StateGroups(states: map<string, seq<DigestEvent>>) returns (groups: seq<StateGroup>)
    requires forall s :: s in states ==> states[s] != []
    ensures OrderedStates(groups)
    ensures Lists(groups, states)
  {
    var keys := SortedKeys(states);
    groups := [];
    for i := 0 to |keys|
      invariant |groups| == i
      invariant forall j :: 0 <= j < i ==> groups[j].stateName == keys[j] && keys[j] in states && groups[j].events == states[keys[j]]
    {
      assert keys[i] in keys;
      groups := groups + [StateGroup(keys[i], states[keys[i]])];
    }
    forall s | s in states ensures exists i :: 0 <= i < |groups| && groups[i].stateName == s {
      assert s in keys;
      var i :| 0 <= i < |keys| && keys[i] == s;
      assert groups[i].stateName == s;
    }
  }

  /** The j-th group lists the j-th key's bucket. */
  predicate ListsPrefix(groups: seq<CountryGroup>, keys: seq<string>, bucket: Bucket) {
    |groups| <= |keys| && forall j :: 0 <= j < |groups| ==>
      groups[j].countryName == keys[j] && keys[j] in bucket && Lists(groups[j].states, bucket[keys[j]])
  }

  method GroupByCountryState(rows: seq<Row>) returns (groups: seq<CountryGroup>)
    ensures OrderedGroups(groups)
    ensures Flatten(groups) == StableSort(Entries(rows))
  {
    var bucket := FillBucket(rows);
    var keys := SortedKeys(bucket);
    groups := [];
    for i := 0 to |keys|
      invariant |groups| == i && OrderedGroups(groups) && ListsPrefix(groups, keys, bucket)
    {
      assert keys[i] in keys;
      var states := StateGroups(bucket[keys[i]]);
      GroupAppended(groups, keys, bucket, states);
      groups := groups + [CountryGroup(keys[i], states)];
    }
    GroupsAreStableSort(groups, keys, bucket, Entries(rows));
  }

  lemma GroupAppended(groups: seq<CountryGroup>, keys: seq<string>, bucket: Bucket, states: seq<StateGroup>)
    requires OrderedGroups(groups) && ListsPrefix(groups, keys, bucket) && Increasing(keys)
    requires |groups| < |keys| && keys[|groups|] in bucket && bucket[keys[|groups|]] != map[]
    requires OrderedStates(states) && Lists(states, bucket[keys[|groups|]])
    ensures var more := groups + [CountryGroup(keys[|groups|], states)];
            OrderedGroups(more) && ListsPrefix(more, keys, bucket)
  {
    var name := keys[|groups|];
    assert exists s :: s in bucket[name];
    forall i | 0 <= i < |groups| ensures StringBefore(groups[i].countryName, name) {
      assert groups[i].countryName == keys[i];
    }
  }

  lemma AllListed(groups: seq<CountryGroup>, keys: seq<string>, bucket: Bucket)
    requires |groups| == |keys| && forall k :: k in keys <==> k in bucket
    requires ListsPrefix(groups, keys, bucket)
    ensures forall c :: c in bucket ==> exists i :: 0 <= i < |groups| && groups[i].countryName == c
  {
    forall c | c in bucket ensures exists i :: 0 <= i < |groups| && groups[i].countryName == c {
      assert c in keys;
      var i :| 0 <= i < |keys| && keys[i] == c;
      assert groups[i].countryName == c;
    }
  }

  lemma FlattenedBin(groups: seq<CountryGroup>, bucket: Bucket, c: string, s: string)
    requires OrderedGroups(groups)
    requires forall i :: 0 <= i < |groups| ==> groups[i].countryName in bucket && Lists(groups[i].states, bucket[groups[i].countryName])
    requires forall c :: c in bucket ==> exists i :: 0 <= i < |groups| && groups[i].countryName == c
    ensures EventsOf(Flatten(groups), c, s) == Bin(bucket, c, s)
  {
    if c in bucket {
      var i :| 0 <= i < |groups| && groups[i].countryName == c;
      EventsOfGroup(groups, i, s);
      if s in bucket[c] {
        var j :| 0 <= j < |groups[i].states| && groups[i].states[j].stateName == s;
        EventsOfState(c, groups[i].states, j);
      } else {
        NotInStates(c, groups[i].states, c, s);
      }
    } else {
      NotInGroups(groups, c, s);
    }
  }

  lemma GroupsAreStableSort(groups: seq<CountryGroup>, keys: seq<string>, bucket: Bucket, es: seq<Entry>)
    requires OrderedGroups(groups) && Binned(bucket, es)
    requires |groups| == |keys| && ListsPrefix(groups, keys, bucket) && forall k :: k in keys <==> k in bucket
    ensures Flatten(groups) == StableSort(es)
  {
    AllListed(groups, keys, bucket);
    GroupsSorted(groups);
    StableSortIsStable(es);
    forall c, s ensures EventsOf(Flatten(groups), c, s) == EventsOf(StableSort(es), c, s) {
      assert EventsOf(es, c, s) == Bin(bucket, c, s);
      FlattenedBin(groups, bucket, c, s);
    }
    StableSortUnique(Flatten(groups), StableSort(es));
  }

  /** A row without a name, or with an empty one, goes under Unknown. */
  predicate Called(name: Option<string>, group: string) {
    if name in {None, Some("")} then group == "Unknown" else name == Some(group)
  }

  predicate BelongsTo(r: Row, country: string, state: string) { Called(r.country, country) && Called(r.state, state) }

  /** The events of the rows that belong to a country and a state, in the order of the rows. */
  function EventsNamed(rows: seq<Row>, country: string, state: string): seq<DigestEvent> {
    if rows == [] then []
    else
      var r := rows[|rows| - 1];
      EventsNamed(rows[..|rows| - 1], country, state)
      + if BelongsTo(r, country, state) then [DigestEvent(r.id, r.title, r.eventDate, r.sourceUrl)] else []
  }

  lemma {:induction false} EntriesNamed(rows: seq<Row>, country: string, state: string)
    ensures EventsOf(Entries(rows), country, state) == EventsNamed(rows, country, state)
  {
    if rows != [] {
      var init := rows[..|rows| - 1];
      EntriesNamed(init, country, state);
      assert Entries(rows)[..|rows| - 1] == Entries(init);
    }
  }

  /** A state group holds exactly the events of its country and state, in order; and every row has its group. */
  lemma GroupsHoldTheirOwn(groups: seq<CountryGroup>, rows: seq<Row>)
    requires OrderedGroups(groups) && Flatten(groups) == StableSort(Entries(rows))
    ensures forall i, j :: 0 <= i < |groups| && 0 <= j < |groups[i].states| ==>
              var g := groups[i].states[j];
              g.events != [] && g.events == EventsNamed(rows, groups[i].countryName, g.stateName)
  {
    forall i, j | 0 <= i < |groups| && 0 <= j < |groups[i].states|
      ensures groups[i].states[j].events == EventsNamed(rows, groups[i].countryName, groups[i].states[j].stateName)
    {
      var c, s := groups[i].countryName, groups[i].states[j].stateName;
      StableSortIsStable(Entries(rows));
      EventsOfGroup(groups, i, s);
      EventsOfState(c, groups[i].states, j);
      EntriesNamed(rows, c, s);
    }
  }

  lemma {:induction false} RowIsListed(rows: seq<Row>, k: nat, country: string, state: string)
    requires k < |rows| && BelongsTo(rows[k], country, state)
    ensures EventsNamed(rows, country, state) != []
  {
    if k < |rows| - 1 {
      RowIsListed(rows[..|rows| - 1], k, country, state);
    }
  }

  lemma FiledIsListed(groups: seq<CountryGroup>, country: string, state: string)
    requires OrderedGroups(groups) && EventsOf(Flatten(groups), country, state) != []
    ensures exists i, j :: 0 <= i < |groups| && 0 <= j < |groups[i].states|
              && groups[i].countryName == country && groups[i].states[j].stateName == state
  {
    if i :| 0 <= i < |groups| && groups[i].countryName == country {
      EventsOfGroup(groups, i, state);
      if forall j :: 0 <= j < |groups[i].states| ==> groups[i].states[j].stateName != state {
        NotInStates(country, groups[i].states, country, state);
      }
    } else {
      NotInGroups(groups, country, state);
    }
  }

  lemma EveryRowHasItsGroup(groups: seq<CountryGroup>, rows: seq<Row>, k: nat, country: string, state: string)
    requires OrderedGroups(groups) && Flatten(groups) == StableSort(Entries(rows))
    requires k < |rows| && BelongsTo(rows[k], country, state)
    ensures exists i, j :: 0 <= i < |groups| && 0 <= j < |groups[i].states|
              && groups[i].countryName == country && groups[i].states[j].stateName == state
  {
    StableSortIsStable(Entries(rows));
    EntriesNamed(rows, country, state);
    RowIsListed(rows, k, country, state);
    FiledIsListed(groups, country, state);
  }

  function Sizes(states: seq<StateGroup>): nat {
    if states == [] then 0 else Sizes(states[..|states| - 1]) + |states[|states| - 1].events|
  }

  function GroupSizes(groups: seq<CountryGroup>): nat {
    if groups == [] then 0 else GroupSizes(groups[..|groups| - 1]) + Sizes(groups[|groups| - 1].states)
  }

  lemma {:induction false} SizesAreLength(c: string, states: seq<StateGroup>)
    ensures Sizes(states) == |FlattenStates(c, states)|
  {
    if states != [] {
      SizesAreLength(c, states[..|states| - 1]);
    }
  }

  lemma {:induction false} GroupSizesAreLength(groups: seq<CountryGroup>)
    ensures GroupSizes(groups) == |Flatten(groups)|
  {
    if groups != [] {
      GroupSizesAreLength(groups[..|groups| - 1]);
      SizesAreLength(groups[|groups| - 1].countryName, groups[|groups| - 1].states);
    }
  }

  // ---------------------------------------------------------------- the day

  const MAX_DIGEST_EVENTS: int := 200

  /** A UTC day in the clock's unit, microseconds. */
  const DAY: int := 86_400_000_000

  function StartOfUTCDay(t: int): int { t - t % DAY }

  function DayFilters(now: int): Filters {
    Filters("floods", "", "", "", Some(StartOfUTCDay(now)), Some(StartOfUTCDay(now) + DAY), MAX_DIGEST_EVENTS, 0)
  }

  /** The filters admit exactly the floods dated on now's UTC day. */
  lemma DayExactly(now: int, r: Row, ilike: Ilike)
    ensures Admits(DayFilters(now), r, ilike)
            <==> r.category == "floods" && r.eventDate.Some? && r.eventDate.value / 86_400_000_000 == now / 86_400_000_000
  {
  }

  /** One page of the day: at most 200 rows, and all of them if it is read from the table that was counted. */
  lemma DayIsCut(counted: seq<Row>, read: seq<Row>, now: int, ilike: Ilike)
    ensures |PageRead(counted, read, DayFilters(now), ilike).rows| <= 200
    ensures counted == read ==>
              var day := Listed(read, DayFilters(now), ilike);
              |PageRead(counted, read, DayFilters(now), ilike).rows| == if |day| <= 200 then |day| else 200
  {
  }

  lemma GroupSizesOfSort(groups: seq<CountryGroup>, rows: seq<Row>)
    requires Flatten(groups) == StableSort(Entries(rows))
    ensures GroupSizes(groups) == |rows|
  {
    StableSortIsStable(Entries(rows));
    GroupSizesAreLength(groups);
  }

  datatype Daily = Daily(date: int, generatedAt: int, total: nat, byCountry: seq<CountryGroup>)

  /** A failed query is the one way to get no digest; an empty day gives an empty one. */
  method BuildTodayDigest(
      counted: seq<Row>, read: seq<Row>, now: int, ilike: Ilike, countOk: bool, readOk: bool) returns (digest: Option<Daily>)
    ensures digest.None? <==> !countOk || (|Listed(counted, DayFilters(now), ilike)| > 0 && !readOk)
    ensures digest.Some? ==>
              var day := PageRead(counted, read, DayFilters(now), ilike).rows;
              && digest.value.date == StartOfUTCDay(now) && digest.value.generatedAt == now
              && OrderedGroups(digest.value.byCountry)
              && Flatten(digest.value.byCountry) == StableSort(Entries(day))
              && digest.value.total == GroupSizes(digest.value.byCountry) == |day| <= 200
    ensures digest.Some? && counted == read ==>
              var day := Listed(read, DayFilters(now), ilike);
              digest.value.total == if |day| <= 200 then |day| else 200
  {
    var dayStart := StartOfUTCDay(now);
    var dayEnd := dayStart + DAY;
    var filters := Filters("floods", "", "", "", Some(dayStart), Some(dayEnd), MAX_DIGEST_EVENTS, 0);
    assert filters == DayFilters(now);
    var answer := ListEvents(counted, read, filters, ilike, countOk, readOk);
    if answer.None? {
      return None;
    }
    var events := answer.value.rows;
    var groups := GroupByCountryState(events);
    GroupSizesOfSort(groups, events);
    DayIsCut(counted, read, now, ilike);
    digest := Some(Daily(dayStart, now, |events|, groups));
  }
}
