/** Strings in the order of Go's sort.Strings, and the sorted keys of a map. */
module StringOrder {
  /** Strictly before, character by character. */
  predicate StringBefore(a: string, b: string) {
    b != [] && (a == [] || a[0] < b[0] || (a[0] == b[0] && StringBefore(a[1..], b[1..])))
  }

  lemma {:induction false} StringBeforeConnected(a: string, b: string)
    ensures a == b || StringBefore(a, b) || StringBefore(b, a)
    ensures !(StringBefore(a, b) && StringBefore(b, a)) && !StringBefore(a, a)
  {
    if a != [] {
      StringBeforeConnected(a[1..], a[1..]);
      if b != [] {
        StringBeforeConnected(a[1..], b[1..]);
        assert a == [a[0]] + a[1..] && b == [b[0]] + b[1..];
      }
    }
  }

  lemma {:induction false} StringBeforeTransitive(a: string, b: string, c: string)
    requires StringBefore(a, b) && StringBefore(b, c)
    ensures StringBefore(a, c)
  {
    if a != [] && a[0] == b[0] == c[0] {
      StringBeforeTransitive(a[1..], b[1..], c[1..]);
    }
  }

  predicate Increasing(names: seq<string>) {
    forall i, j :: 0 <= i < j < |names| ==> StringBefore(names[i], names[j])
  }

  /** sort.Strings on distinct names. */
  function SortedInto(name: string, names: seq<string>): seq<string> {
    if names == [] || StringBefore(names[|names| - 1], name) then names + [name]
    else SortedInto(name, names[..|names| - 1]) + [names[|names| - 1]]
  }

  lemma {:induction false} SortedIntoKeepsOrder(name: string, names: seq<string>)
    requires Increasing(names) && name !in names
    ensures Increasing(SortedInto(name, names))
    ensures forall x :: x in SortedInto(name, names) <==> x in names || x == name
  {
    if names != [] {
      var init, last := names[..|names| - 1], names[|names| - 1];
      assert names == init + [last];
      StringBeforeConnected(last, name);
      if StringBefore(last, name) {
        forall i | 0 <= i < |init| ensures StringBefore(names[i], name) {
          StringBeforeTransitive(names[i], last, name);
        }
      } else {
        SortedIntoKeepsOrder(name, init);
        var sorted := SortedInto(name, init);
        forall i | 0 <= i < |sorted| ensures StringBefore(sorted[i], last) {
          assert sorted[i] in sorted;
        }
      }
    }
  }

  /** The keys in increasing order, each once, whatever order the map yields them in. */
  method SortedKeys<V>(m: map<string, V>) returns (keys: seq<string>)
    ensures Increasing(keys)
    ensures forall k :: k in keys <==> k in m
  {
    keys := [];
    var rest := m.Keys;
    while rest != {}
      invariant rest <= m.Keys && Increasing(keys)
      invariant forall k :: k in keys <==> k in m.Keys - rest
      decreases |rest|
    {
      var k :| k in rest;
      SortedIntoKeepsOrder(k, keys);
      keys := SortedInto(k, keys);
      rest := rest - {k};
    }
  }

  /** The elements of a set, in increasing order. */
  ghost function InOrder(names: set<string>): (sorted: seq<string>)
    ensures Increasing(sorted) && forall x :: x in sorted <==> x in names
    decreases |names|
  {
    if names == {} then []
    else
      var name :| name in names;
      var rest := InOrder(names - {name});
      SortedIntoKeepsOrder(name, rest);
      SortedInto(name, rest)
  }

  lemma TailWithin(p: seq<string>, q: seq<string>)
    requires p != [] && q != [] && p[0] == q[0] && Increasing(p) && forall x :: x in p ==> x in q
    ensures forall x :: x in p[1..] ==> x in q[1..]
  {
    forall i | 0 <= i < |p[1..]| ensures p[1..][i] in q[1..] {
      StringBeforeConnected(p[0], p[i + 1]);
      assert p[i + 1] in q;
      var j :| 0 <= j < |q| && q[j] == p[i + 1];
      assert q[1..][j - 1] == q[j];
    }
  }

  /** An increasing sequence is determined by its elements. */
  lemma {:induction false} IncreasingUnique(p: seq<string>, q: seq<string>)
    requires Increasing(p) && Increasing(q) && forall x :: x in p <==> x in q
    ensures p == q
  {
    assert q != [] ==> q[0] in p;
    if p != [] {
      assert p[0] in q;
      StringBeforeConnected(p[0], q[0]);
      assert p[0] == q[0];
      TailWithin(p, q);
      TailWithin(q, p);
      IncreasingUnique(p[1..], q[1..]);
      assert p == [p[0]] + p[1..] && q == [q[0]] + q[1..];
    }
  }
}
