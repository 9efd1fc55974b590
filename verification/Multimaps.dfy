/** std::multimap<std::string, V>: entries in key order, equal keys in insertion order. */
module Multimaps {
  import opened Texts

  datatype Entry<V> = Entry(key: Text, value: V)

  type Multimap<V> = seq<Entry<V>>

  ghost predicate Sorted<V>(m: Multimap<V>) {
    forall i, j :: 0 <= i < j < |m| ==> AtMost(m[i].key, m[j].key)
  }

  // insert(): the new entry goes behind every entry whose key is not greater.
  function Insert<V>(m: Multimap<V>, key: Text, value: V): (r: Multimap<V>)
    ensures |r| == |m| + 1
  {
    if m == [] || AtMost(m[|m| - 1].key, key) then m + [Entry(key, value)]
    else Insert(m[..|m| - 1], key, value) + [m[|m| - 1]]
  }

  // The values of one key, in insertion order (equal_range).
  function ValuesOf<V>(m: Multimap<V>, key: Text): seq<V> {
    if m == [] then []
    else ValuesOf(m[..|m| - 1], key) + if m[|m| - 1].key == key then [m[|m| - 1].value] else []
  }

  lemma {:induction false} InsertKeepsEntries<V>(m: Multimap<V>, key: Text, value: V)
    ensures multiset(Insert(m, key, value)) == multiset(m) + multiset{Entry(key, value)}
  {
    if !(m == [] || AtMost(m[|m| - 1].key, key)) {
      InsertKeepsEntries(m[..|m| - 1], key, value);
      assert m == m[..|m| - 1] + [m[|m| - 1]];
    }
  }

  lemma {:induction false} InsertSorted<V>(m: Multimap<V>, key: Text, value: V)
    requires Sorted(m)
    ensures Sorted(Insert(m, key, value))
  {
    var last := |m| - 1;
    if m == [] {
    } else if AtMost(m[last].key, key) {
      forall i | 0 <= i < |m| ensures AtMost(m[i].key, key) {
        if i < last { AtMostTransitive(m[i].key, m[last].key, key); }
      }
    } else {
      var r := Insert(m[..last], key, value);
      InsertSorted(m[..last], key, value);
      InsertKeepsEntries(m[..last], key, value);
      LessIsAtMost(key, m[last].key);
      forall i | 0 <= i < |r| ensures AtMost(r[i].key, m[last].key) {
        assert r[i] in multiset(r);
        assert r[i] in m[..last] || r[i] == Entry(key, value);
      }
    }
  }

  lemma {:induction false} InsertValues<V>(m: Multimap<V>, key: Text, value: V, k: Text)
    requires Sorted(m)
    ensures ValuesOf(Insert(m, key, value), k) == ValuesOf(m, k) + if k == key then [value] else []
  {
    var last := |m| - 1;
    if m == [] || AtMost(m[last].key, key) {
      assert (m + [Entry(key, value)])[..|m|] == m;
    } else {
      InsertValues(m[..last], key, value, k);
      assert Insert(m, key, value)[..|m|] == Insert(m[..last], key, value);
      AtMostReflexive(key);
    }
  }

  lemma {:induction false} ValuesOfConcat<V>(a: Multimap<V>, b: Multimap<V>, k: Text)
    ensures ValuesOf(a + b, k) == ValuesOf(a, k) + ValuesOf(b, k)
  {
    if b == [] {
      assert a + b == a;
    } else {
      assert (a + b)[..|a + b| - 1] == a + b[..|b| - 1];
      ValuesOfConcat(a, b[..|b| - 1], k);
    }
  }

  lemma {:induction false} ValuesNonEmpty<V>(m: Multimap<V>, k: Text)
    ensures ValuesOf(m, k) != [] <==> exists i :: 0 <= i < |m| && m[i].key == k
  {
    if m != [] {
      var n := |m| - 1;
      ValuesNonEmpty(m[..n], k);
      if i :| 0 <= i < |m| && m[i].key == k {
        assert i == n || m[..n][i].key == k;
      }
    }
  }

  lemma ValuesFromFront<V>(m: Multimap<V>, k: Text)
    requires m != []
    ensures ValuesOf(m, k) == (if m[0].key == k then [m[0].value] else []) + ValuesOf(m[1..], k)
  {
    ValuesOfConcat(m[..1], m[1..], k);
    assert m == m[..1] + m[1..];
    assert m[..1][..0] == [] && m[..1][0] == m[0];
    assert ValuesOf(m[..1], k) == if m[0].key == k then [m[0].value] else [];
  }

  lemma FirstKeyIsLeast<V>(m: Multimap<V>, k: Text)
    requires Sorted(m) && ValuesOf(m, k) != []
    ensures m != [] && AtMost(m[0].key, k)
  {
    ValuesNonEmpty(m, k);
    AtMostReflexive(k);
  }

  lemma SameHead<V>(a: Multimap<V>, b: Multimap<V>)
    requires Sorted(a) && Sorted(b) && a != []
    requires forall k :: ValuesOf(a, k) == ValuesOf(b, k)
    ensures b != [] && a[0] == b[0]
  {
    ValuesFromFront(a, a[0].key);
    FirstKeyIsLeast(b, a[0].key);
    ValuesFromFront(b, b[0].key);
    FirstKeyIsLeast(a, b[0].key);
    AtMostAntisymmetric(a[0].key, b[0].key);
    assert ValuesOf(a, a[0].key)[0] == ValuesOf(b, b[0].key)[0];
  }

  // A multimap is determined by the values of each key.
  lemma {:induction false} SameValuesSameMap<V>(a: Multimap<V>, b: Multimap<V>)
    requires Sorted(a) && Sorted(b)
    requires forall k :: ValuesOf(a, k) == ValuesOf(b, k)
    ensures a == b
  {
    if a == [] {
      if b != [] {
        SameHead(b, a);
      }
    } else {
      SameHead(a, b);
      forall k ensures ValuesOf(a[1..], k) == ValuesOf(b[1..], k) {
        ValuesFromFront(a, k);
        ValuesFromFront(b, k);
        var prefix := if a[0].key == k then [a[0].value] else [];
        assert ValuesOf(a[1..], k) == ValuesOf(a, k)[|prefix|..];
        assert ValuesOf(b[1..], k) == ValuesOf(b, k)[|prefix|..];
      }
      SameValuesSameMap(a[1..], b[1..]);
      assert a == [a[0]] + a[1..] && b == [b[0]] + b[1..];
    }
  }

  // erase(key)
  function Without<V>(m: Multimap<V>, key: Text): Multimap<V> {
    if m == [] then []
    else Without(m[..|m| - 1], key) + if m[|m| - 1].key == key then [] else [m[|m| - 1]]
  }

  // Erasing removes every value of the key and nothing else.
  lemma {:induction false} WithoutValues<V>(m: Multimap<V>, key: Text, k: Text)
    ensures ValuesOf(Without(m, key), k) == if k == key then [] else ValuesOf(m, k)
  {
    if m != [] {
      var n := |m| - 1;
      WithoutValues(m[..n], key, k);
      var w := Without(m, key);
      if m[n].key != key {
        assert w[..|w| - 1] == Without(m[..n], key);
      } else {
        assert w == Without(m[..n], key);
      }
    }
  }

  lemma {:induction false} WithoutSorted<V>(m: Multimap<V>, key: Text)
    requires Sorted(m)
    ensures Sorted(Without(m, key)) && forall e :: e in Without(m, key) ==> e in m
  {
    if m != [] {
      WithoutSorted(m[..|m| - 1], key);
      var w := Without(m[..|m| - 1], key);
      forall i | 0 <= i < |w| ensures AtMost(w[i].key, m[|m| - 1].key) {
        assert w[i] in m[..|m| - 1];
      }
    }
  }

  lemma {:induction false} TwoValues<V>(m: Multimap<V>, i: nat, j: nat)
    requires i < j < |m| && m[i].key == m[j].key
    ensures |ValuesOf(m, m[i].key)| >= 2
  {
    var n := |m| - 1;
    if j == n {
      assert m[..n][i].key == m[i].key;
      ValuesNonEmpty(m[..n], m[i].key);
    } else {
      TwoValues(m[..n], i, j);
    }
  }

  // The values of one key have got some more at their end, and nothing else has changed.
  ghost predicate Gained<V(!new)>(before: Multimap<V>, after: Multimap<V>, key: Text, added: seq<V>) {
    forall k :: ValuesOf(after, k) == ValuesOf(before, k) + (if k == key then added else [])
  }
}
