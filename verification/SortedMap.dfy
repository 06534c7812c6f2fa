/** `std::map<std::string, std::string>`: pairs in strictly increasing order of their keys. */
module SortedMap {

  type Pairs = seq<(string, string)>

  /** Lexicographic order of keys. */
  predicate Less(a: string, b: string) {
    b != "" && (a == "" || a[0] < b[0] || (a[0] == b[0] && Less(a[1..], b[1..])))
  }

  /** `a` is a proper prefix of `b`, or smaller at the first position where they differ. */
  ghost predicate Precedes(a: string, b: string) {
    a < b || exists i :: SmallerAt(a, b, i)
  }

  predicate SmallerAt(a: string, b: string, i: int) {
    0 <= i < |a| && i < |b| && a[..i] == b[..i] && a[i] < b[i]
  }

  lemma {:induction false} LessExactly(a: string, b: string)
    ensures Less(a, b) <==> Precedes(a, b)
  {
    if a == "" || b == "" {
      assert a == "" && b != "" ==> a < b;
    } else if a[0] != b[0] {
      assert a[0] < b[0] ==> SmallerAt(a, b, 0);
    } else {
      var a', b' := a[1..], b[1..];
      LessExactly(a', b');
      assert a == [a[0]] + a' && b == [a[0]] + b';
      PrecedesMore(a[0], a', b');
    }
  }

  lemma PrecedesMore(c: char, a: string, b: string)
    ensures Precedes([c] + a, [c] + b) <==> Precedes(a, b)
  {
    var a', b' := [c] + a, [c] + b;
    assert a' < b' <==> a < b by {
      assert a'[1..] == a && b'[1..] == b;
      assert a < b ==> b'[..|a'|] == [c] + b[..|a|];
      assert a' < b' ==> b[..|a|] == b'[..|a'|][1..];
    }
    if i :| SmallerAt(a, b, i) {
      var j := i + 1;
      assert a'[..j] == [c] + a[..i] && b'[..j] == [c] + b[..i];
      assert SmallerAt(a', b', j);
    }
    if j :| SmallerAt(a', b', j) {
      var i := j - 1;
      assert a'[..j][1..] == a[..i] && b'[..j][1..] == b[..i];
      assert SmallerAt(a, b, i);
    }
  }

  lemma {:induction false} LessTotal(a: string, b: string)
    ensures a == b || Less(a, b) || Less(b, a)
    ensures !(Less(a, b) && Less(b, a)) && !Less(a, a)
  {
    if a != "" {
      LessTotal(a[1..], a[1..]);
      if b != "" {
        LessTotal(a[1..], b[1..]);
        assert a == [a[0]] + a[1..] && b == [b[0]] + b[1..];
      }
    }
  }

  lemma {:induction false} LessTransitive(a: string, b: string, c: string)
    requires Less(a, b) && Less(b, c)
    ensures Less(a, c)
  {
    if a != "" && a[0] == b[0] == c[0] {
      LessTransitive(a[1..], b[1..], c[1..]);
    }
  }

  ghost predicate Sorted(m: Pairs) {
    forall i, j | 0 <= i < j < |m| :: Less(m[i].0, m[j].0)
  }

  /** Every key precedes the keys behind it, character by character. */
  ghost predicate Ascending(m: Pairs) {
    forall i, j | 0 <= i < j < |m| :: Precedes(m[i].0, m[j].0)
  }

  lemma SortedExactly(m: Pairs)
    ensures Sorted(m) <==> Ascending(m)
  {
    forall i, j | 0 <= i < j < |m| ensures Less(m[i].0, m[j].0) <==> Precedes(m[i].0, m[j].0) {
      LessExactly(m[i].0, m[j].0);
    }
  }

  /** `m[k] = v`: overwrite, or insert in order. */
  function Put(m: Pairs, k: string, v: string): Pairs {
    if m == [] then [(k, v)]
    else if m[0].0 == k then [(k, v)] + m[1..]
    else if Less(k, m[0].0) then [(k, v)] + m
    else [m[0]] + Put(m[1..], k, v)
  }

  function PutAll(m: Pairs, l: Pairs): Pairs
    decreases |l|
  {
    if l == [] then m else PutAll(Put(m, l[0].0, l[0].1), l[1..])
  }

  /** What a list of pairs says of a key: the last pair wins. */
  function MapOf(l: Pairs): map<string, string> {
    if l == [] then map[] else MapOf(l[..|l| - 1])[l[|l| - 1].0 := l[|l| - 1].1]
  }

  lemma {:induction false} MapOfConcat(a: Pairs, b: Pairs)
    ensures MapOf(a + b) == MapOf(a) + MapOf(b)
    decreases |b|
  {
    if b == [] {
      assert a + b == a;
    } else {
      assert (a + b)[..|a + b| - 1] == a + b[..|b| - 1];
      MapOfConcat(a, b[..|b| - 1]);
    }
  }

  lemma MapOfCons(x: (string, string), l: Pairs)
    ensures MapOf([x] + l) == map[x.0 := x.1] + MapOf(l)
  {
    MapOfConcat([x], l);
    assert MapOf([x]) == map[x.0 := x.1];
  }

  lemma {:induction false} MapOfKeys(l: Pairs)
    ensures forall k :: k in MapOf(l) <==> exists i :: 0 <= i < |l| && l[i].0 == k
    decreases |l|
  {
    if l != [] {
      var n := |l| - 1;
      MapOfKeys(l[..n]);
      forall k ensures k in MapOf(l) <==> exists i :: 0 <= i < |l| && l[i].0 == k {
        if k in MapOf(l[..n]) {
          var i :| 0 <= i < n && l[..n][i].0 == k;
          assert l[i].0 == k;
        }
      }
    }
  }

  lemma {:induction false} PutKeepsSorted(m: Pairs, k: string, v: string)
    requires Sorted(m)
    ensures Sorted(Put(m, k, v))
    ensures forall i | 0 <= i < |Put(m, k, v)| ::
              Put(m, k, v)[i].0 == k || exists j | 0 <= j < |m| :: m[j].0 == Put(m, k, v)[i].0
  {
    var r := Put(m, k, v);
    if m == [] {
    } else if m[0].0 == k {
      assert forall i | 1 <= i < |r| :: r[i] == m[i];
    } else if Less(k, m[0].0) {
      forall j | 1 <= j < |r| ensures Less(k, r[j].0) {
        assert r[j] == m[j - 1];
        if j > 1 {
          LessTransitive(k, m[0].0, m[j - 1].0);
        }
      }
      assert forall i | 1 <= i < |r| :: r[i] == m[i - 1];
    } else {
      LessTotal(k, m[0].0);
      var q := Put(m[1..], k, v);
      PutKeepsSorted(m[1..], k, v);
      forall j | 0 <= j < |q| ensures Less(m[0].0, q[j].0) && (q[j].0 == k || exists i | 0 <= i < |m| :: m[i].0 == q[j].0) {
        if q[j].0 != k {
          var i :| 0 <= i < |m[1..]| && m[1..][i].0 == q[j].0;
          assert m[i + 1].0 == q[j].0;
        }
      }
      assert forall i | 1 <= i < |r| :: r[i] == q[i - 1];
    }
  }

  /** An assignment keeps the keys in ascending order. */
  lemma PutSorted(m: Pairs, k: string, v: string)
    requires Ascending(m)
    ensures Ascending(Put(m, k, v))
  {
    SortedExactly(m);
    PutKeepsSorted(m, k, v);
    SortedExactly(Put(m, k, v));
  }

  lemma UpdateFirst<K, V>(a: map<K, V>, k: K, v: V, b: map<K, V>)
    ensures a[k := v] + b == a + (map[k := v] + b)
    ensures a + b[k := v] == (a + b)[k := v]
    ensures k !in b ==> a[k := v] + b == (a + b)[k := v]
  {
  }

  lemma {:induction false} PutMap(m: Pairs, k: string, v: string)
    requires Sorted(m)
    ensures MapOf(Put(m, k, v)) == MapOf(m)[k := v]
  {
    if m == [] {
      assert [(k, v)] == [(k, v)] + [];
      MapOfCons((k, v), []);
    } else {
      var t := m[1..];
      assert m == [m[0]] + t;
      MapOfCons(m[0], t);
      if m[0].0 == k {
        NotInTail(m);
        MapOfCons((k, v), t);
        UpdateFirst(map[k := m[0].1], k, v, MapOf(t));
        assert map[k := m[0].1][k := v] == map[k := v];
      } else if Less(k, m[0].0) {
        NotBelow(m, k);
        MapOfCons((k, v), m);
        UpdateFirst(map[], k, v, MapOf(m));
        assert map[] + MapOf(m) == MapOf(m);
      } else {
        PutMap(t, k, v);
        MapOfCons(m[0], Put(t, k, v));
        UpdateFirst(map[m[0].0 := m[0].1], k, v, MapOf(t));
      }
    }
  }

  lemma NotInTail(m: Pairs)
    requires Sorted(m) && m != []
    ensures m[0].0 !in MapOf(m[1..])
  {
    MapOfKeys(m[1..]);
    forall i | 0 <= i < |m[1..]| ensures m[1..][i].0 != m[0].0 {
      LessTotal(m[0].0, m[i + 1].0);
    }
  }

  lemma NotBelow(m: Pairs, k: string)
    requires Sorted(m) && m != [] && Less(k, m[0].0)
    ensures k !in MapOf(m)
  {
    MapOfKeys(m);
    forall i | 0 <= i < |m| ensures m[i].0 != k {
      if i > 0 {
        LessTransitive(k, m[0].0, m[i].0);
      }
      LessTotal(k, m[i].0);
    }
  }

  lemma {:induction false} PutAllSorted(m: Pairs, l: Pairs)
    requires Sorted(m)
    ensures Sorted(PutAll(m, l)) && MapOf(PutAll(m, l)) == MapOf(m) + MapOf(l)
    decreases |l|
  {
    if l != [] {
      var (k, v) := l[0];
      PutKeepsSorted(m, k, v);
      PutMap(m, k, v);
      PutAllSorted(Put(m, k, v), l[1..]);
      assert l == [l[0]] + l[1..];
      MapOfCons(l[0], l[1..]);
      UpdateFirst(MapOf(m), k, v, MapOf(l[1..]));
    }
  }

  /** Putting the pairs of a sorted map in order into an empty one gives it back. */
  lemma {:induction false} PutAllInOrder(m: Pairs, l: Pairs)
    requires Sorted(m + l)
    ensures PutAll(m, l) == m + l
    decreases |l|
  {
    if l == [] {
      assert m + l == m;
    } else {
      var (k, v) := l[0];
      forall i | 0 <= i < |m| ensures Less(m[i].0, k) {
        assert (m + l)[i] == m[i] && (m + l)[|m|] == l[0];
      }
      PutLast(m, k, v);
      assert (m + [l[0]]) + l[1..] == m + l;
      PutAllInOrder(m + [l[0]], l[1..]);
    }
  }

  lemma {:induction false} PutLast(m: Pairs, k: string, v: string)
    requires forall i | 0 <= i < |m| :: Less(m[i].0, k)
    ensures Put(m, k, v) == m + [(k, v)]
  {
    if m != [] {
      LessTotal(m[0].0, k);
      PutLast(m[1..], k, v);
    }
  }
}
