/** Iteration orders: Java walks a HashSet or a HashMap's keys in an order the model does not
    fix, so an operation whose result depends on that order is given it as a sequence. */
module Collections {
  /** `s` lists every element of `xs` exactly once. */
  predicate Enumerates<T(==)>(s: seq<T>, xs: set<T>)
  {
    && (forall i, j | 0 <= i < j < |s| :: s[i] != s[j])
    && (forall i | 0 <= i < |s| :: s[i] in xs)
    && (forall x | x in xs :: x in s)
  }

  /** An enumeration is as long as the set has elements. */
  lemma {:induction false} EnumerationLength<T>(s: seq<T>, xs: set<T>)
    requires Enumerates(s, xs)
    ensures |s| == |xs|
  {
    if s != [] {
      var last := s[|s| - 1];
      var init := s[..|s| - 1];
      assert forall x :: x in init <==> x in xs - {last} by {
        forall x ensures x in init <==> x in xs - {last} {
          if x in init {
            var i :| 0 <= i < |init| && init[i] == x;
            assert s[i] != s[|s| - 1];
          }
          if x in xs - {last} {
            assert x in s;
            var i :| 0 <= i < |s| && s[i] == x;
            assert i != |s| - 1;
            assert init[i] == x;
          }
        }
      }
      EnumerationLength(init, xs - {last});
    }
  }

  /** Putting a value under a fresh key adds exactly that value to the map's values. */
  lemma ValuesAdd<K, V>(m: map<K, V>, k: K, v: V)
    requires k !in m
    ensures m[k := v].Values == m.Values + {v}
  {
    forall x | x in m[k := v].Values ensures x in m.Values + {v} {
      var j :| j in m[k := v] && m[k := v][j] == x;
      if j != k {
        assert m[j] == x;
      }
    }
    forall x | x in m.Values ensures x in m[k := v].Values {
      var j :| j in m && m[j] == x;
      assert m[k := v][j] == x;
    }
    assert m[k := v][k] == v;
  }

  /** Putting back one removed key. */
  lemma MapMinusAdd<K, V>(m: map<K, V>, s: set<K>, k: K)
    requires k in s && k in m
    ensures (m - s)[k := m[k]] == m - (s - {k})
  {
  }
}
