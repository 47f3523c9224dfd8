/**
 * A Go `for _, v := range m { out = append(out, v) }` loop. Go leaves the iteration order
 * unspecified, so the model picks each next key by an arbitrary choice and reports the order
 * it took as a ghost sequence of keys.
 */
module MapListing {

  ghost predicate Distinct(ks: seq<int>) {
    forall i, j :: 0 <= i < j < |ks| ==> ks[i] != ks[j]
  }

  /** `vs` lists the values of `m` in the key order `ks`, each key taken exactly once. */
  ghost predicate Enumerates<V>(vs: seq<V>, ks: seq<int>, m: map<int, V>) {
    && |vs| == |ks|
    && Distinct(ks)
    && (forall k :: k in m <==> k in ks)
    && (forall i :: 0 <= i < |ks| ==> ks[i] in m && vs[i] == m[ks[i]])
  }

  lemma {:induction false} DistinctSize(ks: seq<int>)
    requires Distinct(ks)
    ensures |set k | k in ks| == |ks|
  {
    if ks != [] {
      var rest := ks[1..];
      assert Distinct(rest) by {
        forall i, j | 0 <= i < j < |rest| ensures rest[i] != rest[j] {
          assert rest[i] == ks[i + 1] && rest[j] == ks[j + 1];
        }
      }
      DistinctSize(rest);
      assert (set k | k in ks) == {ks[0]} + (set k | k in rest);
      assert ks[0] !in (set k | k in rest) by {
        forall i | 0 <= i < |rest| ensures rest[i] != ks[0] {
          assert rest[i] == ks[i + 1];
        }
      }
    }
  }

  /** An enumeration is as long as the map is large and holds its values and nothing else. */
  lemma EnumerationSize<V>(vs: seq<V>, ks: seq<int>, m: map<int, V>)
    requires Enumerates(vs, ks, m)
    ensures |vs| == |m|
    ensures forall v :: v in vs <==> v in m.Values
  {
    DistinctSize(ks);
    assert (set k | k in ks) == m.Keys by {
      forall k ensures k in (set k | k in ks) <==> k in m.Keys {}
    }
    forall v | v in m.Values ensures v in vs {
      var k :| k in m && m[k] == v;
      var i :| 0 <= i < |ks| && ks[i] == k;
      assert vs[i] == v;
    }
  }

  lemma NoKeysEmpty(s: set<int>)
    requires forall k :: k !in s
    ensures s == {}
  {
    forall k ensures k in s <==> k in {} {}
  }

  lemma NonEmptyHasKey(s: set<int>)
    requires s != {}
    ensures exists k :: k in s
  {
    if forall k :: k !in s {
      NoKeysEmpty(s);
      assert false;
    }
  }

  method Values<V(==)>(m: map<int, V>) returns (vs: seq<V>, ghost ks: seq<int>)
    ensures Enumerates(vs, ks, m)
    ensures |vs| == |m|
    ensures forall v :: v in vs <==> v in m.Values
  {
    vs, ks := [], [];
    var rest := m.Keys;
    while rest != {}
      invariant rest <= m.Keys
      invariant |vs| == |ks|
      invariant Distinct(ks)
      invariant forall i :: 0 <= i < |ks| ==> ks[i] in m && ks[i] !in rest && vs[i] == m[ks[i]]
      invariant forall k :: k in m ==> k in rest || k in ks
      invariant forall k :: k in ks ==> k in m
      decreases rest
    {
      NonEmptyHasKey(rest);
      var k :| k in rest;
      vs, ks := vs + [m[k]], ks + [k];
      rest := rest - {k};
    }
    EnumerationSize(vs, ks, m);
  }
}
