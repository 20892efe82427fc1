/** Lists of key/value pairs read as finite maps. */
module Assoc {

  ghost function ToMap<K, V>(s: seq<(K, V)>): map<K, V>
  {
    if s == [] then map[]
    else ToMap(s[..|s| - 1])[s[|s| - 1].0 := s[|s| - 1].1]
  }

  ghost predicate HasKey<K, V>(s: seq<(K, V)>, k: K)
  {
    exists i :: 0 <= i < |s| && s[i].0 == k
  }

  ghost predicate DistinctKeys<K, V>(s: seq<(K, V)>)
  {
    forall i, j :: 0 <= i < j < |s| ==> s[i].0 != s[j].0
  }

  lemma {:induction false} MapKeys<K, V>(s: seq<(K, V)>, k: K)
    ensures k in ToMap(s) <==> HasKey(s, k)
  {
    if s != [] {
      var t := s[..|s| - 1];
      MapKeys(t, k);
      if HasKey(t, k) {
        var i :| 0 <= i < |t| && t[i].0 == k;
        assert s[i].0 == k;
      }
      if HasKey(s, k) {
        var i :| 0 <= i < |s| && s[i].0 == k;
        assert i < |t| ==> t[i].0 == k;
      }
    }
  }

  lemma {:induction false} MapAt<K, V>(s: seq<(K, V)>, i: nat)
    requires DistinctKeys(s) && i < |s|
    ensures s[i].0 in ToMap(s) && ToMap(s)[s[i].0] == s[i].1
  {
    if i < |s| - 1 {
      var t := s[..|s| - 1];
      assert DistinctKeys(t);
      MapAt(t, i);
      assert t[i] == s[i];
      assert s[i].0 != s[|s| - 1].0;
    }
  }

  lemma {:induction false} MapConcat<K, V>(a: seq<(K, V)>, b: seq<(K, V)>)
    ensures ToMap(a + b) == ToMap(a) + ToMap(b)
  {
    if b == [] {
      assert a + b == a;
    } else {
      var n := |b| - 1;
      MapConcat(a, b[..n]);
      assert (a + b)[..|a + b| - 1] == a + b[..n];
    }
  }

  /** A pair inserted anywhere, under a key that the list does not hold, updates the map. */
  lemma InsertAt<K, V>(a: seq<(K, V)>, k: K, v: V, b: seq<(K, V)>)
    requires !HasKey(a + b, k)
    ensures ToMap(a + [(k, v)] + b) == ToMap(a + b)[k := v]
  {
    MapConcat(a + [(k, v)], b);
    MapConcat(a, [(k, v)]);
    MapConcat(a, b);
    MapKeys(a + b, k);
    assert (a + [(k, v)])[..|a|] == a;
  }

  /** Taking the only pair with its key out of the list removes that key and nothing else. */
  lemma RemoveAt<K, V>(a: seq<(K, V)>, k: K, v: V, b: seq<(K, V)>)
    requires DistinctKeys(a + [(k, v)] + b)
    ensures ToMap(a + b) == ToMap(a + [(k, v)] + b) - {k}
    ensures DistinctKeys(a + b) && !HasKey(a + b, k)
  {
    var s := a + [(k, v)] + b;
    assert s[|a|].0 == k;
    forall i | 0 <= i < |a + b|
      ensures (a + b)[i].0 != k && (a + b)[i] == s[if i < |a| then i else i + 1]
    {
      var j := if i < |a| then i else i + 1;
      assert s[j].0 != s[|a|].0;
    }
    InsertAt(a, k, v, b);
    MapKeys(a + b, k);
  }

  /** Overwriting the value of one pair overwrites it in the map. */
  lemma ReplaceAt<K, V>(s: seq<(K, V)>, i: nat, v: V)
    requires DistinctKeys(s) && i < |s|
    ensures ToMap(s[i := (s[i].0, v)]) == ToMap(s)[s[i].0 := v]
    ensures DistinctKeys(s[i := (s[i].0, v)])
  {
    var a, b, k := s[..i], s[i + 1..], s[i].0;
    assert s == a + [(k, s[i].1)] + b;
    assert s[i := (k, v)] == a + [(k, v)] + b;
    RemoveAt(a, k, s[i].1, b);
    InsertAt(a, k, s[i].1, b);
    InsertAt(a, k, v, b);
  }
}
