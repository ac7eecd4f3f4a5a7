/** Sizes of finite sets and maps. */
module Finite {

  lemma {:induction false} SubsetSize<T>(a: set<T>, b: set<T>)
    requires a <= b
    ensures |a| <= |b|
    decreases b
  {
    if b == {} {
    } else {
      var x :| x in b;
      SubsetSize(a - {x}, b - {x});
      if x !in a {
        assert a - {x} == a;
      }
    }
  }

  lemma {:induction false} InjectiveSize<K, V>(m: map<K, V>)
    requires forall k, k' :: k in m && k' in m && m[k] == m[k'] ==> k == k'
    ensures |m.Values| == |m|
    decreases |m|
  {
    if m.Keys == {} {
      assert m.Values == {};
    } else {
      var k :| k in m;
      var m' := m - {k};
      assert m'.Keys == m.Keys - {k} && |m'.Keys| == |m.Keys| - 1;
      InjectiveSize(m');
      assert m[k] !in m'.Values;
      forall v | v in m.Values ensures v in m'.Values + {m[k]} {
        var j :| j in m && m[j] == v;
        assert j == k || j in m';
      }
      assert m.Values == m'.Values + {m[k]};
    }
  }
}
