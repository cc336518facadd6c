/**
 Finite sets: choosing elements, least elements and counting through injections.
 */
module Finite {

  lemma NonEmpty<T>(s: set<T>)
    ensures s == {} || exists x :: x in s
  {
    if forall x :: x !in s {
      assert s == {};
    }
  }

  lemma HeadIn<T>(s: seq<T>)
    ensures s == [] || s[0] in s
  {
  }

  ghost function Pick<T>(s: set<T>): (x: T)
    requires s != {}
    ensures x in s
  {
    NonEmpty(s);
    var x :| x in s;
    x
  }

  lemma LeastExists(s: set<int>) returns (m: int)
    requires s != {}
    ensures m in s && forall x | x in s :: m <= x
    decreases |s|
  {
    m := Pick(s);
    var rest := s - {m};
    if rest != {} {
      assert s == rest + {m};
      var n := LeastExists(rest);
      if n < m {
        m := n;
      }
    } else {
      assert s == {m};
    }
  }

  /** `BTreeSet::first` and `BTreeMap::first_key_value`. */
  function Least(s: set<int>): (m: int)
    requires s != {}
    ensures m in s && forall x | x in s :: m <= x
  {
    assert exists m :: m in s && forall x | x in s :: m <= x by {
      var m := LeastExists(s);
    }
    var m :| m in s && forall x | x in s :: m <= x;
    m
  }

  lemma {:induction false} SubsetSize<T>(a: set<T>, b: set<T>)
    requires a <= b
    ensures |a| <= |b|
    ensures |a| == |b| ==> a == b
    decreases |a|
  {
    if a != {} {
      var x := Pick(a);
      SubsetSize(a - {x}, b - {x});
      assert a == (a - {x}) + {x};
      assert b == (b - {x}) + {x};
    } else if |b| == 0 {
      assert b == {};
    }
  }

  lemma UnionAssociative<T>(a: set<T>, b: set<T>, c: set<T>)
    ensures (a + b) + c == a + (b + c)
  {
  }

  lemma AddedSize<T>(s: set<T>, x: T)
    requires x !in s
    ensures |s + {x}| == |s| + 1
  {
  }

  ghost predicate InjectiveOn<K, V>(m: map<K, V>, keys: set<K>) {
    && keys <= m.Keys
    && forall x, y | x in keys && y in keys && m[x] == m[y] :: x == y
  }

  ghost function Image<K, V>(m: map<K, V>, keys: set<K>): set<V>
    requires keys <= m.Keys
  {
    set x | x in keys :: m[x]
  }

  ghost function Preimage<K, V>(m: map<K, V>, keys: set<K>, v: V): (k: K)
    requires keys <= m.Keys && v in Image(m, keys)
    ensures k in keys && m[k] == v
  {
    var k :| k in keys && m[k] == v;
    k
  }

  lemma {:induction false} ImageSize<K, V>(m: map<K, V>, keys: set<K>)
    requires InjectiveOn(m, keys)
    ensures |Image(m, keys)| == |keys|
    decreases |keys|
  {
    if keys == {} {
      assert Image(m, keys) == {};
    } else {
      var x := Pick(keys);
      var rest := keys - {x};
      ImageSize(m, rest);
      assert m[x] !in Image(m, rest);
      assert Image(m, keys) == Image(m, rest) + {m[x]};
      assert keys == rest + {x};
    }
  }
}
