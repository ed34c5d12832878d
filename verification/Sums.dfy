/** Sums over the keys of a map. */
module Sums {
  /** The sum of the values at some keys of a map. `SumRemove` says that the order of picking is no matter. */
  ghost function Sum<K>(m: map<K, nat>, ids: set<K>): nat
    requires ids <= m.Keys
    decreases |ids|
  {
    if ids == {} then 0
    else
      var id :| id in ids;
      m[id] + Sum(m, ids - {id})
  }

  lemma {:induction false} SumRemove<K>(m: map<K, nat>, ids: set<K>, id: K)
    requires ids <= m.Keys && id in ids
    ensures Sum(m, ids) == m[id] + Sum(m, ids - {id})
    decreases |ids|
  {
    var x :| x in ids && Sum(m, ids) == m[x] + Sum(m, ids - {x});
    if x != id {
      SumRemove(m, ids - {x}, id);
      SumRemove(m, ids - {id}, x);
      assert ids - {x} - {id} == ids - {id} - {x};
    }
  }

  lemma SumAdd<K>(m: map<K, nat>, ids: set<K>, id: K)
    requires ids <= m.Keys && id in m && id !in ids
    ensures Sum(m, ids + {id}) == m[id] + Sum(m, ids)
  {
    SumRemove(m, ids + {id}, id);
    assert ids + {id} - {id} == ids;
  }

  /** Two sets together and what they share weigh as much as the two apart. */
  lemma {:induction false} SumUnion<K>(m: map<K, nat>, a: set<K>, b: set<K>)
    requires a <= m.Keys && b <= m.Keys
    ensures Sum(m, a + b) + Sum(m, a * b) == Sum(m, a) + Sum(m, b)
    decreases |a|
  {
    if a == {} {
      assert a + b == b && a * b == {};
    } else {
      var id :| id in a;
      var rest := a - {id};
      SumUnion(m, rest, b);
      SumRemove(m, a, id);
      if id in b {
        assert a + b == rest + b && a * b == rest * b + {id};
        SumAdd(m, rest * b, id);
      } else {
        assert a + b == rest + b + {id} && a * b == rest * b;
        SumAdd(m, rest + b, id);
      }
    }
  }

  lemma SumSubset<K>(m: map<K, nat>, a: set<K>, b: set<K>)
    requires a <= b <= m.Keys
    ensures Sum(m, a) <= Sum(m, b)
  {
    SumUnion(m, a, b - a);
    assert a + (b - a) == b;
  }

  lemma {:induction false} SumAgree<K>(m: map<K, nat>, n: map<K, nat>, ids: set<K>)
    requires ids <= m.Keys && ids <= n.Keys && forall id | id in ids :: m[id] == n[id]
    ensures Sum(m, ids) == Sum(n, ids)
    decreases |ids|
  {
    if ids != {} {
      var id :| id in ids;
      SumRemove(m, ids, id);
      SumRemove(n, ids, id);
      SumAgree(m, n, ids - {id});
    }
  }

  ghost function Total<K>(m: map<K, nat>): nat {
    Sum(m, m.Keys)
  }

  lemma TotalAdd<K>(m: map<K, nat>, id: K, v: nat)
    requires id !in m
    ensures Total(m[id := v]) == Total(m) + v
  {
    SumAgree(m, m[id := v], m.Keys);
    assert m[id := v].Keys == m.Keys + {id};
    SumAdd(m[id := v], m.Keys, id);
  }

  lemma TotalRemove<K>(m: map<K, nat>, id: K)
    requires id in m
    ensures Total(m) == m[id] + Total(m - {id})
  {
    SumRemove(m, m.Keys, id);
    assert (m - {id}).Keys == m.Keys - {id};
    SumAgree(m, m - {id}, m.Keys - {id});
  }

  lemma TotalUpdate<K>(m: map<K, nat>, id: K, v: nat)
    ensures Total(m[id := v]) + (if id in m then m[id] else 0) == Total(m) + v
  {
    if id in m {
      TotalRemove(m, id);
      TotalRemove(m[id := v], id);
      assert m[id := v] - {id} == m - {id};
    } else {
      TotalAdd(m, id, v);
    }
  }

  lemma TotalAtLeast<K>(m: map<K, nat>, id: K)
    requires id in m
    ensures m[id] <= Total(m)
  {
    TotalRemove(m, id);
  }
}
