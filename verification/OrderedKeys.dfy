/** The order in which a std::map is walked: ascending keys, each once. */
module OrderedKeys {

  ghost predicate Total<K(!new)>(less: (K, K) -> bool) {
    && (forall a :: !less(a, a))
    && (forall a, b :: a != b ==> less(a, b) || less(b, a))
    && (forall a, b, c :: less(a, b) && less(b, c) ==> less(a, c))
  }

  predicate IsLeast<K(==)>(less: (K, K) -> bool, s: set<K>, k: K) {
    k in s && forall j :: j in s ==> j == k || less(k, j)
  }

  lemma Trichotomy<K(!new)>(less: (K, K) -> bool, a: K, b: K)
    requires Total(less)
    ensures a == b || less(a, b) || less(b, a)
    ensures !(less(a, b) && less(b, a))
  {}

  lemma Transitive<K(!new)>(less: (K, K) -> bool, a: K, b: K, c: K)
    requires Total(less) && less(a, b) && less(b, c)
    ensures less(a, c)
  {}

  lemma {:induction false} LeastExists<K(!new)>(less: (K, K) -> bool, s: set<K>)
    requires Total(less) && s != {}
    ensures exists k :: IsLeast(less, s, k)
  {
    hide Total;
    var x :| x in s;
    var t := s - {x};
    if t == {} {
      assert s == {x};
      assert IsLeast(less, s, x);
    } else {
      LeastExists(less, t);
      var y :| IsLeast(less, t, y);
      Trichotomy(less, x, y);
      var least := if less(x, y) then x else y;
      forall j | j in s ensures j == least || less(least, j) {
        assert j == x || j in t;
        if less(x, y) && less(y, j) { Transitive(less, x, y, j); }
      }
      assert IsLeast(less, s, least);
    }
  }

  predicate Increasing<K>(less: (K, K) -> bool, r: seq<K>) {
    forall i, j :: 0 <= i < j < |r| ==> less(r[i], r[j])
  }

  /** The keys of a map in walking order. */
  function Ascending<K(!new, ==)>(less: (K, K) -> bool, s: set<K>): (r: seq<K>)
    requires Total(less)
    ensures |r| == |s| && Increasing(less, r)
    ensures forall k :: k in r <==> k in s
    decreases s
  {
    if s == {} then [] else
      LeastExists(less, s);
      var k :| IsLeast(less, s, k);
      [k] + Ascending(less, s - {k})
  }

  // ---------------------------------------------------------------- entries

  /** r lists the entries of m, each once. */
  ghost predicate Lists<K(!new), V>(r: seq<(K, V)>, m: map<K, V>) {
    && (forall i :: 0 <= i < |r| ==> r[i].0 in m && r[i].1 == m[r[i].0])
    && (forall i, j :: 0 <= i < j < |r| ==> r[i].0 != r[j].0)
    && (forall k :: k in m ==> exists i :: 0 <= i < |r| && r[i].0 == k)
  }

  lemma ListsAt<K(!new), V>(r: seq<(K, V)>, m: map<K, V>, i: nat)
    requires Lists(r, m) && i < |r|
    ensures r[i].0 in m && r[i].1 == m[r[i].0]
  {}

  lemma ListsFind<K(!new), V>(r: seq<(K, V)>, m: map<K, V>, k: K) returns (i: nat)
    requires Lists(r, m) && k in m
    ensures i < |r| && r[i] == (k, m[k])
  {
    i :| 0 <= i < |r| && r[i].0 == k;
  }

  /** The entries of a map in walking order. */
  function Items<K(!new, ==), V>(less: (K, K) -> bool, m: map<K, V>): (r: seq<(K, V)>)
    requires Total(less)
    ensures |r| == |m.Keys| && Lists(r, m)
  {
    var keys := Ascending(less, m.Keys);
    var r := seq(|keys|, i requires 0 <= i < |keys| => (keys[i], m[keys[i]]));
    ItemsList(less, m, keys, r);
    r
  }

  lemma ItemsIncrease<K(!new), V>(less: (K, K) -> bool, m: map<K, V>, i: nat, j: nat)
    requires Total(less) && i < j < |Items(less, m)|
    ensures less(Items(less, m)[i].0, Items(less, m)[j].0)
  {
    IncreasingAt(less, Ascending(less, m.Keys), i, j);
  }

  lemma ItemsList<K(!new), V>(less: (K, K) -> bool, m: map<K, V>, keys: seq<K>, r: seq<(K, V)>)
    requires Total(less) && keys == Ascending(less, m.Keys) && |r| == |keys|
    requires forall i :: 0 <= i < |keys| ==> keys[i] in m && r[i] == (keys[i], m[keys[i]])
    ensures Lists(r, m)
  {
    hide Total, Ascending, Increasing;
    forall i, j | 0 <= i < j < |r| ensures r[i].0 != r[j].0 {
      IncreasingAt(less, keys, i, j);
      Trichotomy(less, keys[i], keys[j]);
    }
    forall k | k in m ensures exists i :: 0 <= i < |r| && r[i].0 == k {
      var i := IndexOf(keys, k);
      assert r[i].0 == k;
    }
  }

  lemma IncreasingAt<K(!new)>(less: (K, K) -> bool, r: seq<K>, i: nat, j: nat)
    requires Increasing(less, r) && i < j < |r|
    ensures less(r[i], r[j])
  {}

  lemma IndexOf<K>(r: seq<K>, k: K) returns (i: nat)
    requires k in r
    ensures i < |r| && r[i] == k
  {
    i :| i < |r| && r[i] == k;
  }

  function IntLess(a: int, b: int): bool { a < b }

  lemma IntsTotal()
    ensures Total(IntLess)
  {}
}
