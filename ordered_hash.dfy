/**
 * Ruby's Hash keeps its keys in insertion order, and `h[k] = v` on an existing key
 * replaces the value where it stands. This module models such a hash as a sequence
 * of key/value pairs, together with the `(memo[k] ||= []) << x` grouping idiom.
 */
module OrderedHash {
  import opened Wrappers

  type Hash<K, V> = seq<(K, V)>

  function Keys<K, V>(h: Hash<K, V>): (ks: seq<K>)
    ensures |ks| == |h|
    ensures forall i :: 0 <= i < |h| ==> ks[i] == h[i].0
  {
    seq(|h|, i requires 0 <= i < |h| => h[i].0)
  }

  /** No key occurs twice: the shape every Ruby Hash has. */
  predicate DistinctKeys<K(==), V>(h: Hash<K, V>) {
    forall i, j :: 0 <= i < j < |h| ==> h[i].0 != h[j].0
  }

  /** `h[k]`: the value stored under `k`, or None for a missing key. */
  function Get<K(==), V>(h: Hash<K, V>, k: K): (r: Option<V>)
    ensures r.None? <==> k !in Keys(h)
  {
    if h == [] then None
    else if h[0].0 == k then Some(h[0].1)
    else Get(h[1..], k)
  }

  /** `h[k] = v`: replaces the value of an existing key in place, appends a new key at the end. */
  function Put<K(==), V>(h: Hash<K, V>, k: K, v: V): (r: Hash<K, V>)
    ensures Keys(r) == if k in Keys(h) then Keys(h) else Keys(h) + [k]
  {
    if h == [] then [(k, v)]
    else if h[0].0 == k then [(k, v)] + h[1..]
    else [h[0]] + Put(h[1..], k, v)
  }

  lemma {:induction false} GetOfDistinct<K, V>(h: Hash<K, V>, i: nat)
    requires DistinctKeys(h) && i < |h|
    ensures Get(h, h[i].0) == Some(h[i].1)
  {
    if i > 0 {
      assert h[0].0 != h[i].0;
      GetOfDistinct(h[1..], i - 1);
    }
  }

  /** Writing a key keeps the keys distinct. */
  lemma PutDistinct<K, V>(h: Hash<K, V>, k: K, v: V)
    requires DistinctKeys(h)
    ensures DistinctKeys(Put(h, k, v))
  {
    var r := Put(h, k, v);
    var ks := Keys(r);
    forall i, j | 0 <= i < j < |r| ensures r[i].0 != r[j].0 {
      assert r[i].0 == ks[i] && r[j].0 == ks[j];
      if j < |h| {
        assert ks[i] == Keys(h)[i] && ks[j] == Keys(h)[j];
      } else {
        assert ks[i] == Keys(h)[i] && ks[j] == k;
      }
    }
  }

  /** Writing a key changes what that key reads and nothing else. */
  lemma {:induction false} PutGet<K, V>(h: Hash<K, V>, k: K, v: V, k': K)
    ensures Get(Put(h, k, v), k') == if k' == k then Some(v) else Get(h, k')
  {
    if h != [] && h[0].0 != k {
      PutGet(h[1..], k, v, k');
      assert Put(h, k, v)[1..] == Put(h[1..], k, v);
    } else if h != [] {
      assert Put(h, k, v)[1..] == h[1..];
    }
  }

  /** Both facts about a write, for every key. */
  lemma PutSpec<K, V>(h: Hash<K, V>, k: K, v: V)
    requires DistinctKeys(h)
    ensures DistinctKeys(Put(h, k, v))
    ensures forall k' :: Get(Put(h, k, v), k') == if k' == k then Some(v) else Get(h, k')
  {
    PutDistinct(h, k, v);
    forall k' ensures Get(Put(h, k, v), k') == if k' == k then Some(v) else Get(h, k') {
      PutGet(h, k, v, k');
    }
  }

  /** The elements of `xs` whose key is `k`, in their original order. */
  function Select<K(==), V>(xs: seq<V>, key: V -> K, k: K): (r: seq<V>)
    ensures forall i :: 0 <= i < |r| ==> r[i] in xs && key(r[i]) == k
    ensures forall i :: 0 <= i < |xs| && key(xs[i]) == k ==> xs[i] in r
  {
    if xs == [] then []
    else Select(xs[..|xs| - 1], key, k) + (if key(xs[|xs| - 1]) == k then [xs[|xs| - 1]] else [])
  }

  /**
   * `xs.inject({}) { |memo, x| (memo[key(x)] ||= []) << x; memo }`: groups the elements by key,
   * keys in order of first appearance, each group in its original order.
   */
  function GroupBy<K(==), V>(xs: seq<V>, key: V -> K): Hash<K, seq<V>>
  {
    if xs == [] then []
    else
      var memo := GroupBy(xs[..|xs| - 1], key);
      var x := xs[|xs| - 1];
      Put(memo, key(x), Get(memo, key(x)).GetOr([]) + [x])
  }

  /** Some element of `xs` has key `k`. */
  predicate HasKey<K(==), V>(xs: seq<V>, key: V -> K, k: K) {
    exists i :: 0 <= i < |xs| && key(xs[i]) == k
  }

  /** Grouping never produces a key twice. */
  lemma {:induction false} GroupByDistinct<K, V>(xs: seq<V>, key: V -> K)
    ensures DistinctKeys(GroupBy(xs, key))
  {
    if xs != [] {
      var memo := GroupBy(xs[..|xs| - 1], key);
      var x := xs[|xs| - 1];
      GroupByDistinct(xs[..|xs| - 1], key);
      PutSpec(memo, key(x), Get(memo, key(x)).GetOr([]) + [x]);
    }
  }

  /** Grouping keeps every element, in order, under its own key, and nothing else. */
  lemma {:induction false} GroupByGet<K, V>(xs: seq<V>, key: V -> K, k: K)
    ensures Get(GroupBy(xs, key), k) == (if HasKey(xs, key, k) then Some(Select(xs, key, k)) else None)
  {
    if xs != [] {
      var init := xs[..|xs| - 1];
      var x := xs[|xs| - 1];
      var memo := GroupBy(init, key);
      var grp := Get(memo, key(x)).GetOr([]) + [x];
      assert GroupBy(xs, key) == Put(memo, key(x), grp);
      assert Select(xs, key, k) == Select(init, key, k) + (if key(x) == k then [x] else []);
      GroupByGet(init, key, k);
      GroupByDistinct(init, key);
      PutGet(memo, key(x), grp, k);
      if k == key(x) {
        HasKeyLast(xs, key);
        if !HasKey(init, key, k) {
          SelectEmpty(init, key, k);
        }
        assert Get(memo, k).GetOr([]) == Select(init, key, k);
        assert Get(GroupBy(xs, key), k) == Some(Select(xs, key, k));
      } else {
        HasKeyInit(xs, key, k);
        assert Get(GroupBy(xs, key), k) == Get(memo, k);
        assert Select(xs, key, k) == Select(init, key, k);
      }
    } else {
      assert !HasKey(xs, key, k);
    }
  }

  lemma HasKeyLast<K, V>(xs: seq<V>, key: V -> K)
    requires xs != []
    ensures HasKey(xs, key, key(xs[|xs| - 1]))
  {
    assert key(xs[|xs| - 1]) == key(xs[|xs| - 1]);
  }

  lemma HasKeyInit<K, V>(xs: seq<V>, key: V -> K, k: K)
    requires xs != [] && key(xs[|xs| - 1]) != k
    ensures HasKey(xs, key, k) <==> HasKey(xs[..|xs| - 1], key, k)
  {
    var init := xs[..|xs| - 1];
    if HasKey(xs, key, k) {
      var j :| 0 <= j < |xs| && key(xs[j]) == k;
      assert j < |init| && init[j] == xs[j];
    }
    if HasKey(init, key, k) {
      var j :| 0 <= j < |init| && key(init[j]) == k;
      assert xs[j] == init[j];
    }
  }

  lemma SelectEmpty<K, V>(xs: seq<V>, key: V -> K, k: K)
    requires !HasKey(xs, key, k)
    ensures Select(xs, key, k) == []
  {
  }

  /** An element is selected exactly when it is in `xs` under key `k`. */
  lemma SelectMember<K, V>(xs: seq<V>, key: V -> K, k: K, x: V)
    ensures x in Select(xs, key, k) <==> x in xs && key(x) == k
    ensures x in Select(xs, key, k) ==> HasKey(xs, key, k)
  {
    if x in Select(xs, key, k) {
      var r := Select(xs, key, k);
      var i :| 0 <= i < |r| && r[i] == x;
      var j :| 0 <= j < |xs| && xs[j] == x;
    }
    if x in xs && key(x) == k {
      var j :| 0 <= j < |xs| && xs[j] == x;
    }
  }
}
