/** Order-preserving selection over sequences: the shape every repository query takes here. */
module Seqs {

  /** The elements of `s` that satisfy `p`, in their original order. */
  function Filter<T(==)>(s: seq<T>, p: T -> bool): (r: seq<T>)
    ensures |r| <= |s|
    ensures forall i :: 0 <= i < |r| ==> r[i] in s && p(r[i])
    ensures forall i :: 0 <= i < |s| && p(s[i]) ==> s[i] in r
  {
    if |s| == 0 then []
    else if p(s[0]) then [s[0]] + Filter(s[1..], p)
    else Filter(s[1..], p)
  }

  /** No two elements of `s` share a key. */
  predicate InjectiveOn<T, K(==)>(s: seq<T>, key: T -> K) {
    forall i, j :: 0 <= i < j < |s| ==> key(s[i]) != key(s[j])
  }

  lemma InjectiveCons<T, K>(x: T, t: seq<T>, key: T -> K)
    ensures InjectiveOn([x] + t, key) <==>
      (forall i :: 0 <= i < |t| ==> key(t[i]) != key(x)) && InjectiveOn(t, key)
  {
    var s := [x] + t;
    if InjectiveOn(s, key) {
      forall i, j | 0 <= i < j < |t| ensures key(t[i]) != key(t[j]) {
        assert t[i] == s[i + 1] && t[j] == s[j + 1];
      }
      forall i | 0 <= i < |t| ensures key(t[i]) != key(x) {
        assert t[i] == s[i + 1] && x == s[0];
      }
    }
  }

  /** In an injective sequence, equal keys mean equal positions. */
  lemma InjectiveSameKey<T, K>(s: seq<T>, key: T -> K, i: int, j: int)
    requires InjectiveOn(s, key)
    requires 0 <= i < |s| && 0 <= j < |s| && key(s[i]) == key(s[j])
    ensures i == j
  {
  }

  /** A filter that keeps everything returns the sequence itself. */
  lemma {:induction false} FilterAll<T>(s: seq<T>, p: T -> bool)
    requires forall i :: 0 <= i < |s| ==> p(s[i])
    ensures Filter(s, p) == s
  {
    if |s| > 0 {
      FilterAll(s[1..], p);
      assert [s[0]] + s[1..] == s;
    }
  }

  /** A filter that keeps nothing returns the empty sequence. */
  lemma {:induction false} FilterNone<T>(s: seq<T>, p: T -> bool)
    requires forall i :: 0 <= i < |s| ==> !p(s[i])
    ensures Filter(s, p) == []
  {
    if |s| > 0 {
      FilterNone(s[1..], p);
    }
  }

  /** Filters with predicates that agree on `s` select the same elements. */
  lemma {:induction false} FilterExt<T>(s: seq<T>, p: T -> bool, q: T -> bool)
    requires forall i :: 0 <= i < |s| ==> (p(s[i]) <==> q(s[i]))
    ensures Filter(s, p) == Filter(s, q)
  {
    if |s| > 0 {
      FilterExt(s[1..], p, q);
    }
  }

  /** Filtering by a conjunction is filtering by one conjunct, then by the other. */
  lemma {:induction false} FilterConj<T>(s: seq<T>, p: T -> bool, q: T -> bool, r: T -> bool)
    requires forall i :: 0 <= i < |s| ==> (p(s[i]) <==> q(s[i]) && r(s[i]))
    ensures Filter(s, p) == Filter(Filter(s, q), r)
  {
    if |s| > 0 {
      FilterConj(s[1..], p, q, r);
      if q(s[0]) {
        assert Filter(s, q) == [s[0]] + Filter(s[1..], q);
        assert Filter(s, q)[1..] == Filter(s[1..], q);
      }
    }
  }

  /** Filtering an injective sequence keeps it injective. */
  lemma {:induction false} FilterInjective<T, K>(s: seq<T>, p: T -> bool, key: T -> K)
    requires InjectiveOn(s, key)
    ensures InjectiveOn(Filter(s, p), key)
  {
    if |s| > 0 {
      InjectiveCons(s[0], s[1..], key);
      assert [s[0]] + s[1..] == s;
      FilterInjective(s[1..], p, key);
      var t := Filter(s[1..], p);
      if p(s[0]) {
        forall i | 0 <= i < |t| ensures key(t[i]) != key(s[0]) {
          assert t[i] in s[1..];
        }
        InjectiveCons(s[0], t, key);
      }
    }
  }

  /** In an injective sequence at most one element carries a given key. */
  lemma {:induction false} FilterKeyAtMostOne<T, K>(s: seq<T>, key: T -> K, k: K, p: T -> bool)
    requires InjectiveOn(s, key)
    requires forall x :: p(x) <==> key(x) == k
    ensures |Filter(s, p)| <= 1
  {
    if |s| > 0 {
      InjectiveCons(s[0], s[1..], key);
      assert [s[0]] + s[1..] == s;
      FilterKeyAtMostOne(s[1..], key, k, p);
      if p(s[0]) {
        FilterNone(s[1..], p);
      }
    }
  }

  /** Removing the one element that carries key `k` shortens an injective sequence by exactly one. */
  lemma {:induction false} FilterDropsOneKey<T, K>(s: seq<T>, key: T -> K, k: K, p: T -> bool)
    requires InjectiveOn(s, key)
    requires exists i :: 0 <= i < |s| && key(s[i]) == k
    requires forall x :: p(x) <==> key(x) != k
    ensures |Filter(s, p)| == |s| - 1
  {
    InjectiveCons(s[0], s[1..], key);
    assert [s[0]] + s[1..] == s;
    if key(s[0]) == k {
      FilterAll(s[1..], p);
    } else {
      var i :| 0 <= i < |s| && key(s[i]) == k;
      assert s[1..][i - 1] == s[i];
      FilterDropsOneKey(s[1..], key, k, p);
    }
  }
}
