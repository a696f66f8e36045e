/** Python dictionaries as values: a map together with the order in which its keys were inserted. */
module Dicts {
  import opened Common

  datatype Dict<K(==), V> = Dict(keys: seq<K>, vals: map<K, V>)

  function Empty<K(==), V>(): Dict<K, V> {
    Dict([], map[])
  }

  ghost predicate Valid<K(!new), V>(d: Dict<K, V>) {
    NoDup(d.keys) && forall k :: k in d.keys <==> k in d.vals
  }

  /** `d[k] = v`: an existing key keeps its place. */
  function Put<K(==), V>(d: Dict<K, V>, k: K, v: V): Dict<K, V> {
    Dict(if k in d.vals then d.keys else d.keys + [k], d.vals[k := v])
  }

  function Without<K(==)>(ks: seq<K>, k: K): seq<K> {
    if ks == [] then []
    else
      var init := Without(ks[..|ks| - 1], k);
      if ks[|ks| - 1] == k then init else init + [ks[|ks| - 1]]
  }

  /** `d.pop(k, None)` */
  function Pop<K(==), V>(d: Dict<K, V>, k: K): Dict<K, V> {
    Dict(if k in d.vals then Without(d.keys, k) else d.keys, d.vals - {k})
  }

  lemma {:induction false} PutIsValid<K(!new), V>(d: Dict<K, V>, k: K, v: V)
    requires Valid(d)
    ensures Valid(Put(d, k, v))
  {}

  lemma {:induction false} WithoutElements<K(!new)>(ks: seq<K>, k: K)
    ensures forall x :: x in Without(ks, k) <==> x in ks && x != k
    ensures NoDup(ks) ==> NoDup(Without(ks, k))
  {
    if ks != [] {
      var n := |ks| - 1;
      WithoutElements(ks[..n], k);
      assert forall x :: x in ks <==> x in ks[..n] || x == ks[n];
      if NoDup(ks) {
        assert ks[n] !in ks[..n];
        assert ks[n] !in Without(ks[..n], k);
      }
    }
  }

  lemma {:induction false} PopIsValid<K(!new), V>(d: Dict<K, V>, k: K)
    requires Valid(d)
    ensures Valid(Pop(d, k))
  {
    WithoutElements(d.keys, k);
  }

  // ----- sums over duplicate-free keys

  function Sum<K>(f: K -> int, ks: seq<K>): int {
    if ks == [] then 0 else Sum(f, ks[..|ks| - 1]) + f(ks[|ks| - 1])
  }

  lemma {:induction false} SumExtensional<K(!new)>(f: K -> int, g: K -> int, ks: seq<K>)
    requires forall k :: k in ks ==> f(k) == g(k)
    ensures Sum(f, ks) == Sum(g, ks)
  {
    if ks != [] {
      SumExtensional(f, g, ks[..|ks| - 1]);
    }
  }

  lemma {:induction false} SumNonNegative<K(!new)>(f: K -> int, ks: seq<K>)
    requires forall k :: k in ks ==> f(k) >= 0
    ensures Sum(f, ks) >= 0
  {
    if ks != [] {
      SumNonNegative(f, ks[..|ks| - 1]);
    }
  }

  lemma {:induction false} SumRemove<K(!new)>(f: K -> int, ks: seq<K>, k: K)
    requires NoDup(ks) && k in ks
    ensures Sum(f, ks) == Sum(f, Without(ks, k)) + f(k)
  {
    var n := |ks| - 1;
    if ks[n] == k {
      WithoutAbsent(ks[..n], k);
    } else {
      assert k in ks[..n];
      SumRemove(f, ks[..n], k);
      var rest := Without(ks[..n], k);
      assert (rest + [ks[n]])[..|rest|] == rest;
    }
  }

  lemma {:induction false} WithoutAbsent<K(!new)>(ks: seq<K>, k: K)
    requires k !in ks
    ensures Without(ks, k) == ks
  {
    if ks != [] {
      WithoutAbsent(ks[..|ks| - 1], k);
      assert ks == ks[..|ks| - 1] + [ks[|ks| - 1]];
    }
  }

  /** More keys and larger non-negative terms give a larger sum, whatever the two orders. */
  lemma {:induction false} SumMonotone<K(!new)>(f: K -> int, ks: seq<K>, g: K -> int, ls: seq<K>)
    requires NoDup(ks) && NoDup(ls)
    requires forall k :: k in ks ==> k in ls && f(k) <= g(k)
    requires forall k :: k in ls ==> g(k) >= 0
    ensures Sum(f, ks) <= Sum(g, ls)
    decreases |ks|
  {
    if ks == [] {
      SumNonNegative(g, ls);
    } else {
      var n := |ks| - 1;
      WithoutElements(ls, ks[n]);
      SumMonotone(f, ks[..n], g, Without(ls, ks[n]));
      SumRemove(g, ls, ks[n]);
    }
  }

  // ----- folds that ignore order

  function Fold<S, E>(f: (S, E) -> S, s: S, es: seq<E>): S {
    if es == [] then s else f(Fold(f, s, es[..|es| - 1]), es[|es| - 1])
  }

  ghost predicate Commutes<S(!new), E(!new)>(f: (S, E) -> S, es: seq<E>) {
    forall s, a, b :: a in es && b in es ==> f(f(s, a), b) == f(f(s, b), a)
  }

  lemma {:induction false} FoldSnoc<S, E>(f: (S, E) -> S, s: S, es: seq<E>, e: E)
    ensures Fold(f, s, es + [e]) == f(Fold(f, s, es), e)
  {
    assert (es + [e])[..|es|] == es;
  }

  /** An element can be moved to the end. */
  lemma {:induction false} FoldMoveLast<S(!new), E(!new)>(f: (S, E) -> S, s: S, p: seq<E>, x: E, q: seq<E>)
    requires Commutes(f, p + [x] + q)
    ensures Fold(f, s, p + [x] + q) == Fold(f, s, p + q + [x])
    decreases |q|
  {
    if q == [] {
      assert p + [x] + q == p + q + [x];
    } else {
      var init, y := q[..|q| - 1], q[|q| - 1];
      assert y in q && x in [x];
      assert p + [x] + q == (p + [x] + init) + [y] && p + q + [x] == ((p + init) + [y]) + [x];
      FoldMoveLast(f, s, p, x, init);
      FoldSnoc(f, s, p + [x] + init, y);
      FoldSnoc(f, s, p + init, x);
      FoldSnoc(f, s, p + init, y);
      FoldSnoc(f, s, (p + init) + [y], x);
      assert f(f(Fold(f, s, p + init), x), y) == f(f(Fold(f, s, p + init), y), x);
    }
  }

  /** A fold whose steps commute depends only on the multiset of elements. */
  lemma {:induction false} FoldPermutes<S(!new), E(!new)>(f: (S, E) -> S, s: S, xs: seq<E>, ys: seq<E>)
    requires multiset(xs) == multiset(ys) && Commutes(f, xs)
    ensures Fold(f, s, xs) == Fold(f, s, ys)
    decreases |ys|
  {
    if ys != [] {
      var init, x := ys[..|ys| - 1], ys[|ys| - 1];
      assert ys == init + [x];
      assert x in multiset(xs);
      var i :| 0 <= i < |xs| && xs[i] == x;
      var p, q := xs[..i], xs[i + 1..];
      assert xs == p + [x] + q;
      assert multiset(p + q) == multiset(init) by {
        assert multiset(xs) == multiset(p) + multiset{x} + multiset(q);
        assert multiset(ys) == multiset(init) + multiset{x};
        assert multiset(p + q) == multiset(xs) - multiset{x};
      }
      assert forall e :: e in p + q ==> e in xs;
      FoldMoveLast(f, s, p, x, q);
      FoldSnoc(f, s, p + q, x);
      FoldPermutes(f, s, p + q, init);
    }
  }
}
