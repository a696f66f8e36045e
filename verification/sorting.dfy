/** Python's `sorted`, as a stable insertion sort by a total preorder. */
module Sorting {

  ghost predicate TotalPreorder<T(!new)>(le: (T, T) -> bool) {
    && (forall a, b :: le(a, b) || le(b, a))
    && (forall a, b, c :: le(a, b) && le(b, c) ==> le(a, c))
  }

  ghost predicate SortedBy<T(!new)>(le: (T, T) -> bool, s: seq<T>) {
    forall i, j :: 0 <= i < j < |s| ==> le(s[i], s[j])
  }

  /** Each element goes after those it does not precede. */
  function Insert<T>(le: (T, T) -> bool, s: seq<T>, x: T): seq<T> {
    if s == [] || le(s[|s| - 1], x) then s + [x] else Insert(le, s[..|s| - 1], x) + [s[|s| - 1]]
  }

  function Sort<T>(le: (T, T) -> bool, s: seq<T>): seq<T> {
    if s == [] then [] else Insert(le, Sort(le, s[..|s| - 1]), s[|s| - 1])
  }

  lemma {:induction false} InsertPermutes<T(!new)>(le: (T, T) -> bool, s: seq<T>, x: T)
    ensures multiset(Insert(le, s, x)) == multiset(s) + multiset{x}
    ensures forall y :: y in Insert(le, s, x) <==> y == x || y in s
  {
    if s != [] && !le(s[|s| - 1], x) {
      InsertPermutes(le, s[..|s| - 1], x);
      assert s == s[..|s| - 1] + [s[|s| - 1]];
    }
  }

  lemma {:induction false} SortedSnoc<T(!new)>(le: (T, T) -> bool, s: seq<T>, last: T)
    requires SortedBy(le, s) && forall y :: y in s ==> le(y, last)
    ensures SortedBy(le, s + [last])
  {}

  lemma {:induction false} InsertSorts<T(!new)>(le: (T, T) -> bool, s: seq<T>, x: T)
    requires TotalPreorder(le) && SortedBy(le, s)
    ensures SortedBy(le, Insert(le, s, x))
  {
    if s != [] {
      var init, last := s[..|s| - 1], s[|s| - 1];
      if le(last, x) {
        forall y | y in s ensures le(y, x) {
          var i :| 0 <= i < |s| && s[i] == y;
          assert i == |s| - 1 || le(y, last);
        }
        SortedSnoc(le, s, x);
      } else {
        InsertSorts(le, init, x);
        InsertPermutes(le, init, x);
        SortedSnoc(le, Insert(le, init, x), last);
      }
    }
  }

  lemma {:induction false} SortPermutes<T(!new)>(le: (T, T) -> bool, s: seq<T>)
    ensures multiset(Sort(le, s)) == multiset(s)
  {
    if s != [] {
      var init, last := s[..|s| - 1], s[|s| - 1];
      SortPermutes(le, init);
      InsertPermutes(le, Sort(le, init), last);
      assert s == init + [last];
    }
  }

  lemma {:induction false} SortOrders<T(!new)>(le: (T, T) -> bool, s: seq<T>)
    requires TotalPreorder(le)
    ensures SortedBy(le, Sort(le, s))
  {
    if s != [] {
      SortOrders(le, s[..|s| - 1]);
      InsertSorts(le, Sort(le, s[..|s| - 1]), s[|s| - 1]);
    }
  }

  lemma {:induction false} SortSorts<T(!new)>(le: (T, T) -> bool, s: seq<T>)
    requires TotalPreorder(le)
    ensures SortedBy(le, Sort(le, s)) && multiset(Sort(le, s)) == multiset(s)
    ensures forall x :: x in Sort(le, s) <==> x in s
  {
    SortOrders(le, s);
    SortPermutes(le, s);
    assert forall x :: x in Sort(le, s) <==> x in multiset(Sort(le, s));
  }

  /** The elements of `s` that rank equal to `k`, in order. */
  function Ties<T>(le: (T, T) -> bool, s: seq<T>, k: T): seq<T> {
    if s == [] then []
    else
      var init, x := Ties(le, s[..|s| - 1], k), s[|s| - 1];
      if le(x, k) && le(k, x) then init + [x] else init
  }

  lemma {:induction false} TiesSnoc<T>(le: (T, T) -> bool, s: seq<T>, x: T, k: T)
    ensures Ties(le, s + [x], k) == Ties(le, s, k) + if le(x, k) && le(k, x) then [x] else []
  {
    assert (s + [x])[..|s|] == s;
  }

  lemma {:induction false} RanksApart<T(!new)>(le: (T, T) -> bool, x: T, y: T, k: T)
    requires TotalPreorder(le) && !le(y, x)
    ensures !(le(x, k) && le(k, x)) || !(le(y, k) && le(k, y))
  {}

  /** An element that goes in before the last one. */
  lemma {:induction false} TiesStep<T>(le: (T, T) -> bool, init: seq<T>, last: T, inserted: seq<T>, x: T, k: T)
    requires Ties(le, inserted, k) == Ties(le, init + [x], k)
    requires !(le(x, k) && le(k, x)) || !(le(last, k) && le(k, last))
    ensures Ties(le, inserted + [last], k) == Ties(le, init + [last] + [x], k)
  {
    TiesSnoc(le, inserted, last, k);
    TiesSnoc(le, init, x, k);
    TiesSnoc(le, init, last, k);
    TiesSnoc(le, init + [last], x, k);
  }

  lemma {:induction false} InsertIsStable<T(!new)>(le: (T, T) -> bool, s: seq<T>, x: T, k: T)
    requires TotalPreorder(le)
    ensures Ties(le, Insert(le, s, x), k) == Ties(le, s + [x], k)
  {
    if s != [] && !le(s[|s| - 1], x) {
      var init, last := s[..|s| - 1], s[|s| - 1];
      InsertIsStable(le, init, x, k);
      RanksApart(le, x, last, k);
      TiesStep(le, init, last, Insert(le, init, x), x, k);
      assert s == init + [last];
    }
  }

  /** Sorting is stable: elements of equal rank keep their order. */
  lemma {:induction false} SortIsStable<T(!new)>(le: (T, T) -> bool, s: seq<T>, k: T)
    requires TotalPreorder(le)
    ensures Ties(le, Sort(le, s), k) == Ties(le, s, k)
  {
    if s != [] {
      var init, last := s[..|s| - 1], s[|s| - 1];
      SortIsStable(le, init, k);
      InsertIsStable(le, Sort(le, init), last, k);
      TiesSnoc(le, Sort(le, init), last, k);
    }
  }
}
