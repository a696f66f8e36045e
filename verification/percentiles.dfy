/** The two interpolated percentiles, over the reals: the judge's weighted form on a sorted list, and
    the witness exporter's base-plus-fraction form on an unsorted one. */
module Percentiles {
  import Sorting

  predicate AtMost(a: real, b: real) {
    a <= b
  }

  ghost predicate Sorted(s: seq<real>) {
    Sorting.SortedBy(AtMost, s)
  }

  /** Position of fraction `p` in a list of `n`, for p >= 0; `int(k)` is its floor. */
  function Position(n: nat, p: real): real {
    (n - 1) as real * p
  }

  /** `JudgeMetrics._percentile` */
  function Weighted(s: seq<real>, p: real): real
    requires 0.0 <= p <= 1.0
  {
    if s == [] then 0.0
    else
      PositionInRange(|s|, p);
      var k := Position(|s|, p);
      var f := k.Floor;
      var c := if f + 1 < |s| - 1 then f + 1 else |s| - 1;
      if f == c then s[f] else s[f] * (c as real - k) + s[c] * (k - f as real)
  }

  /** `percentile` after its sort. */
  function BasePlusFraction(s: seq<real>, p: real): real
    requires 0.0 <= p <= 1.0
  {
    if s == [] then 0.0
    else if |s| == 1 then s[0]
    else
      PositionInRange(|s|, p);
      var k := Position(|s|, p);
      var f := k.Floor;
      var c := k - f as real;
      if f + 1 < |s| then s[f] + c * (s[f + 1] - s[f]) else s[f]
  }

  function Percentile(data: seq<real>, p: real): real
    requires 0.0 <= p <= 1.0
  {
    BasePlusFraction(Sorting.Sort(AtMost, data), p)
  }

  lemma {:induction false} PositionInRange(n: nat, p: real)
    requires n >= 1 && 0.0 <= p <= 1.0
    ensures 0.0 <= Position(n, p) <= (n - 1) as real
    ensures 0 <= Position(n, p).Floor <= n - 1
  {
    var m := (n - 1) as real;
    assert m * p <= m * 1.0;
  }

  lemma {:induction false} Blend(x: real, y: real, c: real)
    ensures x * (1.0 - c) + y * c == x + c * (y - x)
  {}

  /** Both forms agree on every list and fraction. */
  lemma {:induction false} FormsAgree(s: seq<real>, p: real)
    requires 0.0 <= p <= 1.0
    ensures Weighted(s, p) == BasePlusFraction(s, p)
    ensures s == [] ==> Weighted(s, p) == 0.0
  {
    if |s| > 1 {
      PositionInRange(|s|, p);
      var k := Position(|s|, p);
      var f := k.Floor;
      if f + 1 < |s| {
        Blend(s[f], s[f + 1], k - f as real);
      }
    }
  }

  lemma {:induction false} BlendBetween(x: real, y: real, c: real)
    requires x <= y && 0.0 <= c <= 1.0
    ensures x <= x + c * (y - x) <= y
  {
    assert c * (y - x) <= 1.0 * (y - x);
  }

  /** The value lies between the list's neighbours of the position. */
  lemma {:induction false} BetweenNeighbours(s: seq<real>, p: real) returns (f: nat)
    requires s != [] && Sorted(s) && 0.0 <= p <= 1.0
    ensures f < |s| && f as real <= (|s| - 1) as real * p < f as real + 1.0
    ensures s[f] <= BasePlusFraction(s, p) <= if f + 1 < |s| then s[f + 1] else s[f]
  {
    PositionInRange(|s|, p);
    f := Position(|s|, p).Floor;
    if f + 1 < |s| {
      assert AtMost(s[f], s[f + 1]);
      BlendBetween(s[f], s[f + 1], Position(|s|, p) - f as real);
    } else if |s| == 1 {
      assert f == 0;
    }
  }

  /** Where (n - 1) * p is a whole number `k` and a part `c` of one, the value is that part of the way from
      entry `k` to the next. */
  lemma {:induction false} InterpolatesExactly(s: seq<real>, p: real, k: nat, c: real)
    requires k < |s| && 0.0 <= p <= 1.0
    requires (|s| - 1) as real * p == k as real + c && 0.0 <= c < 1.0
    ensures c == 0.0 ==> BasePlusFraction(s, p) == Weighted(s, p) == s[k]
    ensures c > 0.0 ==> k + 1 < |s| && BasePlusFraction(s, p) == Weighted(s, p) == s[k] + c * (s[k + 1] - s[k])
  {
    FormsAgree(s, p);
    PositionInRange(|s|, p);
    assert Position(|s|, p).Floor == k;
    if c == 0.0 && k + 1 < |s| {
      assert (Position(|s|, p) - k as real) * (s[k + 1] - s[k]) == 0.0;
    }
  }

  /** Each entry is the value at its own share of the list: the first at 0, the last at 1, entry `k` at k / (n - 1). */
  lemma {:induction false} FixedPoints(s: seq<real>, k: nat)
    requires k < |s|
    ensures BasePlusFraction(s, 0.0) == Weighted(s, 0.0) == s[0]
    ensures BasePlusFraction(s, 1.0) == Weighted(s, 1.0) == s[|s| - 1]
    ensures |s| > 1 ==> var p := k as real / (|s| - 1) as real;
      0.0 <= p <= 1.0 && BasePlusFraction(s, p) == Weighted(s, p) == s[k]
  {
    InterpolatesExactly(s, 0.0, 0, 0.0);
    InterpolatesExactly(s, 1.0, |s| - 1, 0.0);
    if |s| > 1 {
      ShareInRange(k, |s| - 1);
      InterpolatesExactly(s, k as real / (|s| - 1) as real, k, 0.0);
    }
  }

  lemma {:induction false} ShareInRange(k: nat, m: nat)
    requires k <= m && m > 0
    ensures 0.0 <= k as real / m as real <= 1.0 && m as real * (k as real / m as real) == k as real
  {}

  /** Between the minimum and the maximum of the list. */
  lemma {:induction false} WithinRange(s: seq<real>, p: real)
    requires s != [] && Sorted(s) && 0.0 <= p <= 1.0
    ensures s[0] <= BasePlusFraction(s, p) <= s[|s| - 1]
  {
    var f := BetweenNeighbours(s, p);
    assert f == 0 || AtMost(s[0], s[f]);
    assert f + 1 >= |s| - 1 || AtMost(s[f + 1], s[|s| - 1]);
    assert f == |s| - 1 || f + 1 == |s| - 1 || AtMost(s[f], s[|s| - 1]);
  }

  lemma {:induction false} PositionGrows(n: nat, p: real, q: real)
    requires n >= 1 && p <= q
    ensures Position(n, p) <= Position(n, q) && Position(n, p).Floor <= Position(n, q).Floor
  {
    var m := (n - 1) as real;
    assert m * p <= m * q;
  }

  lemma {:induction false} BlendGrows(x: real, y: real, c: real, d: real)
    requires x <= y && c <= d
    ensures x + c * (y - x) <= x + d * (y - x)
  {}

  /** Monotone in the fraction, within one index interval and across intervals. */
  lemma {:induction false} MonotoneInFraction(s: seq<real>, p: real, q: real)
    requires s != [] && Sorted(s) && 0.0 <= p <= q <= 1.0
    ensures BasePlusFraction(s, p) <= BasePlusFraction(s, q)
  {
    PositionGrows(|s|, p, q);
    var f := BetweenNeighbours(s, p);
    var g := BetweenNeighbours(s, q);
    if f < g {
      assert f + 1 == g || AtMost(s[f + 1], s[g]);
    } else if f + 1 < |s| {
      assert AtMost(s[f], s[f + 1]);
      BlendGrows(s[f], s[f + 1], Position(|s|, p) - f as real, Position(|s|, q) - f as real);
    }
  }

  lemma {:induction false} AtMostIsTotal()
    ensures Sorting.TotalPreorder(AtMost)
  {}

  /** The exporter's percentile lies between the smallest and the largest of its data, in any order,
      grows with the fraction, and is what the judge computes on the sorted data. */
  lemma {:induction false} PercentileOfData(data: seq<real>, p: real, q: real)
    requires data != [] && 0.0 <= p <= q <= 1.0
    ensures (exists x :: x in data && x <= Percentile(data, p)) && (exists x :: x in data && Percentile(data, p) <= x)
    ensures Percentile(data, p) <= Percentile(data, q)
    ensures Percentile(data, p) == Weighted(Sorting.Sort(AtMost, data), p)
  {
    var s := Sorting.Sort(AtMost, data);
    AtMostIsTotal();
    Sorting.SortSorts(AtMost, data);
    assert data[0] in s;
    WithinRange(s, p);
    assert s[0] in s && s[|s| - 1] in s;
    MonotoneInFraction(s, p, q);
    FormsAgree(s, p);
  }
}
