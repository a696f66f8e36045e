/** The sliding-window counter behind every metric of the registry.  Instants are microseconds and
    values whole micro-units. */
module WindowCounters {

  datatype Sample = Sample(at: int, value: int)

  /** `_gc`: drop from the left while older than the threshold. */
  function DropOld(q: seq<Sample>, threshold: int): seq<Sample> {
    if q != [] && q[0].at < threshold then DropOld(q[1..], threshold) else q
  }

  function Added(window: int, q: seq<Sample>, value: int, now: int): seq<Sample> {
    DropOld(q + [Sample(now, value)], now - window)
  }

  function SumOf(q: seq<Sample>): int {
    if q == [] then 0 else SumOf(q[..|q| - 1]) + q[|q| - 1].value
  }

  /** What is dropped is older than the threshold, and what is left begins with something that is not. */
  ghost predicate Trims(before: seq<Sample>, after: seq<Sample>, threshold: int) {
    exists k: nat :: TrimsAt(before, after, threshold, k)
  }

  ghost predicate TrimsAt(before: seq<Sample>, after: seq<Sample>, threshold: int, k: nat) {
    && k <= |before| && after == before[k..]
    && (forall i :: 0 <= i < k ==> before[i].at < threshold)
    && (k < |before| ==> before[k].at >= threshold)
  }

  lemma {:induction false} DropOldTrims(q: seq<Sample>, threshold: int) returns (k: nat)
    ensures TrimsAt(q, DropOld(q, threshold), threshold, k)
  {
    k := 0;
    if q != [] && q[0].at < threshold {
      var n := DropOldTrims(q[1..], threshold);
      k := n + 1;
      assert q[1..][n..] == q[k..];
      assert forall i :: 1 <= i < k ==> q[i] == q[1..][i - 1];
    }
  }

  /** Sums of parts add up, and one sample sums to its value. */
  lemma {:induction false} SumAdds(a: seq<Sample>, b: seq<Sample>, x: Sample)
    ensures SumOf(a + b) == SumOf(a) + SumOf(b) && SumOf([x]) == x.value && SumOf([]) == 0
  {
    if b == [] {
      assert a + b == a;
    } else {
      SumAdds(a, b[..|b| - 1], x);
      assert (a + b)[..|a + b| - 1] == a + b[..|b| - 1];
    }
  }

  class SlidingWindowCounter {
    const window: int
    var q: seq<Sample>

    constructor (window: int)
      ensures this.window == window && q == []
    {
      this.window := window;
      q := [];
    }

    method Gc(now: int)
      modifies this
      ensures q == DropOld(old(q), now - window) && Trims(old(q), q, now - window)
    {
      var threshold := now - window;
      ghost var k := DropOldTrims(q, threshold);
      while q != [] && q[0].at < threshold
        invariant DropOld(q, threshold) == DropOld(old(q), threshold)
        decreases |q|
      {
        q := q[1..];
      }
    }

    method Add(value: int, now: int)
      modifies this
      ensures q == Added(window, old(q), value, now) && Trims(old(q) + [Sample(now, value)], q, now - window)
    {
      q := q + [Sample(now, value)];
      Gc(now);
    }

    method Sum(now: int) returns (s: int)
      modifies this
      ensures q == DropOld(old(q), now - window) && Trims(old(q), q, now - window) && s == SumOf(q)
    {
      Gc(now);
      s := 0;
      for i := 0 to |q|
        invariant s == SumOf(q[..i]) && q == DropOld(old(q), now - window)
      {
        assert q[..i + 1][..i] == q[..i];
        s := s + q[i].value;
      }
      assert q[..|q|] == q;
    }

    method Count(now: int) returns (n: nat)
      modifies this
      ensures q == DropOld(old(q), now - window) && Trims(old(q), q, now - window) && n == |q|
    {
      Gc(now);
      n := |q|;
    }
  }

  // ----- runs

  /** One value added, or one look at the sum or the count. */
  datatype Op = Add(value: int, at: int) | Look(at: int)

  function Run(window: int, ops: seq<Op>): seq<Sample> {
    if ops == [] then []
    else
      var q := Run(window, ops[..|ops| - 1]);
      match ops[|ops| - 1]
      case Add(value, at) => Added(window, q, value, at)
      case Look(at) => DropOld(q, at - window)
  }

  /** Everything ever added, in order. */
  function History(ops: seq<Op>): seq<Sample> {
    if ops == [] then []
    else
      var init, op := History(ops[..|ops| - 1]), ops[|ops| - 1];
      if op.Add? then init + [Sample(op.at, op.value)] else init
  }

  /** The samples at or after the threshold, wherever they stand. */
  function Recent(h: seq<Sample>, threshold: int): seq<Sample> {
    if h == [] then []
    else
      var init, x := Recent(h[..|h| - 1], threshold), h[|h| - 1];
      if x.at >= threshold then init + [x] else init
  }

  ghost predicate Ordered(ops: seq<Op>) {
    forall i, j :: 0 <= i < j < |ops| ==> ops[i].at <= ops[j].at
  }

  ghost predicate Sorted(h: seq<Sample>) {
    forall i, j :: 0 <= i < j < |h| ==> h[i].at <= h[j].at
  }

  lemma {:induction false} RecentOfAll(h: seq<Sample>, threshold: int)
    requires forall i :: 0 <= i < |h| ==> h[i].at >= threshold
    ensures Recent(h, threshold) == h
  {
    if h != [] {
      RecentOfAll(h[..|h| - 1], threshold);
      assert h == h[..|h| - 1] + [h[|h| - 1]];
    }
  }

  lemma {:induction false} RecentTail(h: seq<Sample>, threshold: int)
    requires h != [] && h[0].at < threshold
    ensures Recent(h, threshold) == Recent(h[1..], threshold)
  {
    if |h| > 1 {
      assert h[1..][..|h| - 2] == h[..|h| - 1][1..];
      RecentTail(h[..|h| - 1], threshold);
    } else {
      assert h[..0] == [];
    }
  }

  /** On a sorted queue, dropping from the left is selecting the recent samples. */
  lemma {:induction false} DropOldIsRecent(q: seq<Sample>, threshold: int)
    requires Sorted(q)
    ensures DropOld(q, threshold) == Recent(q, threshold)
  {
    if q != [] && q[0].at < threshold {
      RecentTail(q, threshold);
      DropOldIsRecent(q[1..], threshold);
    } else {
      RecentOfAll(q, threshold);
    }
  }

  lemma {:induction false} RecentTwice(h: seq<Sample>, s: int, t: int)
    requires s <= t
    ensures Recent(Recent(h, s), t) == Recent(h, t)
  {
    if h != [] {
      var init := h[..|h| - 1];
      RecentTwice(init, s, t);
      assert (Recent(init, s) + [h[|h| - 1]])[..|Recent(init, s)|] == Recent(init, s);
    }
  }

  lemma {:induction false} RecentIsSorted(h: seq<Sample>, threshold: int, now: int)
    requires Sorted(h) && forall i :: 0 <= i < |h| ==> h[i].at <= now
    ensures Sorted(Recent(h, threshold)) && forall i :: 0 <= i < |Recent(h, threshold)| ==> Recent(h, threshold)[i].at <= now
  {
    if h != [] {
      var n := |h| - 1;
      RecentIsSorted(h[..n], threshold, h[n].at);
    }
  }

  lemma {:induction false} HistoryIsSorted(ops: seq<Op>, now: int)
    requires Ordered(ops) && (ops != [] ==> ops[|ops| - 1].at <= now)
    ensures Sorted(History(ops)) && forall i :: 0 <= i < |History(ops)| ==> History(ops)[i].at <= now
  {
    if ops != [] {
      var n := |ops| - 1;
      assert n > 0 ==> ops[n - 1].at <= ops[n].at;
      HistoryIsSorted(ops[..n], ops[n].at);
    }
  }

  /** After every run the queue holds exactly the values added within the window that ends at the last
      operation. */
  lemma {:induction false} QueueIsRecentHistory(window: int, ops: seq<Op>)
    requires Ordered(ops) && ops != []
    ensures Run(window, ops) == Recent(History(ops), ops[|ops| - 1].at - window)
  {
    var n := |ops| - 1;
    var init, t := ops[..n], ops[n].at - window;
    var q := Run(window, init);
    if n > 0 {
      assert init[n - 1].at <= ops[n].at;
      QueueIsRecentHistory(window, init);
    }
    HistoryIsSorted(init, ops[n].at);
    var s := if n > 0 then init[n - 1].at - window else t;
    assert q == Recent(History(init), s);
    RecentIsSorted(History(init), s, ops[n].at);
    RecentTwice(History(init), s, t);
    StepIsRecent(q, ops[n], t);
    RecentSnoc(History(init), Sample(ops[n].at, if ops[n].Add? then ops[n].value else 0), t);
  }

  lemma {:induction false} RecentSnoc(h: seq<Sample>, x: Sample, t: int)
    ensures Recent(h + [x], t) == Recent(h, t) + if x.at >= t then [x] else []
  {
    assert (h + [x])[..|h|] == h;
  }

  lemma {:induction false} StepIsRecent(q: seq<Sample>, op: Op, t: int)
    requires Sorted(q) && forall i :: 0 <= i < |q| ==> q[i].at <= op.at
    ensures op.Look? ==> DropOld(q, t) == Recent(q, t)
    ensures op.Add? ==> var x := Sample(op.at, op.value); DropOld(q + [x], t) == Recent(q, t) + if x.at >= t then [x] else []
  {
    match op
    case Look(_) => DropOldIsRecent(q, t);
    case Add(value, at) =>
      DropOldIsRecent(q + [Sample(at, value)], t);
      RecentSnoc(q, Sample(at, value), t);
  }

  /** So `sum` and `count` at any later instant speak of exactly the values added within the window
      that ends then, and looking changes no later answer. */
  lemma {:induction false} LookSeesWindow(window: int, ops: seq<Op>, now: int)
    requires Ordered(ops) && (ops != [] ==> ops[|ops| - 1].at <= now)
    ensures DropOld(Run(window, ops), now - window) == Recent(History(ops), now - window)
  {
    var all := ops + [Look(now)];
    assert all[..|ops|] == ops;
    QueueIsRecentHistory(window, all);
  }
}
