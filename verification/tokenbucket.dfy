/** The lazy-refill token bucket of the back-pressure component, over the reals.  The bucket uses
    the clock only through what has been earned since the last refill, so its runs are described on
    the credit clock `now * refill_rate`; `TokenBucket` and the last section tie that to seconds. */
module TokenBuckets {

  /** `mark` is the credit clock at the last refill. */
  datatype Bucket = Bucket(capacity: real, tokens: real, mark: real)

  function Min(a: real, b: real): real {
    if a <= b then a else b
  }

  function Full(capacity: real, credit: real): Bucket {
    Bucket(capacity, capacity, credit)
  }

  function Refilled(b: Bucket, credit: real): Bucket {
    Bucket(b.capacity, Min(b.capacity, b.tokens + (credit - b.mark)), credit)
  }

  predicate Grants(b: Bucket, n: int, credit: real) {
    Refilled(b, credit).tokens >= n as real
  }

  function Consumed(b: Bucket, n: int, credit: real): Bucket {
    var r := Refilled(b, credit);
    if r.tokens >= n as real then r.(tokens := r.tokens - n as real) else r
  }

  /** What `elapsed` seconds earn. */
  function Earned(elapsed: real, rate: real): real {
    elapsed * rate
  }

  lemma {:induction false} Distributes(s: real, t: real, rate: real)
    ensures Earned(t - s, rate) == (t - s) * rate == t * rate - s * rate
  {}

  class TokenBucket {
    const capacity: int
    const refillRate: real
    var tokens: real
    var lastRefill: real

    constructor (capacity: int, refillRate: real, now: real)
      ensures this.refillRate == refillRate && this.capacity == capacity
      ensures tokens == capacity as real && lastRefill == now
      ensures View() == Full(capacity as real, now * refillRate)
    {
      this.capacity, this.refillRate := capacity, refillRate;
      tokens, lastRefill := capacity as real, now;
    }

    ghost function View(): Bucket
      reads this
    {
      Bucket(capacity as real, tokens, lastRefill * refillRate)
    }

    /** What a level of `before` at the instant `last` has grown to by `now`: as much as was earned, but no more
        than the capacity. */
    ghost function LevelBy(before: real, last: real, now: real): (r: real)
      reads this
      ensures before + (now - last) * refillRate <= capacity as real ==> r == before + (now - last) * refillRate
      ensures before + (now - last) * refillRate > capacity as real ==> r == capacity as real
    {
      var grown := before + (now - last) * refillRate;
      if grown > capacity as real then capacity as real else grown
    }

    method Refill(now: real)
      modifies this
      ensures lastRefill == now
      ensures tokens == LevelBy(old(tokens), old(lastRefill), now)
      ensures View() == Refilled(old(View()), now * refillRate)
    {
      Distributes(lastRefill, now, refillRate);
      var elapsed := now - lastRefill;
      var refillAmount := Earned(elapsed, refillRate);
      tokens := Min(capacity as real, tokens + refillAmount);
      lastRefill := now;
    }

    method Consume(n: int, now: real) returns (ok: bool)
      modifies this
      ensures lastRefill == now
      ensures var level := LevelBy(old(tokens), old(lastRefill), now);
        && (ok <==> level >= n as real)
        && tokens == if ok then level - n as real else level
      ensures ok == Grants(old(View()), n, now * refillRate)
      ensures View() == Consumed(old(View()), n, now * refillRate)
    {
      Refill(now);
      if tokens >= n as real {
        tokens := tokens - n as real;
        return true;
      }
      return false;
    }

    /** The level it reports; a zero capacity makes the utilisation figure fail after the refill. */
    method GetStats(now: real) returns (ok: bool, level: real)
      modifies this
      ensures View() == Refilled(old(View()), now * refillRate)
      ensures lastRefill == now && tokens == LevelBy(old(tokens), old(lastRefill), now)
      ensures ok <==> capacity != 0
      ensures ok ==> level == tokens
    {
      Refill(now);
      level := tokens;
      ok := capacity != 0;
    }
  }

  // ----- runs

  /** One call and the credit clock at which it is made. */
  datatype Op = Consume(n: int, credit: real) | Stats(credit: real)

  function Apply(b: Bucket, op: Op): Bucket {
    match op
    case Consume(n, credit) => Consumed(b, n, credit)
    case Stats(credit) => Refilled(b, credit)
  }

  function Run(b: Bucket, ops: seq<Op>): (r: Bucket)
    ensures r.capacity == b.capacity
    ensures r.mark == if ops == [] then b.mark else ops[|ops| - 1].credit
  {
    if ops == [] then b else Apply(Run(b, ops[..|ops| - 1]), ops[|ops| - 1])
  }

  /** Tokens in the bucket when operation `k` decides. */
  function LevelAt(b: Bucket, ops: seq<Op>, k: nat): real
    requires k < |ops|
  {
    Refilled(Run(b, ops[..k]), ops[k].credit).tokens
  }

  /** Tokens handed out by operation `k`. */
  function Granted(b: Bucket, ops: seq<Op>, k: nat): real
    requires k < |ops|
  {
    if ops[k].Consume? && Grants(Run(b, ops[..k]), ops[k].n, ops[k].credit) then ops[k].n as real else 0.0
  }

  /** Tokens handed out by operations i, ..., k - 1. */
  function GrantedFrom(b: Bucket, ops: seq<Op>, i: nat, k: nat): real
    requires i <= k <= |ops|
    decreases k
  {
    if i == k then 0.0 else GrantedFrom(b, ops, i, k - 1) + Granted(b, ops, k - 1)
  }

  /** What the window from operation `i` to operation `k` leaves under capacity + credit earned. */
  function Allowance(b: Bucket, ops: seq<Op>, i: nat, k: nat): real
    requires i <= k < |ops|
  {
    b.capacity + (ops[k].credit - ops[i].credit) - GrantedFrom(b, ops, i, k)
  }

  lemma {:induction false} LevelStep(b: Bucket, ops: seq<Op>, k: nat)
    requires 0 < k < |ops|
    ensures LevelAt(b, ops, k)
      == Min(b.capacity, LevelAt(b, ops, k - 1) - Granted(b, ops, k - 1) + (ops[k].credit - ops[k - 1].credit))
  {
    assert ops[..k][..k - 1] == ops[..k - 1];
  }

  /** The level is the least allowance over all windows ending now. */
  lemma {:induction false} LevelIsLeastAllowance(b: Bucket, ops: seq<Op>, k: nat) returns (w: nat)
    requires k < |ops| && b.tokens == b.capacity && b.mark <= ops[0].credit
    ensures forall i :: 0 <= i <= k ==> LevelAt(b, ops, k) <= Allowance(b, ops, i, k)
    ensures w <= k && LevelAt(b, ops, k) == Allowance(b, ops, w, k)
  {
    w := k;
    if k > 0 {
      var w' := LevelIsLeastAllowance(b, ops, k - 1);
      LevelStep(b, ops, k);
      forall i | 0 <= i < k
        ensures Allowance(b, ops, i, k) == Allowance(b, ops, i, k - 1) - Granted(b, ops, k - 1) + (ops[k].credit - ops[k - 1].credit)
      {}
      if LevelAt(b, ops, k) != b.capacity {
        w := w';
      }
    }
  }

  /** A request is granted exactly when no window ending with it would hand out more than
      capacity + credit earned: the bucket neither over-grants nor refuses needlessly. */
  lemma {:induction false} GrantIffEveryWindowAllows(b: Bucket, ops: seq<Op>, k: nat)
    requires k < |ops| && ops[k].Consume? && b.tokens == b.capacity && b.mark <= ops[0].credit
    ensures Grants(Run(b, ops[..k]), ops[k].n, ops[k].credit) <==>
      forall i :: 0 <= i <= k ==> GrantedFrom(b, ops, i, k) + ops[k].n as real <= b.capacity + (ops[k].credit - ops[i].credit)
  {
    var w := LevelIsLeastAllowance(b, ops, k);
    forall i | 0 <= i <= k
      ensures ops[k].n as real <= Allowance(b, ops, i, k) <==>
        GrantedFrom(b, ops, i, k) + ops[k].n as real <= b.capacity + (ops[k].credit - ops[i].credit)
    {}
    assert GrantedFrom(b, ops, w, k) == b.capacity + (ops[k].credit - ops[w].credit) - LevelAt(b, ops, k);
  }

  // ----- bounds

  ghost predicate InBounds(b: Bucket) {
    0.0 <= b.tokens <= b.capacity
  }

  ghost predicate Monotone(b: Bucket, ops: seq<Op>) {
    && (forall i :: 0 <= i < |ops| ==> b.mark <= ops[i].credit)
    && (forall i, j :: 0 <= i < j < |ops| ==> ops[i].credit <= ops[j].credit)
  }

  ghost predicate NonNegative(ops: seq<Op>) {
    forall op :: op in ops && op.Consume? ==> op.n >= 0
  }

  /** Consuming keeps every bucket in [0, capacity] exactly for non-negative requests: a negative
      one, which the code does not refuse, mints tokens beyond the capacity. */
  lemma {:induction false} BoundsKeptExactly(n: int)
    ensures (forall b, credit :: InBounds(b) && b.mark <= credit ==> InBounds(Consumed(b, n, credit))) <==> n >= 0
  {
    if n < 0 {
      var full := Full(1.0, 0.0);
      assert InBounds(full) && Consumed(full, n, 0.0).tokens == 1.0 - n as real;
    }
  }

  lemma {:induction false} RunKeepsBounds(b: Bucket, ops: seq<Op>)
    requires InBounds(b) && Monotone(b, ops) && NonNegative(ops)
    ensures InBounds(Run(b, ops))
  {
    if ops != [] {
      var n := |ops| - 1;
      RunKeepsBounds(b, ops[..n]);
    }
  }

  /** Over any window of any run, no more is handed out than capacity + credit earned. */
  lemma {:induction false} WindowBound(b: Bucket, ops: seq<Op>, i: nat, j: nat)
    requires b.capacity >= 0.0 && b.tokens == b.capacity && Monotone(b, ops) && NonNegative(ops)
    requires i < j <= |ops|
    ensures GrantedFrom(b, ops, i, j) <= b.capacity + (ops[j - 1].credit - ops[i].credit)
  {
    var w := LevelIsLeastAllowance(b, ops, j - 1);
    RunKeepsBounds(b, ops[..j - 1]);
    assert Granted(b, ops, j - 1) <= LevelAt(b, ops, j - 1) <= Allowance(b, ops, i, j - 1);
  }

  // ----- looking does not disturb

  lemma {:induction false} RefillComposes(b: Bucket, a: real, c: real)
    requires b.mark <= a <= c
    ensures Refilled(Refilled(b, a), c) == Refilled(b, c)
  {}

  /** The answers `Consume` gives along a run. */
  function Decisions(b: Bucket, ops: seq<Op>): seq<bool>
    decreases |ops|
  {
    if ops == [] then []
    else
      (if ops[0].Consume? then [Grants(b, ops[0].n, ops[0].credit)] else []) + Decisions(Apply(b, ops[0]), ops[1..])
  }

  function WithoutStats(ops: seq<Op>): seq<Op> {
    if ops == [] then []
    else (if ops[0].Consume? then [ops[0]] else []) + WithoutStats(ops[1..])
  }

  lemma {:induction false} WithoutStatsSelects(ops: seq<Op>, op: Op)
    ensures op in WithoutStats(ops) <==> op in ops && op.Consume?
  {
    if ops != [] {
      WithoutStatsSelects(ops[1..], op);
      assert op in ops <==> op == ops[0] || op in ops[1..];
    }
  }

  /** Any number of `get_stats` calls anywhere in a run changes no decision. */
  lemma {:induction false} StatsAreInvisible(b: Bucket, ops: seq<Op>)
    requires Monotone(b, ops)
    ensures Decisions(b, ops) == Decisions(b, WithoutStats(ops))
    decreases |ops|
  {
    if ops != [] {
      var rest := WithoutStats(ops[1..]);
      StatsAreInvisible(Apply(b, ops[0]), ops[1..]);
      if ops[0].Consume? {
        assert WithoutStats(ops)[1..] == rest;
      } else {
        assert WithoutStats(ops) == rest;
        if rest != [] {
          WithoutStatsSelects(ops[1..], rest[0]);
          RefillComposes(b, ops[0].credit, rest[0].credit);
        }
      }
    }
  }

  // ----- in seconds

  datatype Call = ConsumeAt(n: int, at: real) | StatsAt(at: real)

  /** The calls of a run on a clock in seconds, as operations on the credit clock. */
  function Stamped(calls: seq<Call>, rate: real): seq<Op> {
    seq(|calls|, k requires 0 <= k < |calls| =>
      match calls[k]
      case ConsumeAt(n, at) => Consume(n, at * rate)
      case StatsAt(at) => Stats(at * rate))
  }

  lemma {:induction false} StampedInOrder(calls: seq<Call>, rate: real, k: nat, l: nat)
    requires k <= l < |calls| && calls[k].at <= calls[l].at && rate >= 0.0
    ensures Stamped(calls, rate)[k].credit <= Stamped(calls, rate)[l].credit
  {
    EarnsMonotonically(calls[k].at, calls[l].at, rate);
  }

  lemma {:induction false} EarnsMonotonically(s: real, t: real, rate: real)
    requires s <= t && rate >= 0.0
    ensures s * rate <= t * rate
  {}

  ghost predicate InOrder(created: real, calls: seq<Call>) {
    && (forall k :: 0 <= k < |calls| ==> created <= calls[k].at)
    && (forall k, l :: 0 <= k < l < |calls| ==> calls[k].at <= calls[l].at)
  }

  lemma {:induction false} StampedIsMonotone(b: Bucket, rate: real, created: real, calls: seq<Call>)
    requires rate >= 0.0 && InOrder(created, calls) && b.mark == created * rate
    ensures Monotone(b, Stamped(calls, rate))
  {
    forall k | 0 <= k < |calls| ensures b.mark <= Stamped(calls, rate)[k].credit {
      EarnsMonotonically(created, calls[k].at, rate);
    }
    forall k, l | 0 <= k < l < |calls| ensures Stamped(calls, rate)[k].credit <= Stamped(calls, rate)[l].credit {
      StampedInOrder(calls, rate, k, l);
    }
  }

  /** In every window [s, t], the calls made within it hand out at most capacity + rate * (t - s). */
  lemma {:induction false} WindowBoundInSeconds(capacity: real, rate: real, created: real, calls: seq<Call>,
          i: nat, j: nat, s: real, t: real)
    requires capacity >= 0.0 && rate >= 0.0 && InOrder(created, calls)
    requires forall call :: call in calls && call.ConsumeAt? ==> call.n >= 0
    requires i < j <= |calls| && s <= calls[i].at && calls[j - 1].at <= t
    ensures GrantedFrom(Full(capacity, created * rate), Stamped(calls, rate), i, j) <= capacity + (t - s) * rate
  {
    var b, ops := Full(capacity, created * rate), Stamped(calls, rate);
    StampedIsMonotone(b, rate, created, calls);
    WindowBound(b, ops, i, j);
    WindowEarns(calls, rate, i, j - 1, s, t);
  }

  lemma {:induction false} WindowEarns(calls: seq<Call>, rate: real, i: nat, k: nat, s: real, t: real)
    requires rate >= 0.0 && i <= k < |calls| && s <= calls[i].at && calls[k].at <= t
    ensures Stamped(calls, rate)[k].credit - Stamped(calls, rate)[i].credit <= (t - s) * rate
  {
    EarnsMonotonically(s, calls[i].at, rate);
    EarnsMonotonically(calls[k].at, t, rate);
    Distributes(s, t, rate);
  }
}
