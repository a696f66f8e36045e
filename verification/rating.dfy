/** Rating: from hourly buckets to a bill, and the bill as a function of the metered events. */
module Rating {
  import opened Common
  import opened Dicts
  import opened Metering

  datatype MetricPlan = MetricPlan(included: nat, overageRate: nat)
  type Plan = map<string, MetricPlan>

  datatype LineItem = LineItem(metric: string, usage: nat, included: nat, overageUnits: nat, overageRate: nat, amount: nat)
  datatype RatingResult = RatingResult(subtotal: nat, items: seq<LineItem>)

  type Usage = Dict<string, nat>

  function UsageOf(u: Usage, metric: string): nat {
    if metric in u.vals then u.vals[metric] else 0
  }

  /** The buckets in the order of the dictionary. */
  function Values(d: Buckets): seq<Bucket>
    requires forall k :: k in d.keys ==> k in d.vals
  {
    seq(|d.keys|, i requires 0 <= i < |d.keys| => d.vals[d.keys[i]])
  }

  function UsageByMetric(bs: seq<Bucket>): Usage {
    if bs == [] then Empty()
    else
      var u, b := UsageByMetric(bs[..|bs| - 1]), bs[|bs| - 1];
      Put(u, b.metric, UsageOf(u, b.metric) + b.sum)
  }

  function Overage(mp: MetricPlan, used: nat): nat {
    if used > mp.included then used - mp.included else 0
  }

  /** An unplanned metric is not charged. */
  function Amount(plan: Plan, metric: string, used: nat): nat {
    if metric in plan then Overage(plan[metric], used) * plan[metric].overageRate else 0
  }

  function Item(plan: Plan, metric: string, used: nat): LineItem {
    if metric in plan then
      LineItem(metric, used, plan[metric].included, Overage(plan[metric], used), plan[metric].overageRate, Amount(plan, metric, used))
    else LineItem(metric, used, 0, 0, 0, 0)
  }

  function Items(plan: Plan, u: Usage, ks: seq<string>): seq<LineItem> {
    if ks == [] then []
    else Items(plan, u, ks[..|ks| - 1]) + [Item(plan, ks[|ks| - 1], UsageOf(u, ks[|ks| - 1]))]
  }

  function Subtotal(plan: Plan, u: Usage): int {
    Sum(AmountAt(plan, u), u.keys)
  }

  function AmountAt(plan: Plan, u: Usage): string -> int {
    (m: string) => Amount(plan, m, UsageOf(u, m)) as int
  }

  lemma {:induction false} UsageIsValid(bs: seq<Bucket>)
    ensures Valid(UsageByMetric(bs))
  {
    if bs != [] {
      UsageIsValid(bs[..|bs| - 1]);
    }
  }

  method SumUsageByMetric(buckets: seq<Bucket>) returns (agg: Usage)
    ensures agg == UsageByMetric(buckets)
  {
    agg := Empty();
    for i := 0 to |buckets|
      invariant agg == UsageByMetric(buckets[..i])
    {
      assert buckets[..i + 1][..i] == buckets[..i];
      var b := buckets[i];
      agg := Put(agg, b.metric, UsageOf(agg, b.metric) + b.sum);
    }
    assert buckets[..|buckets|] == buckets;
  }

  function SumOfAmounts(items: seq<LineItem>): nat {
    if items == [] then 0 else SumOfAmounts(items[..|items| - 1]) + items[|items| - 1].amount
  }

  lemma {:induction false} ItemsOf(plan: Plan, u: Usage, ks: seq<string>)
    ensures |Items(plan, u, ks)| == |ks|
    ensures forall i :: 0 <= i < |ks| ==> Items(plan, u, ks)[i] == Item(plan, ks[i], UsageOf(u, ks[i]))
  {
    if ks != [] {
      ItemsOf(plan, u, ks[..|ks| - 1]);
    }
  }

  lemma {:induction false} ItemsAddUp(plan: Plan, u: Usage, ks: seq<string>)
    ensures SumOfAmounts(Items(plan, u, ks)) == Sum(AmountAt(plan, u), ks)
  {
    if ks != [] {
      var init, k := ks[..|ks| - 1], ks[|ks| - 1];
      ItemsAddUp(plan, u, init);
      AmountsSnoc(Items(plan, u, init), Item(plan, k, UsageOf(u, k)));
      assert Item(plan, k, UsageOf(u, k)).amount == AmountAt(plan, u)(k);
    }
  }

  lemma {:induction false} AmountsSnoc(items: seq<LineItem>, it: LineItem)
    ensures SumOfAmounts(items + [it]) == SumOfAmounts(items) + it.amount
  {
    assert (items + [it])[..|items|] == items;
  }

  lemma {:induction false} UsageIsBuckets(buckets: seq<Bucket>)
    ensures Valid(UsageByMetric(buckets))
    ensures forall m :: UsageOf(UsageByMetric(buckets), m) == SumOver(buckets, m)
    ensures forall j :: 0 <= j < |buckets| ==> buckets[j].metric in UsageByMetric(buckets).keys
  {
    UsageIsValid(buckets);
    forall m ensures UsageOf(UsageByMetric(buckets), m) == SumOver(buckets, m) {
      UsageIsSum(buckets, m);
    }
    forall j | 0 <= j < |buckets| ensures buckets[j].metric in UsageByMetric(buckets).keys {
      UsageIsSum(buckets, buckets[j].metric);
    }
  }

  ghost predicate HasBuckets(buckets: seq<Bucket>, metric: string) {
    exists j :: 0 <= j < |buckets| && buckets[j].metric == metric
  }

  lemma {:induction false} UsageHasBuckets(buckets: seq<Bucket>, metric: string)
    requires metric in UsageByMetric(buckets).keys
    ensures HasBuckets(buckets, metric)
  {
    var n := |buckets| - 1;
    UsageIsValid(buckets[..n]);
    if buckets[n].metric != metric {
      UsageHasBuckets(buckets[..n], metric);
      var j :| 0 <= j < n && buckets[..n][j].metric == metric;
      assert buckets[j].metric == metric;
    }
  }

  ghost predicate HasItem(items: seq<LineItem>, metric: string) {
    exists i :: 0 <= i < |items| && items[i].metric == metric
  }

  /** One item for each metric of the buckets. */
  lemma {:induction false} ItemsAreMetrics(plan: Plan, buckets: seq<Bucket>)
    ensures var items := Items(plan, UsageByMetric(buckets), UsageByMetric(buckets).keys);
      && (forall i, j :: 0 <= i < j < |items| ==> items[i].metric != items[j].metric)
      && (forall i :: 0 <= i < |items| ==> HasBuckets(buckets, items[i].metric))
      && (forall j :: 0 <= j < |buckets| ==> HasItem(items, buckets[j].metric))
  {
    var u := UsageByMetric(buckets);
    var items := Items(plan, u, u.keys);
    UsageIsBuckets(buckets);
    ItemsOf(plan, u, u.keys);
    forall j | 0 <= j < |buckets| ensures HasItem(items, buckets[j].metric) {
      ItemOfMetric(plan, u, buckets[j].metric);
    }
    forall i | 0 <= i < |items| ensures HasBuckets(buckets, items[i].metric) {
      UsageHasBuckets(buckets, u.keys[i]);
    }
  }

  lemma {:induction false} ItemOfMetric(plan: Plan, u: Usage, metric: string)
    requires metric in u.keys
    ensures HasItem(Items(plan, u, u.keys), metric)
  {
    ItemsOf(plan, u, u.keys);
    var i :| 0 <= i < |u.keys| && u.keys[i] == metric;
    assert Items(plan, u, u.keys)[i].metric == metric;
  }

  /** What each item says, in terms of the buckets and the plan alone. */
  lemma {:induction false} ItemsAreBilled(plan: Plan, buckets: seq<Bucket>, i: nat)
    requires i < |Items(plan, UsageByMetric(buckets), UsageByMetric(buckets).keys)|
    ensures var it := Items(plan, UsageByMetric(buckets), UsageByMetric(buckets).keys)[i];
      && it.usage == SumOver(buckets, it.metric)
      && it.amount == it.overageUnits * it.overageRate
      && if it.metric in plan then
           && it.included == plan[it.metric].included && it.overageRate == plan[it.metric].overageRate
           && (if it.usage > it.included then it.included + it.overageUnits == it.usage else it.overageUnits == 0)
         else it.included == it.overageUnits == it.overageRate == it.amount == 0
  {
    var u := UsageByMetric(buckets);
    ItemsOf(plan, u, u.keys);
    UsageIsBuckets(buckets);
  }

  method RateFromBuckets(plan: Plan, buckets: seq<Bucket>) returns (r: RatingResult)
    ensures var u := UsageByMetric(buckets);
      r.subtotal == Subtotal(plan, u) && r.items == Items(plan, u, u.keys)
    ensures forall i :: 0 <= i < |r.items| ==>
      var it := r.items[i];
      && it.usage == SumOver(buckets, it.metric)
      && it.amount == it.overageUnits * it.overageRate
      && if it.metric in plan then
           && it.included == plan[it.metric].included && it.overageRate == plan[it.metric].overageRate
           && (if it.usage > it.included then it.included + it.overageUnits == it.usage else it.overageUnits == 0)
         else it.included == it.overageUnits == it.overageRate == it.amount == 0
    ensures r.subtotal == SumOfAmounts(r.items)
    ensures forall j :: 0 <= j < |buckets| ==> HasItem(r.items, buckets[j].metric)
    ensures forall i, j :: 0 <= i < j < |r.items| ==> r.items[i].metric != r.items[j].metric
  {
    var usage := SumUsageByMetric(buckets);
    UsageIsValid(buckets);
    r := RateUsage(plan, usage);
    ItemsOf(plan, usage, usage.keys);
    ItemsAddUp(plan, usage, usage.keys);
    ItemsAreMetrics(plan, buckets);
    forall i | 0 <= i < |r.items| ensures
      var it := r.items[i];
      && it.usage == SumOver(buckets, it.metric)
      && it.amount == it.overageUnits * it.overageRate
      && if it.metric in plan then
           && it.included == plan[it.metric].included && it.overageRate == plan[it.metric].overageRate
           && (if it.usage > it.included then it.included + it.overageUnits == it.usage else it.overageUnits == 0)
         else it.included == it.overageUnits == it.overageRate == it.amount == 0
    {
      ItemsAreBilled(plan, buckets, i);
    }
  }

  /** The rating loop. */
  method RateUsage(plan: Plan, usage: Usage) returns (r: RatingResult)
    requires Valid(usage)
    ensures r.subtotal == Subtotal(plan, usage) && r.items == Items(plan, usage, usage.keys)
  {
    var items: seq<LineItem> := [];
    var subtotal: int := 0;
    for i := 0 to |usage.keys|
      invariant subtotal == Sum(AmountAt(plan, usage), usage.keys[..i]) && subtotal >= 0
      invariant items == Items(plan, usage, usage.keys[..i])
    {
      RateStep(plan, usage, i);
      var metric := usage.keys[i];
      var item := RateMetric(plan, metric, usage.vals[metric]);
      subtotal := subtotal + item.amount;
      items := items + [item];
    }
    assert usage.keys[..|usage.keys|] == usage.keys;
    return RatingResult(subtotal, items);
  }

  lemma {:induction false} RateStep(plan: Plan, u: Usage, i: nat)
    requires Valid(u) && i < |u.keys|
    ensures var m := u.keys[i];
      && m in u.vals && u.vals[m] == UsageOf(u, m)
      && Items(plan, u, u.keys[..i + 1]) == Items(plan, u, u.keys[..i]) + [Item(plan, m, UsageOf(u, m))]
      && Sum(AmountAt(plan, u), u.keys[..i + 1]) == Sum(AmountAt(plan, u), u.keys[..i]) + Amount(plan, m, UsageOf(u, m))
  {
    assert u.keys[i] in u.keys && u.keys[..i + 1][..i] == u.keys[..i];
  }

  /** The body of the rating loop. */
  method RateMetric(plan: Plan, metric: string, used: nat) returns (item: LineItem)
    ensures item == Item(plan, metric, used) && item.amount == Amount(plan, metric, used)
  {
    if metric !in plan {
      return LineItem(metric, used, 0, 0, 0, 0);
    }
    var mp := plan[metric];
    var over := if used - mp.included > 0 then used - mp.included else 0;
    var amt := over * mp.overageRate;
    return LineItem(metric, used, mp.included, over, mp.overageRate, amt);
  }

  method RateReport(plan: Plan, buckets: Buckets) returns (r: RatingResult)
    requires Valid(buckets)
    ensures var u := UsageByMetric(Values(buckets)); r.subtotal == Subtotal(plan, u) && r.items == Items(plan, u, u.keys)
  {
    r := RateFromBuckets(plan, Values(buckets));
  }

  // ----- the bill of a list of kept events

  function Bill(plan: Plan, events: seq<Event>): int {
    AggregateIsValid(events);
    Subtotal(plan, UsageByMetric(Values(Aggregate(events))))
  }

  /** Metering and rating in one go. */
  method MeterAndRate(plan: Plan, events: seq<Event>) returns (r: RatingResult)
    ensures r.subtotal == Bill(plan, Unique({}, events))
  {
    AggregateIsValid(Unique({}, events));
    var rep := AggregateHourly(events);
    r := RateReport(plan, rep.buckets);
  }

  /** What was used of a metric, straight from the events. */
  function MetricTotal(events: seq<Event>, metric: string): nat {
    if events == [] then 0
    else MetricTotal(events[..|events| - 1], metric) + if events[|events| - 1].metric == metric then events[|events| - 1].value else 0
  }

  function InMetric(metric: string): Bucket -> int {
    (b: Bucket) => if b.metric == metric then b.sum as int else 0
  }

  function SumOver(bs: seq<Bucket>, metric: string): nat {
    if bs == [] then 0
    else SumOver(bs[..|bs| - 1], metric) + if bs[|bs| - 1].metric == metric then bs[|bs| - 1].sum else 0
  }

  lemma {:induction false} UsageIsSum(bs: seq<Bucket>, metric: string)
    ensures UsageOf(UsageByMetric(bs), metric) == SumOver(bs, metric)
    ensures metric in UsageByMetric(bs).vals <==> exists i :: 0 <= i < |bs| && bs[i].metric == metric
  {
    if bs != [] {
      var n := |bs| - 1;
      UsageIsSum(bs[..n], metric);
      if i :| 0 <= i < |bs| && bs[i].metric == metric {
        if i < n {
          assert bs[..n][i] == bs[i];
        }
      }
    }
  }

  lemma {:induction false} SumOverIsTotal(d: Buckets, metric: string, n: nat)
    requires Valid(d) && n <= |d.keys|
    ensures SumOver(Values(d)[..n], metric)
      == Sum(FieldAt(InMetric(metric), d), d.keys[..n])
  {
    if n > 0 {
      SumOverIsTotal(d, metric, n - 1);
      assert Values(d)[..n][..n - 1] == Values(d)[..n - 1] && d.keys[..n][..n - 1] == d.keys[..n - 1];
      assert d.keys[n - 1] in d.keys;
    }
  }

  function KeyTotal(events: seq<Event>, k: BucketKey): nat {
    if events == [] then 0
    else KeyTotal(events[..|events| - 1], k) + if KeyOf(events[|events| - 1]) == k then events[|events| - 1].value else 0
  }

  /** Two events share a bucket under different metrics, and the bucket has usage to dispute. */
  ghost predicate Contested(events: seq<Event>) {
    exists a, b :: a in events && b in events && Collide(a, b) && KeyTotal(events, KeyOf(a)) > 0
  }

  /** The event joins a bucket with usage under another metric's name, and renames it. */
  predicate Renames(events: seq<Event>, ev: Event) {
    var m := Aggregate(events).vals;
    KeyOf(ev) in m && m[KeyOf(ev)].metric != ev.metric && m[KeyOf(ev)].sum > 0
  }

  lemma {:induction false} BucketHoldsKeyTotal(events: seq<Event>, k: BucketKey)
    ensures KeyTotal(events, k) == if k in Aggregate(events).vals then Aggregate(events).vals[k].sum else 0
  {
    if events != [] {
      BucketHoldsKeyTotal(events[..|events| - 1], k);
    }
  }

  /** A bucket bears the metric of one of its events. */
  lemma {:induction false} BucketMetric(events: seq<Event>, k: BucketKey) returns (ev: Event)
    requires k in Aggregate(events).vals
    ensures ev in events && KeyOf(ev) == k
    ensures var b := Aggregate(events).vals[k]; ev.tenant == b.tenant && ev.metric == b.metric
  {
    BucketsAreSummaries(events, k);
    OfMembers(events, k);
    ev := Of(events, k)[|Of(events, k)| - 1];
  }

  lemma {:induction false} OfMembers(events: seq<Event>, k: BucketKey)
    ensures forall ev :: ev in Of(events, k) ==> ev in events && KeyOf(ev) == k
  {
    if events != [] {
      OfMembers(events[..|events| - 1], k);
    }
  }

  lemma {:induction false} ContestLasts(events: seq<Event>, ev: Event)
    requires Contested(events)
    ensures Contested(events + [ev])
  {
    assert (events + [ev])[..|events|] == events;
    var a, b :| a in events && b in events && Collide(a, b) && KeyTotal(events, KeyOf(a)) > 0;
    assert KeyTotal(events + [ev], KeyOf(a)) > 0 && a in events + [ev] && b in events + [ev];
  }

  lemma {:induction false} RenamingContests(events: seq<Event>, ev: Event)
    requires Renames(events, ev)
    ensures Contested(events + [ev])
  {
    assert (events + [ev])[..|events|] == events;
    var was := BucketMetric(events, KeyOf(ev));
    BucketHoldsKeyTotal(events, KeyOf(ev));
    assert Collide(was, ev) && was in events + [ev] && ev in events + [ev];
    assert KeyTotal(events + [ev], KeyOf(was)) > 0;
  }

  /** The next event finds its bucket under its own metric, or empty of usage. */
  lemma {:induction false} UncontestedStep(events: seq<Event>, ev: Event)
    requires !Contested(events + [ev])
    ensures !Contested(events) && !Renames(events, ev)
  {
    if Contested(events) {
      ContestLasts(events, ev);
    }
    if Renames(events, ev) {
      RenamingContests(events, ev);
    }
  }

  lemma {:induction false} TotalInMetric(events: seq<Event>, metric: string)
    requires !Contested(events)
    ensures Total(InMetric(metric), Aggregate(events)) == MetricTotal(events, metric)
  {
    if events != [] {
      var init, ev := events[..|events| - 1], events[|events| - 1];
      assert init + [ev] == events;
      UncontestedStep(init, ev);
      TotalInMetric(init, metric);
      AggregateIsValid(init);
      TotalStep(InMetric(metric), Aggregate(init), ev);
    }
  }

  /** What the bill counts as usage of a metric. */
  function BilledUsage(events: seq<Event>, metric: string): nat {
    AggregateIsValid(events);
    UsageOf(UsageByMetric(Values(Aggregate(events))), metric)
  }

  /** Unless a bucket is contested, what is billed as usage of a metric is exactly what its events
      add up to. */
  lemma {:induction false} UsageIsMetricTotal(events: seq<Event>, metric: string)
    requires !Contested(events)
    ensures BilledUsage(events, metric) == MetricTotal(events, metric)
  {
    UsageIsTotal(events, metric);
    TotalInMetric(events, metric);
  }

  /** Billed usage is what the buckets under the metric's name add up to, collisions or not. */
  lemma {:induction false} UsageIsTotal(events: seq<Event>, metric: string)
    ensures BilledUsage(events, metric) == Total(InMetric(metric), Aggregate(events))
  {
    var d := Aggregate(events);
    AggregateIsValid(events);
    UsageIsSum(Values(d), metric);
    SumOverIsTotal(d, metric, |d.keys|);
    assert Values(d)[..|d.keys|] == Values(d) && d.keys[..|d.keys|] == d.keys;
  }

  // ----- growth and order

  ghost predicate Dominates(xs: seq<Event>, ys: seq<Event>) {
    forall m :: BilledUsage(xs, m) <= BilledUsage(ys, m)
  }

  lemma {:induction false} ScaledMonotone(a: nat, b: nat, r: nat)
    requires a <= b
    ensures a * r <= b * r
  {}

  lemma {:induction false} AmountMonotone(plan: Plan, metric: string, a: nat, b: nat)
    requires a <= b
    ensures Amount(plan, metric, a) <= Amount(plan, metric, b)
  {
    if metric in plan {
      ScaledMonotone(Overage(plan[metric], a), Overage(plan[metric], b), plan[metric].overageRate);
    }
  }

  lemma {:induction false} AmountOfNothing(plan: Plan, metric: string)
    ensures Amount(plan, metric, 0) == 0
  {}

  /** The metrics of `u` on which something was used. */
  lemma {:induction false} SumOfUsed(plan: Plan, u: Usage, ks: seq<string>) returns (used: seq<string>)
    requires NoDup(ks)
    ensures NoDup(used) && forall m :: m in used <==> m in ks && UsageOf(u, m) > 0
    ensures Sum(AmountAt(plan, u), used) == Sum(AmountAt(plan, u), ks)
  {
    used := [];
    if ks != [] {
      var n := |ks| - 1;
      used := SumOfUsed(plan, u, ks[..n]);
      assert forall m :: m in ks <==> m in ks[..n] || m == ks[n];
      if UsageOf(u, ks[n]) > 0 {
        assert ks[n] !in used;
        assert (used + [ks[n]])[..|used|] == used;
        used := used + [ks[n]];
      } else {
        AmountOfNothing(plan, ks[n]);
      }
    }
  }

  /** The bill is monotone in the usage of each metric, whatever order buckets and metrics come in. */
  lemma {:induction false} BillMonotone(plan: Plan, xs: seq<Event>, ys: seq<Event>)
    requires Dominates(xs, ys)
    ensures Bill(plan, xs) <= Bill(plan, ys)
  {
    AggregateIsValid(xs);
    AggregateIsValid(ys);
    var u, v := UsageByMetric(Values(Aggregate(xs))), UsageByMetric(Values(Aggregate(ys)));
    UsageIsValid(Values(Aggregate(xs)));
    UsageIsValid(Values(Aggregate(ys)));
    var used := SumOfUsed(plan, u, u.keys);
    var f, g := AmountAt(plan, u), AmountAt(plan, v);
    forall m | m in used ensures m in v.keys && f(m) <= g(m) {
      assert BilledUsage(xs, m) <= BilledUsage(ys, m);
      AmountMonotone(plan, m, UsageOf(u, m), UsageOf(v, m));
    }
    SumMonotone(f, used, g, v.keys);
  }

  lemma {:induction false} TotalsGrow(xs: seq<Event>, ys: seq<Event>, m: string)
    ensures MetricTotal(xs, m) <= MetricTotal(xs + ys, m)
  {
    if ys == [] {
      assert xs + ys == xs;
    } else {
      TotalsGrow(xs, ys[..|ys| - 1], m);
      assert (xs + ys)[..|xs + ys| - 1] == xs + ys[..|ys| - 1];
    }
  }

  lemma {:induction false} UniqueExtends(events: seq<Event>, more: seq<Event>) returns (rest: seq<Event>)
    ensures Unique({}, events + more) == Unique({}, events) + rest
  {
    rest := [];
    if more == [] {
      assert events + more == events;
    } else {
      var n := |more| - 1;
      rest := UniqueExtends(events, more[..n]);
      var all := events + more;
      assert all[..|all| - 1] == events + more[..n] && all[|all| - 1] == more[n];
      if IdempotencyKey(more[n]) !in KeysAfter({}, events + more[..n]) {
        rest := rest + [more[n]];
      }
    }
  }

  lemma {:induction false} PrefixUncontested(xs: seq<Event>, ys: seq<Event>)
    requires !Contested(xs + ys)
    ensures !Contested(xs)
  {
    if ys == [] {
      assert xs + ys == xs;
    } else {
      assert xs + ys == (xs + ys[..|ys| - 1]) + [ys[|ys| - 1]];
      UncontestedStep(xs + ys[..|ys| - 1], ys[|ys| - 1]);
      PrefixUncontested(xs, ys[..|ys| - 1]);
    }
  }

  lemma {:induction false} GrowthNeverLowersBill(plan: Plan, xs: seq<Event>, rest: seq<Event>)
    requires !Contested(xs + rest)
    ensures Bill(plan, xs) <= Bill(plan, xs + rest)
  {
    PrefixUncontested(xs, rest);
    forall m ensures BilledUsage(xs, m) <= BilledUsage(xs + rest, m) {
      TotalsGrow(xs, rest, m);
      UsageIsMetricTotal(xs, m);
      UsageIsMetricTotal(xs + rest, m);
    }
    BillMonotone(plan, xs, xs + rest);
  }

  /** Receiving more events, replays among them, never lowers the bill. */
  lemma {:induction false} MoreEventsNeverLowerBill(plan: Plan, events: seq<Event>, more: seq<Event>)
    requires !Contested(Unique({}, events + more))
    ensures Bill(plan, Unique({}, events)) <= Bill(plan, Unique({}, events + more))
  {
    var rest := UniqueExtends(events, more);
    GrowthNeverLowersBill(plan, Unique({}, events), rest);
  }

  function AddTo(metric: string): (int, Event) -> int {
    (s: int, ev: Event) => s + if ev.metric == metric then ev.value else 0
  }

  lemma {:induction false} MetricTotalIsFold(events: seq<Event>, metric: string)
    ensures MetricTotal(events, metric) == Fold(AddTo(metric), 0, events)
  {
    if events != [] {
      MetricTotalIsFold(events[..|events| - 1], metric);
    }
  }

  lemma {:induction false} MetricTotalPermutes(xs: seq<Event>, ys: seq<Event>, m: string)
    requires multiset(xs) == multiset(ys)
    ensures MetricTotal(xs, m) == MetricTotal(ys, m)
  {
    FoldPermutes(AddTo(m), 0, xs, ys);
    MetricTotalIsFold(xs, m);
    MetricTotalIsFold(ys, m);
  }

  function AddToKey(k: BucketKey): (int, Event) -> int {
    (s: int, ev: Event) => s + if KeyOf(ev) == k then ev.value else 0
  }

  lemma {:induction false} KeyTotalIsFold(events: seq<Event>, k: BucketKey)
    ensures KeyTotal(events, k) == Fold(AddToKey(k), 0, events)
  {
    if events != [] {
      KeyTotalIsFold(events[..|events| - 1], k);
    }
  }

  lemma {:induction false} KeyTotalPermutes(xs: seq<Event>, ys: seq<Event>, k: BucketKey)
    requires multiset(xs) == multiset(ys)
    ensures KeyTotal(xs, k) == KeyTotal(ys, k)
  {
    FoldPermutes(AddToKey(k), 0, xs, ys);
    KeyTotalIsFold(xs, k);
    KeyTotalIsFold(ys, k);
  }

  lemma {:induction false} PermutationUncontested(xs: seq<Event>, ys: seq<Event>)
    requires multiset(xs) == multiset(ys) && !Contested(xs)
    ensures !Contested(ys)
  {
    if a, b :| a in ys && b in ys && Collide(a, b) && KeyTotal(ys, KeyOf(a)) > 0 {
      assert a in multiset(ys) && b in multiset(ys);
      KeyTotalPermutes(xs, ys, KeyOf(a));
    }
  }

  lemma {:induction false} UncontestedIgnoresOrder(plan: Plan, xs: seq<Event>, ys: seq<Event>)
    requires multiset(xs) == multiset(ys) && !Contested(xs)
    ensures Bill(plan, xs) == Bill(plan, ys)
  {
    PermutationUncontested(xs, ys);
    forall m ensures BilledUsage(xs, m) == BilledUsage(ys, m) {
      MetricTotalPermutes(xs, ys, m);
      UsageIsMetricTotal(xs, m);
      UsageIsMetricTotal(ys, m);
    }
    BillMonotone(plan, xs, ys);
    BillMonotone(plan, ys, xs);
  }

  /** How one more event changes the billed usage of a metric. */
  lemma {:induction false} UsageStep(events: seq<Event>, ev: Event, metric: string)
    ensures var m, k := Aggregate(events).vals, KeyOf(ev);
      BilledUsage(events + [ev], metric) == BilledUsage(events, metric)
        - (if k in m && m[k].metric == metric then m[k].sum else 0)
        + (if ev.metric == metric then ev.value + (if k in m then m[k].sum else 0) else 0)
  {
    UsageIsTotal(events, metric);
    UsageIsTotal(events + [ev], metric);
    AggregateIsValid(events);
    TotalStep(InMetric(metric), Aggregate(events), ev);
    assert (events + [ev])[..|events|] == events;
  }

  /** The plan that charges one unit of money for each unit of one metric. */
  function OnlyMetric(metric: string): Plan {
    map[metric := MetricPlan(0, 1)]
  }

  lemma {:induction false} OnlyMetricSum(u: Usage, metric: string, ks: seq<string>)
    requires NoDup(ks)
    ensures Sum(AmountAt(OnlyMetric(metric), u), ks) == if metric in ks then UsageOf(u, metric) else 0
  {
    if ks != [] {
      var init, k := ks[..|ks| - 1], ks[|ks| - 1];
      OnlyMetricSum(u, metric, init);
      assert metric in ks <==> metric in init || metric == k;
      assert k !in init;
    }
  }

  lemma {:induction false} OnlyMetricBill(events: seq<Event>, metric: string)
    ensures Bill(OnlyMetric(metric), events) == BilledUsage(events, metric)
  {
    AggregateIsValid(events);
    var bs := Values(Aggregate(events));
    UsageIsValid(bs);
    OnlyMetricSum(UsageByMetric(bs), metric, UsageByMetric(bs).keys);
  }

  /** Billed usage of a metric without what bucket `k` contributes to it. */
  function UsageElsewhere(events: seq<Event>, metric: string, k: BucketKey): int {
    var m := Aggregate(events).vals;
    BilledUsage(events, metric) - if k in m && m[k].metric == metric then m[k].sum else 0
  }

  lemma {:induction false} ElsewhereStays(events: seq<Event>, ev: Event, metric: string)
    ensures UsageElsewhere(events + [ev], metric, KeyOf(ev)) == UsageElsewhere(events, metric, KeyOf(ev))
    ensures BilledUsage(events + [ev], metric) == UsageElsewhere(events, metric, KeyOf(ev))
      + if ev.metric == metric then KeyTotal(events + [ev], KeyOf(ev)) else 0
  {
    UsageStep(events, ev, metric);
    LastNames(events, ev);
    BucketHoldsKeyTotal(events, KeyOf(ev));
    BucketHoldsKeyTotal(events + [ev], KeyOf(ev));
    assert (events + [ev])[..|events|] == events;
  }

  /** Of two colliding events at the end, the last one takes the whole bucket under its metric. */
  lemma {:induction false} LastTakesBucket(rest: seq<Event>, a: Event, b: Event)
    requires Collide(a, b)
    ensures BilledUsage(rest + [b] + [a], a.metric)
      == BilledUsage(rest + [a] + [b], a.metric) + KeyTotal(rest + [b] + [a], KeyOf(a))
  {
    CollidingMetrics(a, b);
    ElsewhereStays(rest, a, a.metric);
    ElsewhereStays(rest, b, a.metric);
    ElsewhereStays(rest + [a], b, a.metric);
    ElsewhereStays(rest + [b], a, a.metric);
  }

  /** A bucket key and a metric determine the tenant. */
  lemma {:induction false} SameTenant(a: Event, b: Event)
    requires KeyOf(a) == KeyOf(b) && a.metric == b.metric
    ensures a.tenant == b.tenant
  {
    assert |a.tenant| == |b.tenant|;
    assert a.tenant == KeyOf(a).names[..|a.tenant|] && b.tenant == KeyOf(b).names[..|b.tenant|];
  }

  lemma {:induction false} CollidingMetrics(a: Event, b: Event)
    requires Collide(a, b)
    ensures a.metric != b.metric
  {
    if a.metric == b.metric {
      SameTenant(a, b);
    }
  }

  lemma {:induction false} TakeOut(events: seq<Event>, a: Event) returns (others: seq<Event>)
    requires a in events
    ensures multiset(events) == multiset(others) + multiset{a}
  {
    var i :| 0 <= i < |events| && events[i] == a;
    others := events[..i] + events[i + 1..];
    assert events == events[..i] + [a] + events[i + 1..];
  }

  /** Two different members, moved behind the rest. */
  lemma {:induction false} PairToTheEnd(events: seq<Event>, a: Event, b: Event) returns (rest: seq<Event>)
    requires a in events && b in events && a != b
    ensures multiset(rest + [b] + [a]) == multiset(events) && multiset(rest + [a] + [b]) == multiset(events)
  {
    var others := TakeOut(events, a);
    assert b in multiset(events);
    assert b in others;
    rest := TakeOut(others, b);
  }

  /** Every order of the kept events gives the same bill under every plan exactly when no bucket is
      contested. */
  lemma {:induction false} BillIgnoresOrderExactly(events: seq<Event>)
    ensures (forall plan, p :: multiset(p) == multiset(events) ==> Bill(plan, p) == Bill(plan, events)) <==> !Contested(events)
  {
    if a, b :| a in events && b in events && Collide(a, b) && KeyTotal(events, KeyOf(a)) > 0 {
      var rest := PairToTheEnd(events, a, b);
      var p, q := rest + [b] + [a], rest + [a] + [b];
      KeyTotalPermutes(events, p, KeyOf(a));
      LastTakesBucket(rest, a, b);
      OnlyMetricBill(p, a.metric);
      OnlyMetricBill(q, a.metric);
      assert Bill(OnlyMetric(a.metric), p) != Bill(OnlyMetric(a.metric), q);
    } else {
      forall plan, p | multiset(p) == multiset(events) ensures Bill(plan, p) == Bill(plan, events) {
        UncontestedIgnoresOrder(plan, events, p);
      }
    }
  }

  /** Through the idempotent filter, key-distinct events bill alike in any order. */
  lemma {:induction false} BillIgnoresOrder(plan: Plan, xs: seq<Event>, ys: seq<Event>)
    requires multiset(xs) == multiset(ys) && KeyDistinct(xs) && KeyDistinct(ys) && !Contested(xs)
    ensures Bill(plan, Unique({}, xs)) == Bill(plan, Unique({}, ys))
  {
    DistinctAreUnique(xs);
    DistinctAreUnique(ys);
    UncontestedIgnoresOrder(plan, xs, ys);
  }

  /** Bar-free tenant names rule contests out. */
  lemma {:induction false} BarFreeTenantsUncontested(events: seq<Event>)
    requires forall ev :: ev in events ==> '|' !in ev.tenant
    ensures !Contested(events)
  {
    BarFreeTenantsNeverCollide(events);
  }

  // ----- exactly when one more event can lower a bill

  /** One more kept event lowers the bill under no plan at all exactly when it does not rename a
      bucket that has usage. */
  lemma {:induction false} NextEventNeverLowersExactly(events: seq<Event>, ev: Event)
    ensures (forall plan :: Bill(plan, events) <= Bill(plan, events + [ev])) <==> !Renames(events, ev)
  {
    if Renames(events, ev) {
      var metric := Aggregate(events).vals[KeyOf(ev)].metric;
      UsageStep(events, ev, metric);
      OnlyMetricBill(events, metric);
      OnlyMetricBill(events + [ev], metric);
      assert Bill(OnlyMetric(metric), events) > Bill(OnlyMetric(metric), events + [ev]);
    } else {
      forall m ensures BilledUsage(events, m) <= BilledUsage(events + [ev], m) {
        UsageStep(events, ev, m);
      }
      forall plan ensures Bill(plan, events) <= Bill(plan, events + [ev]) {
        BillMonotone(plan, events, events + [ev]);
      }
    }
  }

  /** Renaming does happen: the names "a" + "b|c" and "a|b" + "c" share their bucket keys. */
  lemma {:induction false} RenamingExists() returns (first: Event, second: Event)
    ensures KeyDistinct([first] + [second]) && Renames([first], second)
  {
    first, second := Event("a", "b|c", "1", 0, 10), Event("a|b", "c", "2", 0, 1);
    assert first.tenant + "|" + first.metric == second.tenant + "|" + second.metric == "a|b|c";
    assert IdempotencyKey(first) == "a|b|c|1" && IdempotencyKey(second) == "a|b|c|2";
    assert IdempotencyKey(first)[6] != IdempotencyKey(second)[6];
    assert [first][..0] == [];
  }
}
