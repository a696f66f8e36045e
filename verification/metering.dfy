/** Metering: idempotent filtering, lateness, and hourly aggregation of usage events.  Instants are
    UTC microseconds and values whole micro-units, so rounding to six places is the identity. */
module Metering {
  import opened Common
  import opened Dicts

  const SECOND := 1_000_000
  const HOUR := 3600 * SECOND

  datatype Event = Event(tenant: string, metric: string, corrId: string, ts: int, value: nat)

  /** The text that is hashed; the hash is injective, so keys are equal iff the texts are. */
  function IdempotencyKey(ev: Event): string {
    ev.tenant + "|" + ev.metric + "|" + ev.corrId
  }

  function FloorHour(ts: int): int {
    ts - ts % HOUR
  }

  /** The bucket key is "tenant|metric|" followed by the hour in ISO form; that form holds no bar,
      so two keys are equal iff the hours and the texts before them are. */
  datatype BucketKey = BucketKey(names: string, hour: int)

  function KeyOf(ev: Event): BucketKey {
    BucketKey(ev.tenant + "|" + ev.metric, FloorHour(ev.ts))
  }

  datatype Bucket = Bucket(tenant: string, metric: string, start: int, end: int, count: nat, sum: nat, min: nat, max: nat)

  type Buckets = Dict<BucketKey, Bucket>

  function Min(a: nat, b: nat): nat { if b < a then b else a }

  function Max(a: nat, b: nat): nat { if b > a then b else a }

  /** The slot of an event's key after the event: names and window are always overwritten. */
  function Merge(old': Option<Bucket>, ev: Event): Bucket {
    var start := FloorHour(ev.ts);
    match old'
    case None => Bucket(ev.tenant, ev.metric, start, start + HOUR, 1, ev.value, ev.value, ev.value)
    case Some(b) =>
      Bucket(ev.tenant, ev.metric, start, start + HOUR, b.count + 1, b.sum + ev.value, Min(b.min, ev.value), Max(b.max, ev.value))
  }

  function SlotOf(m: map<BucketKey, Bucket>, k: BucketKey): Option<Bucket> {
    if k in m then Some(m[k]) else None
  }

  function Add(d: Buckets, ev: Event): Buckets {
    Put(d, KeyOf(ev), Merge(SlotOf(d.vals, KeyOf(ev)), ev))
  }

  function Aggregate(events: seq<Event>): Buckets {
    if events == [] then Empty() else Add(Aggregate(events[..|events| - 1]), events[|events| - 1])
  }

  /** The events whose key is neither in `seen` nor that of an earlier event. */
  function Unique(seen: set<string>, events: seq<Event>): seq<Event> {
    if events == [] then []
    else
      var init, ev := events[..|events| - 1], events[|events| - 1];
      if IdempotencyKey(ev) in KeysAfter(seen, init) then Unique(seen, init) else Unique(seen, init) + [ev]
  }

  function KeysAfter(seen: set<string>, events: seq<Event>): set<string> {
    if events == [] then seen else KeysAfter(seen, events[..|events| - 1]) + {IdempotencyKey(events[|events| - 1])}
  }

  class InMemoryIdempoStore {
    var keys: set<string>

    constructor ()
      ensures keys == {}
    {
      keys := {};
    }

    method Seen(k: string) returns (r: bool)
      ensures r <==> k in keys
    {
      r := k in keys;
    }

    method Mark(k: string) returns (r: bool)
      modifies this
      ensures r <==> k !in old(keys)
      ensures keys == old(keys) + {k}
    {
      if k in keys {
        return false;
      }
      keys := keys + {k};
      return true;
    }
  }

  method ApplyEvent(ev: Event, store: InMemoryIdempoStore) returns (fresh': bool)
    modifies store
    ensures var text := ev.tenant + "|" + ev.metric + "|" + ev.corrId;
      && (fresh' <==> text !in old(store.keys))
      && store.keys == old(store.keys) + {text}
  {
    var k := IdempotencyKey(ev);
    var seen := store.Seen(k);
    if seen {
      return false;
    }
    fresh' := store.Mark(k);
  }

  method FilterIdempotentWith(store: InMemoryIdempoStore, events: seq<Event>) returns (acc: seq<Event>, dup: nat)
    modifies store
    ensures acc == Unique(old(store.keys), events) && |acc| + dup == |events|
    ensures store.keys == KeysAfter(old(store.keys), events)
  {
    acc, dup := [], 0;
    for i := 0 to |events|
      invariant acc == Unique(old(store.keys), events[..i]) && |acc| + dup == i
      invariant store.keys == KeysAfter(old(store.keys), events[..i])
    {
      assert events[..i + 1][..i] == events[..i];
      var ok := ApplyEvent(events[i], store);
      if ok {
        acc := acc + [events[i]];
      } else {
        dup := dup + 1;
      }
    }
    assert events[..|events|] == events;
  }

  /** An event is kept unless its tenant, metric and correlation id were seen before, or came earlier in the list. */
  lemma {:induction false} KeptExactly(seen: set<string>, events: seq<Event>, ev: Event)
    ensures Unique(seen, []) == []
    ensures var text := ev.tenant + "|" + ev.metric + "|" + ev.corrId;
      Unique(seen, events + [ev])
      == Unique(seen, events)
         + if text in seen || exists i :: 0 <= i < |events| && events[i].tenant + "|" + events[i].metric + "|" + events[i].corrId == text
           then [] else [ev]
  {
    assert (events + [ev])[..|events|] == events;
    KeysAfterAre(seen, events, IdempotencyKey(ev));
    assert forall i :: 0 <= i < |events| ==>
                         IdempotencyKey(events[i]) == events[i].tenant + "|" + events[i].metric + "|" + events[i].corrId;
  }

  // ----- lateness

  datatype Lateness = OnTime | LateKept | LateDropped

  datatype Policy = Policy(maxLagSec: nat, dropTooLate: bool)

  function Classify(p: Policy, ts: int, now: int): Lateness {
    var age := now - ts;
    if age <= 0 then OnTime else if age <= p.maxLagSec * SECOND then LateKept else LateDropped
  }

  predicate Dropped(p: Policy, ev: Event, now: int) {
    Classify(p, ev.ts, now).LateDropped? && p.dropTooLate
  }

  function Surviving(p: Policy, events: seq<Event>, now: int): seq<Event> {
    if events == [] then []
    else
      var init, ev := Surviving(p, events[..|events| - 1], now), events[|events| - 1];
      if Dropped(p, ev, now) then init else init + [ev]
  }

  function CountOf(p: Policy, events: seq<Event>, now: int, c: Lateness): nat {
    if events == [] then 0
    else CountOf(p, events[..|events| - 1], now, c) + if Classify(p, events[|events| - 1].ts, now) == c then 1 else 0
  }

  /** Only an event older than the allowed lag is dropped, and only when the policy drops. */
  lemma {:induction false} SurvivesExactly(p: Policy, events: seq<Event>, now: int, ev: Event)
    ensures Surviving(p, [], now) == []
    ensures Surviving(p, events + [ev], now)
      == Surviving(p, events, now) + if p.dropTooLate && now - ev.ts > p.maxLagSec * 1_000_000 then [] else [ev]
  {
    assert (events + [ev])[..|events|] == events;
  }

  /** The events whose age at `now` is above `low` and at most `high` microseconds, where `high` may be absent. */
  ghost function AgedAt(events: seq<Event>, now: int, low: int, high: Option<int>): set<int> {
    set i | 0 <= i < |events| && low < now - events[i].ts && (high == None || now - events[i].ts <= high.value)
  }

  lemma {:induction false} LateCounts(p: Policy, events: seq<Event>, now: int)
    ensures CountOf(p, events, now, LateKept) == |AgedAt(events, now, 0, Some(p.maxLagSec * 1_000_000))|
    ensures CountOf(p, events, now, LateDropped) == |AgedAt(events, now, p.maxLagSec * 1_000_000, None)|
  {
    var lag := p.maxLagSec * 1_000_000;
    if events == [] {
      assert AgedAt(events, now, 0, Some(lag)) == {} && AgedAt(events, now, lag, None) == {};
    } else {
      LateCounts(p, events[..|events| - 1], now);
      AgedSnoc(events, now, 0, Some(lag));
      AgedSnoc(events, now, lag, None);
    }
  }

  lemma {:induction false} AgedSnoc(events: seq<Event>, now: int, low: int, high: Option<int>)
    requires events != []
    ensures var age := now - events[|events| - 1].ts;
      |AgedAt(events, now, low, high)|
      == |AgedAt(events[..|events| - 1], now, low, high)| + if low < age && (high == None || age <= high.value) then 1 else 0
  {
    var n := |events| - 1;
    var age := now - events[n].ts;
    var all, before := AgedAt(events, now, low, high), AgedAt(events[..n], now, low, high);
    if low < age && (high == None || age <= high.value) {
      assert all == before + {n} && n !in before;
    } else {
      assert all == before;
    }
  }

  // ----- the two aggregations

  datatype Report = Report(buckets: Buckets, duplicates: nat)

  datatype ReportV2 = ReportV2(buckets: Buckets, duplicates: nat, lateKept: nat, lateDropped: nat)

  /** Every event received is either counted in a bucket or among those left aside. */
  ghost predicate Accounted(buckets: Buckets, aside: nat, received: nat) {
    Total(Counts, buckets) + aside == received
  }

  /** The buckets of the first event of each key. */
  function Hourly(events: seq<Event>): Buckets {
    Aggregate(Unique({}, events))
  }

  method AggregateHourly(events: seq<Event>) returns (rep: Report)
    ensures rep.buckets == Hourly(events)
    ensures Accounted(rep.buckets, rep.duplicates, |events|)
  {
    var store := new InMemoryIdempoStore();
    var uniq, dup := FilterIdempotentWith(store, events);
    var agg := Empty();
    for i := 0 to |uniq|
      invariant agg == Aggregate(uniq[..i])
    {
      assert uniq[..i + 1][..i] == uniq[..i];
      agg := Accumulate(agg, uniq[i]);
    }
    assert uniq[..|uniq|] == uniq;
    CountsConserved(uniq);
    return Report(agg, dup);
  }

  /** The body of the aggregation loop. */
  method Accumulate(agg: Buckets, ev: Event) returns (r: Buckets)
    ensures r == Add(agg, ev)
  {
    var ws := FloorHour(ev.ts);
    var we := ws + HOUR;
    var key := BucketKey(ev.tenant + "|" + ev.metric, ws);
    var count, sum, min, max := 0, 0, ev.value, ev.value;
    if key in agg.vals {
      var slot := agg.vals[key];
      count, sum := slot.count, slot.sum;
      min := if ev.value < slot.min then ev.value else slot.min;
      max := if ev.value > slot.max then ev.value else slot.max;
    }
    r := Put(agg, key, Bucket(ev.tenant, ev.metric, ws, we, count + 1, sum + ev.value, min, max));
  }

  method AggregateHourlyWithWatermark(events: seq<Event>, now: int, policy: Policy) returns (rep: ReportV2)
    ensures rep.buckets == Aggregate(Surviving(policy, Unique({}, events), now))
    ensures Accounted(rep.buckets, rep.duplicates + rep.lateDropped, |events|)
    ensures rep.lateKept == |AgedAt(Unique({}, events), now, 0, Some(policy.maxLagSec * 1_000_000))|
    ensures rep.lateDropped == if policy.dropTooLate then |AgedAt(Unique({}, events), now, policy.maxLagSec * 1_000_000, None)| else 0
  {
    var store := new InMemoryIdempoStore();
    var uniq, dup := FilterIdempotentWith(store, events);
    var agg, lateKept, lateDropped := AggregateSurviving(uniq, now, policy);
    CountsConserved(Surviving(policy, uniq, now));
    LateCounts(policy, uniq, now);
    return ReportV2(agg, dup, lateKept, lateDropped);
  }

  /** The aggregation loop with its lateness check. */
  method AggregateSurviving(uniq: seq<Event>, now: int, policy: Policy) returns (agg: Buckets, lateKept: nat, lateDropped: nat)
    ensures agg == Aggregate(Surviving(policy, uniq, now))
    ensures |Surviving(policy, uniq, now)| + lateDropped == |uniq|
    ensures lateKept == CountOf(policy, uniq, now, LateKept)
    ensures lateDropped == if policy.dropTooLate then CountOf(policy, uniq, now, LateDropped) else 0
  {
    agg, lateKept, lateDropped := Empty(), 0, 0;
    for i := 0 to |uniq|
      invariant agg == Aggregate(Surviving(policy, uniq[..i], now))
      invariant |Surviving(policy, uniq[..i], now)| + lateDropped == i
      invariant lateKept == CountOf(policy, uniq[..i], now, LateKept)
      invariant lateDropped == if policy.dropTooLate then CountOf(policy, uniq[..i], now, LateDropped) else 0
    {
      WatermarkStep(policy, uniq, i, now);
      var ev := uniq[i];
      var cls := Classify(policy, ev.ts, now);
      if cls == LateDropped && policy.dropTooLate {
        lateDropped := lateDropped + 1;
        continue;
      }
      if cls == LateKept {
        lateKept := lateKept + 1;
      }
      agg := Accumulate(agg, ev);
    }
    assert uniq[..|uniq|] == uniq;
  }

  lemma {:induction false} WatermarkStep(p: Policy, events: seq<Event>, i: nat, now: int)
    requires i < |events|
    ensures var kept, ev := Surviving(p, events[..i], now), events[i];
      && Surviving(p, events[..i + 1], now) == (if Dropped(p, ev, now) then kept else kept + [ev])
      && Aggregate(Surviving(p, events[..i + 1], now)) == if Dropped(p, ev, now) then Aggregate(kept) else Add(Aggregate(kept), ev)
    ensures forall c ::
      CountOf(p, events[..i + 1], now, c) == CountOf(p, events[..i], now, c) + (if Classify(p, events[i].ts, now) == c then 1 else 0)
  {
    assert events[..i + 1][..i] == events[..i];
    var kept := Surviving(p, events[..i], now);
    assert (kept + [events[i]])[..|kept|] == kept;
  }

  // ----- conservation

  function Counts(b: Bucket): int { b.count }

  function Sums(b: Bucket): int { b.sum }

  /** The sum of a bucket field over all buckets. */
  function Total(f: Bucket -> int, d: Buckets): int {
    Sum(FieldAt(f, d), d.keys)
  }

  function FieldAt(f: Bucket -> int, d: Buckets): BucketKey -> int {
    (k: BucketKey) => if k in d.vals then f(d.vals[k]) else 0
  }

  lemma {:induction false} AggregateIsValid(events: seq<Event>)
    ensures Valid(Aggregate(events))
  {
    if events != [] {
      AggregateIsValid(events[..|events| - 1]);
    }
  }

  /** Adding an event changes a total by what it changes in its own bucket. */
  lemma {:induction false} TotalStep(f: Bucket -> int, d: Buckets, ev: Event)
    requires Valid(d)
    ensures Total(f, Add(d, ev))
      == Total(f, d) - (if KeyOf(ev) in d.vals then f(d.vals[KeyOf(ev)]) else 0) + f(Merge(SlotOf(d.vals, KeyOf(ev)), ev))
  {
    var k, d' := KeyOf(ev), Add(d, ev);
    var g, g' := FieldAt(f, d), FieldAt(f, d');
    PutIsValid(d, k, d'.vals[k]);
    SumRemove(g', d'.keys, k);
    if k in d.vals {
      SumRemove(g, d.keys, k);
    } else {
      WithoutAbsent(d.keys, k);
      assert d'.keys[..|d'.keys| - 1] == d.keys;
    }
    WithoutElements(d.keys, k);
    SumExtensional(g, g', Without(d.keys, k));
  }

  /** No event is lost or counted twice. */
  lemma {:induction false} CountsConserved(events: seq<Event>)
    ensures Total(Counts, Aggregate(events)) == |events|
  {
    if events != [] {
      CountsConserved(events[..|events| - 1]);
      AggregateIsValid(events[..|events| - 1]);
      TotalStep(Counts, Aggregate(events[..|events| - 1]), events[|events| - 1]);
    }
  }

  function ValueOf(events: seq<Event>): nat {
    if events == [] then 0 else ValueOf(events[..|events| - 1]) + events[|events| - 1].value
  }

  /** No usage is lost or invented. */
  lemma {:induction false} SumsConserved(events: seq<Event>)
    ensures Total(Sums, Aggregate(events)) == ValueOf(events)
  {
    if events != [] {
      SumsConserved(events[..|events| - 1]);
      AggregateIsValid(events[..|events| - 1]);
      TotalStep(Sums, Aggregate(events[..|events| - 1]), events[|events| - 1]);
    }
  }

  // ----- what a bucket says about its events

  /** The events that fall into bucket `k`, in order. */
  function Of(events: seq<Event>, k: BucketKey): seq<Event> {
    if events == [] then []
    else
      var init, ev := Of(events[..|events| - 1], k), events[|events| - 1];
      if KeyOf(ev) == k then init + [ev] else init
  }

  ghost predicate Summarises(b: Bucket, events: seq<Event>) {
    && b.count == |events| > 0 && b.sum == ValueOf(events)
    && (exists i :: 0 <= i < |events| && events[i].value == b.min)
    && (exists i :: 0 <= i < |events| && events[i].value == b.max)
    && (forall i :: 0 <= i < |events| ==> b.min <= events[i].value <= b.max && b.start <= events[i].ts < b.end)
    && b.end == b.start + HOUR
    && b.tenant == events[|events| - 1].tenant && b.metric == events[|events| - 1].metric
  }

  lemma {:induction false} MergeSummarises(b: Bucket, events: seq<Event>, ev: Event)
    requires Summarises(b, events) && b.start == FloorHour(ev.ts)
    ensures Summarises(Merge(Some(b), ev), events + [ev])
  {
    var es, r := events + [ev], Merge(Some(b), ev);
    assert es[..|events|] == events;
    var i :| 0 <= i < |events| && events[i].value == b.min;
    var j :| 0 <= j < |events| && events[j].value == b.max;
    assert es[i].value == b.min && es[j].value == b.max && es[|events|].value == ev.value;
  }

  /** Each bucket is the exact summary of the events of its key; there are no other buckets. */
  lemma {:induction false} BucketsAreSummaries(events: seq<Event>, k: BucketKey)
    ensures k in Aggregate(events).vals <==> Of(events, k) != []
    ensures k in Aggregate(events).vals ==>
      Summarises(Aggregate(events).vals[k], Of(events, k)) && Aggregate(events).vals[k].start == k.hour
  {
    if events != [] {
      var init, ev := events[..|events| - 1], events[|events| - 1];
      BucketsAreSummaries(init, k);
      if KeyOf(ev) == k {
        if k in Aggregate(init).vals {
          MergeSummarises(Aggregate(init).vals[k], Of(init, k), ev);
        } else {
          assert [ev][..0] == [] && Of(events, k) == [ev] && [ev][0].value == ev.value;
        }
      }
    }
  }

  /** Tenant and metric read alike with a bar between them, and the instants fall into the same hour. */
  ghost predicate Together(a: Event, b: Event) {
    a.tenant + "|" + a.metric == b.tenant + "|" + b.metric && a.ts / 3_600_000_000 == b.ts / 3_600_000_000
  }

  ghost function CountWith(events: seq<Event>, ev: Event): nat {
    if events == [] then 0
    else CountWith(events[..|events| - 1], ev) + if Together(events[|events| - 1], ev) then 1 else 0
  }

  ghost function ValueWith(events: seq<Event>, ev: Event): nat {
    if events == [] then 0
    else ValueWith(events[..|events| - 1], ev) + if Together(events[|events| - 1], ev) then events[|events| - 1].value else 0
  }

  /** Two events share a bucket exactly when their names read alike and they fall into the same hour. */
  lemma {:induction false} SameBucketExactly(a: Event, b: Event)
    ensures KeyOf(a) == KeyOf(b)
      <==> a.tenant + "|" + a.metric == b.tenant + "|" + b.metric && a.ts / 3_600_000_000 == b.ts / 3_600_000_000
  {
    FloorIsStart(a.ts);
    FloorIsStart(b.ts);
  }

  lemma {:induction false} FloorIsStart(ts: int)
    ensures FloorHour(ts) == ts / 3_600_000_000 * 3_600_000_000 && FloorHour(ts) % 3_600_000_000 == 0
    ensures FloorHour(ts) <= ts < FloorHour(ts) + 3_600_000_000
  {}

  lemma {:induction false} OfAreTogether(events: seq<Event>, ev: Event)
    ensures var of := Of(events, KeyOf(ev));
      && |of| == CountWith(events, ev) && ValueOf(of) == ValueWith(events, ev)
      && (forall e :: e in of <==> e in events && Together(e, ev))
  {
    if events != [] {
      var init, last := events[..|events| - 1], events[|events| - 1];
      OfAreTogether(init, ev);
      SameBucketExactly(last, ev);
      assert forall e :: e in events <==> e in init || e == last;
      var of := Of(init, KeyOf(ev));
      assert (of + [last])[..|of|] == of;
    }
  }

  /** The last event of a bucket, by position. */
  lemma {:induction false} LastOf(events: seq<Event>, k: BucketKey) returns (i: nat)
    requires Of(events, k) != []
    ensures i < |events| && KeyOf(events[i]) == k && forall j :: i < j < |events| ==> KeyOf(events[j]) != k
    ensures Of(events, k)[|Of(events, k)| - 1] == events[i]
  {
    i := |events| - 1;
    if KeyOf(events[i]) != k {
      i := LastOf(events[..|events| - 1], k);
    }
  }

  /** The bucket of an event: a whole hour around it, and the exact count, sum, minimum and maximum of the events
      that belong together with it, under the names of the last of them. */
  lemma {:induction false} BucketTells(events: seq<Event>, ev: Event) returns (last: nat)
    requires ev in events
    ensures KeyOf(ev) in Aggregate(events).vals
    ensures last < |events| && Together(events[last], ev) && forall j :: last < j < |events| ==> !Together(events[j], ev)
    ensures
      var b := Aggregate(events).vals[KeyOf(ev)];
      && b.start % 3_600_000_000 == 0 && b.start <= ev.ts < b.end && b.end == b.start + 3_600_000_000
      && b.count == CountWith(events, ev) && b.sum == ValueWith(events, ev)
      && (exists e :: e in events && Together(e, ev) && e.value == b.min)
      && (exists e :: e in events && Together(e, ev) && e.value == b.max)
      && (forall e :: e in events && Together(e, ev) ==> b.min <= e.value <= b.max)
      && b.tenant == events[last].tenant && b.metric == events[last].metric
  {
    var k, of := KeyOf(ev), Of(events, KeyOf(ev));
    OfAreTogether(events, ev);
    assert Together(ev, ev) && ev in of;
    BucketsAreSummaries(events, k);
    FloorIsStart(ev.ts);
    last := LastOf(events, k);
    forall j | last <= j < |events| ensures Together(events[j], ev) <==> KeyOf(events[j]) == k {
      SameBucketExactly(events[j], ev);
    }
    var b := Aggregate(events).vals[k];
    var i :| 0 <= i < |of| && of[i].value == b.min;
    var j :| 0 <= j < |of| && of[j].value == b.max;
    assert of[i] in of && of[j] in of;
    forall e | e in events && Together(e, ev) ensures b.min <= e.value <= b.max {
      var l :| 0 <= l < |of| && of[l] == e;
    }
  }

  /** count * min <= sum <= count * max in every bucket. */
  lemma {:induction false} SummaryBounds(b: Bucket, events: seq<Event>)
    requires forall i :: 0 <= i < |events| ==> b.min <= events[i].value <= b.max
    ensures |events| * b.min <= ValueOf(events) <= |events| * b.max
  {
    if events != [] {
      var n := |events| - 1;
      SummaryBounds(b, events[..n]);
      OneMore(n, b.min);
      OneMore(n, b.max);
    }
  }

  lemma {:induction false} OneMore(n: nat, v: nat)
    ensures (n + 1) * v == n * v + v
  {}

  lemma {:induction false} BucketBounds(events: seq<Event>, k: BucketKey)
    requires k in Aggregate(events).vals
    ensures var b := Aggregate(events).vals[k]; b.count * b.min <= b.sum <= b.count * b.max
  {
    BucketsAreSummaries(events, k);
    SummaryBounds(Aggregate(events).vals[k], Of(events, k));
  }

  // ----- lateness never changes buckets when nothing is dropped

  lemma {:induction false} NothingDropped(p: Policy, events: seq<Event>, now: int)
    requires !p.dropTooLate
    ensures Surviving(p, events, now) == events
  {
    if events != [] {
      NothingDropped(p, events[..|events| - 1], now);
      assert events == events[..|events| - 1] + [events[|events| - 1]];
    }
  }

  /** With drop_too_late false both aggregations give the same buckets, at any `now`. */
  method WatermarkAgrees(events: seq<Event>, now: int, p: Policy) returns (a: Report, b: ReportV2)
    requires !p.dropTooLate
    ensures a.buckets == b.buckets == Aggregate(Unique({}, events)) && a.duplicates == b.duplicates && b.lateDropped == 0
  {
    NothingDropped(p, Unique({}, events), now);
    a := AggregateHourly(events);
    b := AggregateHourlyWithWatermark(events, now, p);
  }

  // ----- replays

  lemma {:induction false} KeysAfterAre(seen: set<string>, events: seq<Event>, k: string)
    ensures k in KeysAfter(seen, events) <==> k in seen || exists i :: 0 <= i < |events| && IdempotencyKey(events[i]) == k
  {
    if events != [] {
      var n := |events| - 1;
      KeysAfterAre(seen, events[..n], k);
      if i :| 0 <= i < |events| && IdempotencyKey(events[i]) == k {
        if i < n {
          assert events[..n][i] == events[i];
        }
      }
    }
  }

  /** Appending events whose keys have been seen keeps exactly the events kept before. */
  lemma {:induction false} ReplayInvariant(events: seq<Event>, replays: seq<Event>)
    requires forall i :: 0 <= i < |replays| ==> IdempotencyKey(replays[i]) in KeysAfter({}, events)
    ensures Unique({}, events + replays) == Unique({}, events)
    ensures KeysAfter({}, events + replays) == KeysAfter({}, events)
  {
    if replays == [] {
      assert events + replays == events;
    } else {
      var n := |replays| - 1;
      ReplayInvariant(events, replays[..n]);
      var all := events + replays;
      assert all[..|all| - 1] == events + replays[..n] && all[|all| - 1] == replays[n];
    }
  }

  /** Replays change no bucket, only the duplicate counter. */
  method ReplayChangesNothing(events: seq<Event>, replays: seq<Event>) returns (a: Report, b: Report)
    requires forall i :: 0 <= i < |replays| ==> IdempotencyKey(replays[i]) in KeysAfter({}, events)
    ensures b == a.(duplicates := a.duplicates + |replays|)
  {
    ReplayInvariant(events, replays);
    a := AggregateHourly(events);
    b := AggregateHourly(events + replays);
  }

  ghost predicate KeyDistinct(events: seq<Event>) {
    forall i, j :: 0 <= i < j < |events| ==> IdempotencyKey(events[i]) != IdempotencyKey(events[j])
  }

  lemma {:induction false} DistinctAreUnique(events: seq<Event>)
    requires KeyDistinct(events)
    ensures Unique({}, events) == events
  {
    if events != [] {
      var n := |events| - 1;
      DistinctAreUnique(events[..n]);
      KeysAfterAre({}, events[..n], IdempotencyKey(events[n]));
      assert events == events[..n] + [events[n]];
    }
  }

  // ----- order

  /** Two events that share a bucket key but not their names: "a|b" + "c" and "a" + "b|c". */
  predicate Collide(a: Event, b: Event) {
    KeyOf(a) == KeyOf(b) && (a.tenant != b.tenant || a.metric != b.metric)
  }

  ghost predicate NoCollision(events: seq<Event>) {
    forall a, b :: a in events && b in events ==> !Collide(a, b)
  }

  function Place(m: map<BucketKey, Bucket>, ev: Event): map<BucketKey, Bucket> {
    m[KeyOf(ev) := Merge(SlotOf(m, KeyOf(ev)), ev)]
  }

  lemma {:induction false} AggregateIsFold(events: seq<Event>)
    ensures Aggregate(events).vals == Fold(Place, map[], events)
  {
    if events != [] {
      AggregateIsFold(events[..|events| - 1]);
    }
  }

  lemma {:induction false} PlaceCommutes(m: map<BucketKey, Bucket>, a: Event, b: Event)
    requires !Collide(a, b)
    ensures Place(Place(m, a), b) == Place(Place(m, b), a)
  {
    if KeyOf(a) == KeyOf(b) {
      assert Place(Place(m, a), b)[KeyOf(a)] == Place(Place(m, b), a)[KeyOf(a)];
    }
  }

  lemma {:induction false} PermutationKeepsBuckets(xs: seq<Event>, ys: seq<Event>)
    requires multiset(xs) == multiset(ys) && NoCollision(xs)
    ensures Aggregate(xs).vals == Aggregate(ys).vals
  {
    forall m, a, b | a in xs && b in xs ensures Place(Place(m, a), b) == Place(Place(m, b), a) {
      PlaceCommutes(m, a, b);
    }
    FoldPermutes(Place, map[], xs, ys);
    AggregateIsFold(xs);
    AggregateIsFold(ys);
  }

  /** The event that comes last in a bucket lends it its names. */
  lemma {:induction false} LastNames(events: seq<Event>, ev: Event)
    ensures var b := Aggregate(events + [ev]).vals;
      KeyOf(ev) in b && b[KeyOf(ev)].tenant == ev.tenant && b[KeyOf(ev)].metric == ev.metric
  {
    assert (events + [ev])[..|events|] == events;
  }

  lemma {:induction false} ToTheEnd(events: seq<Event>, i: nat) returns (p: seq<Event>)
    requires i < |events|
    ensures p == events[..i] + events[i + 1..] + [events[i]] && multiset(p) == multiset(events)
  {
    p := events[..i] + events[i + 1..] + [events[i]];
    assert events == events[..i] + [events[i]] + events[i + 1..];
  }

  /** Buckets are independent of the order of events exactly when no two events collide. */
  lemma {:induction false} OrderInvariantExactly(events: seq<Event>)
    ensures (forall p :: multiset(p) == multiset(events) ==> Aggregate(p).vals == Aggregate(events).vals) <==> NoCollision(events)
  {
    if NoCollision(events) {
      forall p | multiset(p) == multiset(events) ensures Aggregate(p).vals == Aggregate(events).vals {
        PermutationKeepsBuckets(events, p);
      }
    } else {
      var a, b :| a in events && b in events && Collide(a, b);
      var i :| 0 <= i < |events| && events[i] == a;
      var j :| 0 <= j < |events| && events[j] == b;
      var p := ToTheEnd(events, i);
      var q := ToTheEnd(events, j);
      LastNames(events[..i] + events[i + 1..], a);
      LastNames(events[..j] + events[j + 1..], b);
      assert Aggregate(p).vals[KeyOf(a)] != Aggregate(q).vals[KeyOf(a)];
    }
  }

  /** Names without a bar never collide. */
  lemma {:induction false} BarFreeSplits(a: string, b: string, c: string, d: string)
    requires a + "|" + b == c + "|" + d && '|' !in a && '|' !in c
    ensures a == c && b == d
  {
    var s := a + "|" + b;
    assert s[|a|] == '|' && (c + "|" + d)[|c|] == '|';
    assert |a| == |c|;
    assert a == s[..|a|] && c == s[..|a|];
    assert b == s[|a| + 1..] && d == s[|a| + 1..];
  }

  lemma {:induction false} BarFreeTenantsNeverCollide(events: seq<Event>)
    requires forall ev :: ev in events ==> '|' !in ev.tenant
    ensures NoCollision(events)
  {
    forall a, b | a in events && b in events ensures !Collide(a, b) {
      if KeyOf(a) == KeyOf(b) {
        BarFreeSplits(a.tenant, a.metric, b.tenant, b.metric);
      }
    }
  }
}
