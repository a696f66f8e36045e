/** Time buckets of reason events, and paging through them by continuity token.  Instants are whole
    UTC seconds, so the ISO strings that the source sorts and compares order like the numbers. */
module BucketPaging {
  import opened Common
  import opened Dicts
  import Sorting

  datatype Row = Row(ts: int, reason: string)

  datatype TimeBucket = TimeBucket(start: int, end: int, total: nat, raw: map<string, nat>)

  /** "hour" or anything else, which the function takes as days. */
  function SizeOf(bucket: string): (size: int)
    ensures size > 0
  {
    if bucket == "hour" then 3600 else 86400
  }

  function Floor(ts: int, size: int): int
    requires size > 0
  {
    ts - ts % size
  }

  // ----- bucketing

  function CountIn(rows: seq<Row>, k: int, size: int): nat
    requires size > 0
  {
    if rows == [] then 0
    else CountIn(rows[..|rows| - 1], k, size) + if Floor(rows[|rows| - 1].ts, size) == k then 1 else 0
  }

  function Get(m: map<string, nat>, k: string): nat {
    if k in m then m[k] else 0
  }

  function RawIn(rows: seq<Row>, k: int, size: int): map<string, nat>
    requires size > 0
  {
    if rows == [] then map[]
    else
      var init, r := RawIn(rows[..|rows| - 1], k, size), rows[|rows| - 1];
      if Floor(r.ts, size) == k then init[r.reason := Get(init, r.reason) + 1] else init
  }

  /** The bucket starting at `k`, from the rows. */
  function BucketOf(rows: seq<Row>, k: int, size: int): TimeBucket
    requires size > 0
  {
    TimeBucket(k, k + size, CountIn(rows, k, size), RawIn(rows, k, size))
  }

  ghost predicate Increasing(bs: seq<TimeBucket>) {
    forall i, j :: 0 <= i < j < |bs| ==> bs[i].end < bs[j].end
  }

  /** The buckets of `rows`: one per occupied window, each counting its rows, in order of time. */
  ghost predicate BucketsOf(rows: seq<Row>, size: int, bs: seq<TimeBucket>)
    requires size > 0
  {
    && Increasing(bs)
    && (forall i :: 0 <= i < |bs| ==> bs[i] == BucketOf(rows, bs[i].start, size) && bs[i].total > 0)
    && (forall m :: 0 <= m < |rows| ==> HasBucket(bs, Floor(rows[m].ts, size)))
  }

  ghost predicate HasBucket(bs: seq<TimeBucket>, k: int) {
    exists i :: 0 <= i < |bs| && bs[i].start == k
  }

  predicate StartsBefore(a: TimeBucket, b: TimeBucket) {
    a.start <= b.start
  }

  function SortByStart(s: seq<TimeBucket>): seq<TimeBucket> {
    Sorting.Sort(StartsBefore, s)
  }

  ghost predicate StrictlyByStart(s: seq<TimeBucket>) {
    forall i, j :: 0 <= i < j < |s| ==> s[i].start < s[j].start
  }

  lemma {:induction false} SortSorts(s: seq<TimeBucket>)
    requires forall i, j :: 0 <= i < j < |s| ==> s[i].start != s[j].start
    ensures StrictlyByStart(SortByStart(s)) && forall x :: x in SortByStart(s) <==> x in s
  {
    Sorting.SortSorts(StartsBefore, s);
    var r := SortByStart(s);
    PermutationKeepsNoDup(s, r);
    forall i, j | 0 <= i < j < |r| ensures r[i].start < r[j].start {
      assert StartsBefore(r[i], r[j]);
      assert r[i] in s && r[j] in s;
    }
  }

  /** The dictionary after a number of rows. */
  ghost predicate Filled(d: Dict<int, TimeBucket>, rows: seq<Row>, size: int)
    requires size > 0
  {
    && Valid(d)
    && (forall k :: k in d.vals ==> d.vals[k] == BucketOf(rows, k, size) && d.vals[k].total > 0)
    && (forall k :: CountIn(rows, k, size) > 0 ==> k in d.vals)
  }

  method BucketizeCountsByTime(rows: seq<Row>, bucket: string) returns (result: seq<TimeBucket>)
    ensures BucketsOf(rows, SizeOf(bucket), result)
  {
    var size := SizeOf(bucket);
    var buckets: Dict<int, TimeBucket> := Empty();
    for i := 0 to |rows|
      invariant Filled(buckets, rows[..i], size)
    {
      FilledStep(buckets, rows, i, size);
      buckets := CountRow(buckets, rows[i], size);
    }
    assert rows[..|rows|] == rows;
    SortedIsBucketsOf(buckets, rows, size);
    result := SortByStart(Values(buckets));
  }

  // ----- the buckets in plain words

  /** The rows with an instant from `start` up to but not including `end`, and the given reason, if any is given. */
  ghost function RowsIn(rows: seq<Row>, start: int, end: int, reason: Option<string>): set<int> {
    set m | 0 <= m < |rows| && start <= rows[m].ts < end && (reason == None || reason == Some(rows[m].reason))
  }

  /** Whole hours, or else whole days, in order of time, that hold all rows between them and none in vain;
      each with the number of its rows and, for each reason among them, of its rows with that reason. */
  ghost predicate Windows(rows: seq<Row>, bucket: string, bs: seq<TimeBucket>) {
    && (forall i :: 0 <= i < |bs| ==> IsWindow(rows, bucket, bs[i]))
    && (forall i, j :: 0 <= i < j < |bs| ==> bs[i].end <= bs[j].start)
    && (forall m :: 0 <= m < |rows| ==> Held(bs, rows[m].ts))
  }

  ghost predicate RawTells(rows: seq<Row>, start: int, end: int, raw: map<string, nat>, reason: string) {
    && (reason in raw <==> RowsIn(rows, start, end, Some(reason)) != {})
    && (reason in raw ==> raw[reason] == |RowsIn(rows, start, end, Some(reason))|)
  }

  ghost predicate Held(bs: seq<TimeBucket>, ts: int) {
    exists i :: 0 <= i < |bs| && bs[i].start <= ts < bs[i].end
  }

  ghost predicate IsWindow(rows: seq<Row>, bucket: string, b: TimeBucket) {
    && (if bucket == "hour" then b.start % 3600 == 0 && b.end == b.start + 3600 else b.start % 86400 == 0 && b.end == b.start + 86400)
    && b.total == |RowsIn(rows, b.start, b.end, None)| > 0
    && (forall reason :: RawTells(rows, b.start, b.end, b.raw, reason))
  }

  lemma {:induction false} FloorIsStart(ts: int, bucket: string)
    ensures var size := SizeOf(bucket);
      && Floor(ts, size) <= ts < Floor(ts, size) + size
      && if bucket == "hour" then size == 3600 && Floor(ts, size) % 3600 == 0 else size == 86400 && Floor(ts, size) % 86400 == 0
  {
    if bucket == "hour" {
      assert ts - ts % 3600 == 3600 * (ts / 3600);
    } else {
      assert ts - ts % 86400 == 86400 * (ts / 86400);
    }
  }

  /** The window of an instant is the only one that holds it. */
  lemma {:induction false} WindowHolds(ts: int, k: int, bucket: string)
    requires k % SizeOf(bucket) == 0
    ensures Floor(ts, SizeOf(bucket)) == k <==> k <= ts < k + SizeOf(bucket)
  {}

  lemma {:induction false} Apart(p: int, q: int, bucket: string)
    requires p % SizeOf(bucket) == 0 && q % SizeOf(bucket) == 0 && p < q
    ensures p + SizeOf(bucket) <= q
  {}

  lemma {:induction false} RowsSnoc(rows: seq<Row>, start: int, end: int, reason: Option<string>)
    requires rows != []
    ensures var n := |rows| - 1;
      RowsIn(rows, start, end, reason)
      == RowsIn(rows[..n], start, end, reason)
         + if start <= rows[n].ts < end && (reason == None || reason == Some(rows[n].reason)) then {n} else {}
  {}

  lemma {:induction false} CountIsRows(rows: seq<Row>, k: int, bucket: string)
    requires k % SizeOf(bucket) == 0
    ensures CountIn(rows, k, SizeOf(bucket)) == |RowsIn(rows, k, k + SizeOf(bucket), None)|
  {
    var end := k + SizeOf(bucket);
    if rows == [] {
      assert RowsIn(rows, k, end, None) == {};
    } else {
      CountIsRows(rows[..|rows| - 1], k, bucket);
      RowsSnoc(rows, k, end, None);
      WindowHolds(rows[|rows| - 1].ts, k, bucket);
    }
  }

  lemma {:induction false} RawIsRows(rows: seq<Row>, k: int, bucket: string, reason: string)
    requires k % SizeOf(bucket) == 0
    ensures RawTells(rows, k, k + SizeOf(bucket), RawIn(rows, k, SizeOf(bucket)), reason)
  {
    var end := k + SizeOf(bucket);
    if rows == [] {
      assert RowsIn(rows, k, end, Some(reason)) == {};
    } else {
      RawIsRows(rows[..|rows| - 1], k, bucket, reason);
      RowsSnoc(rows, k, end, Some(reason));
      WindowHolds(rows[|rows| - 1].ts, k, bucket);
    }
  }

  lemma {:induction false} BucketIsWindow(rows: seq<Row>, k: int, bucket: string)
    requires CountIn(rows, k, SizeOf(bucket)) > 0
    ensures IsWindow(rows, bucket, BucketOf(rows, k, SizeOf(bucket)))
    ensures k % SizeOf(bucket) == 0
  {
    var m := OccupiedHasRow(rows, k, SizeOf(bucket));
    FloorIsStart(rows[m].ts, bucket);
    CountIsRows(rows, k, bucket);
    var end, raw := k + SizeOf(bucket), RawIn(rows, k, SizeOf(bucket));
    forall reason ensures RawTells(rows, k, end, raw, reason) {
      RawIsRows(rows, k, bucket, reason);
    }
  }

  lemma {:induction false} RowIsHeld(rows: seq<Row>, bucket: string, bs: seq<TimeBucket>, m: nat)
    requires BucketsOf(rows, SizeOf(bucket), bs) && m < |rows|
    ensures Held(bs, rows[m].ts)
  {
    assert HasBucket(bs, Floor(rows[m].ts, SizeOf(bucket)));
    FloorIsStart(rows[m].ts, bucket);
  }

  lemma {:induction false} BucketsAreWindows(rows: seq<Row>, bucket: string, bs: seq<TimeBucket>)
    requires BucketsOf(rows, SizeOf(bucket), bs)
    ensures Windows(rows, bucket, bs)
  {
    forall i | 0 <= i < |bs|
      ensures IsWindow(rows, bucket, bs[i]) && bs[i].start % SizeOf(bucket) == 0
    {
      BucketIsWindow(rows, bs[i].start, bucket);
    }
    forall i, j | 0 <= i < j < |bs| ensures bs[i].end <= bs[j].start {
      assert bs[i].end < bs[j].end;
      Apart(bs[i].start, bs[j].start, bucket);
    }
    forall m | 0 <= m < |rows| ensures Held(bs, rows[m].ts) {
      RowIsHeld(rows, bucket, bs, m);
    }
  }

  /** The body of the loop. */
  method CountRow(buckets: Dict<int, TimeBucket>, row: Row, size: int) returns (r: Dict<int, TimeBucket>)
    requires size > 0
    ensures r == Counted(buckets, row, size)
  {
    r := buckets;
    var bucketStart := Floor(row.ts, size);
    if bucketStart !in r.vals {
      r := Put(r, bucketStart, TimeBucket(bucketStart, bucketStart + size, 0, map[]));
    }
    var b := r.vals[bucketStart];
    var raw := b.raw[row.reason := Get(b.raw, row.reason) + 1];
    r := Put(r, bucketStart, b.(total := b.total + 1, raw := raw));
    assert r.vals == Counted(buckets, row, size).vals;
  }

  function Tally(b: TimeBucket, reason: string): TimeBucket {
    b.(total := b.total + 1, raw := b.raw[reason := Get(b.raw, reason) + 1])
  }

  function Counted(d: Dict<int, TimeBucket>, row: Row, size: int): Dict<int, TimeBucket>
    requires size > 0
  {
    var k := Floor(row.ts, size);
    Put(d, k, Tally(if k in d.vals then d.vals[k] else TimeBucket(k, k + size, 0, map[]), row.reason))
  }

  function Values(d: Dict<int, TimeBucket>): seq<TimeBucket>
    requires forall i :: 0 <= i < |d.keys| ==> d.keys[i] in d.vals
  {
    seq(|d.keys|, i requires 0 <= i < |d.keys| => d.vals[d.keys[i]])
  }

  lemma {:induction false} EmptyWindow(rows: seq<Row>, k: int, size: int)
    requires size > 0 && CountIn(rows, k, size) == 0
    ensures RawIn(rows, k, size) == map[] && forall m :: 0 <= m < |rows| ==> Floor(rows[m].ts, size) != k
  {
    if rows != [] {
      EmptyWindow(rows[..|rows| - 1], k, size);
    }
  }

  lemma {:induction false} BucketStep(rows: seq<Row>, i: nat, k: int, size: int)
    requires size > 0 && i < |rows|
    ensures BucketOf(rows[..i + 1], k, size)
      == if Floor(rows[i].ts, size) == k then Tally(BucketOf(rows[..i], k, size), rows[i].reason) else BucketOf(rows[..i], k, size)
  {
    assert rows[..i + 1][..i] == rows[..i];
  }

  /** What one row does to the dictionary. */
  lemma {:induction false} FilledStep(d: Dict<int, TimeBucket>, rows: seq<Row>, i: nat, size: int)
    requires size > 0 && i < |rows| && Filled(d, rows[..i], size)
    ensures Filled(Counted(d, rows[i], size), rows[..i + 1], size)
  {
    var k, d' := Floor(rows[i].ts, size), Counted(d, rows[i], size);
    PutIsValid(d, k, d'.vals[k]);
    if k !in d.vals {
      EmptyWindow(rows[..i], k, size);
      assert BucketOf(rows[..i], k, size) == TimeBucket(k, k + size, 0, map[]);
    }
    forall j ensures BucketOf(rows[..i + 1], j, size)
      == if k == j then Tally(BucketOf(rows[..i], j, size), rows[i].reason) else BucketOf(rows[..i], j, size)
    {
      BucketStep(rows, i, j, size);
    }
    forall j | CountIn(rows[..i + 1], j, size) > 0 ensures j in d'.vals {
      BucketStep(rows, i, j, size);
    }
  }

  lemma {:induction false} SortedIsBucketsOf(d: Dict<int, TimeBucket>, rows: seq<Row>, size: int)
    requires size > 0 && Filled(d, rows, size)
    ensures BucketsOf(rows, size, SortByStart(Values(d)))
  {
    var vs := Values(d);
    forall i | 0 <= i < |vs| ensures vs[i].start == d.keys[i] && vs[i] == BucketOf(rows, d.keys[i], size) && vs[i].total > 0 {
      assert d.keys[i] in d.keys;
    }
    SortSorts(vs);
    var bs := SortByStart(vs);
    forall i | 0 <= i < |bs| ensures bs[i] == BucketOf(rows, bs[i].start, size) && bs[i].total > 0 {
      assert bs[i] in vs;
    }
    forall m | 0 <= m < |rows| ensures HasBucket(bs, Floor(rows[m].ts, size)) {
      var k := Floor(rows[m].ts, size);
      if CountIn(rows, k, size) == 0 {
        EmptyWindow(rows, k, size);
      }
      assert k in d.keys;
      var j :| 0 <= j < |d.keys| && d.keys[j] == k;
      assert vs[j] in bs;
    }
  }

  // ----- one request

  /** The `last_end` of a token: absent, not an ISO time, or an instant. */
  datatype LastEnd = Absent | Unreadable | Instant(at: int)

  /** The continuity header: absent or empty, not decodable, or a JSON object with these fields. */
  datatype Header = NoToken | Undecodable | Token(bucketSize: Option<string>, lastEnd: LastEnd)

  datatype Page = Page(buckets: seq<TimeBucket>, hasMore: bool, token: Header)

  /** The two refusals, and the exception that reading a token's `last_end` raises. */
  datatype Failure = BadBucket | BadLimit | BadLastEnd

  function FirstAfter(all: seq<TimeBucket>, lastEnd: int, i: nat): (r: nat)
    requires i <= |all|
    ensures r <= |all|
    decreases |all| - i
  {
    if i == |all| || all[i].end > lastEnd then i else FirstAfter(all, lastEnd, i + 1)
  }

  /** A token for another bucket size, or one that does not decode, starts over. */
  function Offset(all: seq<TimeBucket>, bucket: string, h: Header): (r: nat)
    ensures r <= |all|
  {
    if h.Token? && h.bucketSize == Some(bucket) && h.lastEnd.Instant? then FirstAfter(all, h.lastEnd.at, 0) else 0
  }

  predicate Raises(bucket: string, h: Header) {
    h.Token? && h.bucketSize == Some(bucket) && h.lastEnd.Unreadable?
  }

  function Slice(all: seq<TimeBucket>, offset: nat, limit: nat): seq<TimeBucket> {
    if offset >= |all| then [] else if offset + limit <= |all| then all[offset..offset + limit] else all[offset..]
  }

  function PageAt(all: seq<TimeBucket>, bucket: string, limit: nat, offset: nat): Page {
    var page := Slice(all, offset, limit);
    Page(page, offset + limit < |all|, if page == [] then NoToken else Token(Some(bucket), Instant(page[|page| - 1].end)))
  }

  method FindOffset(allBuckets: seq<TimeBucket>, bucket: string, h: Header) returns (r: Result<nat, Failure>)
    ensures r == if Raises(bucket, h) then Err(BadLastEnd) else Ok(Offset(allBuckets, bucket, h))
    ensures r.Err? <==> h.Token? && h.bucketSize == Some(bucket) && h.lastEnd == Unreadable
    ensures r.Ok? ==> Resumes(allBuckets, bucket, h, r.value)
  {
    var offsetIdx: nat := 0;
    if h.Token? && h.bucketSize == Some(bucket) && !h.lastEnd.Absent? {
      if h.lastEnd.Unreadable? {
        return Err(BadLastEnd);
      }
      while offsetIdx < |allBuckets| && allBuckets[offsetIdx].end <= h.lastEnd.at
        invariant offsetIdx <= |allBuckets|
        invariant forall i :: 0 <= i < offsetIdx ==> allBuckets[i].end <= h.lastEnd.at
        invariant FirstAfter(allBuckets, h.lastEnd.at, 0) == FirstAfter(allBuckets, h.lastEnd.at, offsetIdx)
      {
        offsetIdx := offsetIdx + 1;
      }
    }
    return Ok(offsetIdx);
  }

  /** `k` is the first bucket that ends after the instant of a token for this bucket size, or zero for any other header. */
  ghost predicate Resumes(all: seq<TimeBucket>, bucket: string, h: Header, k: nat) {
    if h.Token? && h.bucketSize == Some(bucket) && h.lastEnd.Instant? then
      && k <= |all|
      && (forall i :: 0 <= i < k ==> all[i].end <= h.lastEnd.at)
      && (k < |all| ==> all[k].end > h.lastEnd.at)
    else k == 0
  }

  /** At most `limit` buckets from `k` on, whether more follow, and the end of the last of them as token. */
  ghost predicate IsPage(all: seq<TimeBucket>, bucket: string, limit: int, k: nat, page: Page) {
    && k <= |all| && limit >= 1
    && page.buckets == (if k + limit < |all| then all[k..k + limit] else all[k..])
    && (page.hasMore <==> k + limit < |all|)
    && page.token == if page.buckets == [] then NoToken else Token(Some(bucket), Instant(page.buckets[|page.buckets| - 1].end))
  }

  lemma {:induction false} PageAtIsPage(all: seq<TimeBucket>, bucket: string, limit: nat, k: nat)
    requires k <= |all| && limit >= 1
    ensures IsPage(all, bucket, limit, k, PageAt(all, bucket, limit, k))
  {}

  method GetPage(rows: seq<Row>, bucket: string, limit: int, h: Header)
    returns (r: Result<Page, Failure>, ghost all: seq<TimeBucket>)
    ensures r.Err? <==>
            || (bucket != "hour" && bucket != "day") || limit < 1 || limit > 1000
            || (h.Token? && h.bucketSize == Some(bucket) && h.lastEnd == Unreadable)
    ensures r.Err? ==>
      r.error == if bucket != "hour" && bucket != "day" then BadBucket else if limit < 1 || limit > 1000 then BadLimit else BadLastEnd
    ensures r.Ok? ==> BucketsOf(rows, SizeOf(bucket), all)
    ensures r.Ok? ==>
              exists k: nat :: Resumes(all, bucket, h, k) && IsPage(all, bucket, limit, k, r.value)
    ensures r.Ok? ==> r.value == PageAt(all, bucket, limit, Offset(all, bucket, h))
  {
    all := [];
    if bucket != "hour" && bucket != "day" {
      return Err(BadBucket), all;
    }
    if limit < 1 || limit > 1000 {
      return Err(BadLimit), all;
    }
    var allBuckets := BucketizeCountsByTime(rows, bucket);
    all := allBuckets;
    var offset := FindOffset(allBuckets, bucket, h);
    if offset.Err? {
      return Err(offset.error), all;
    }
    var offsetIdx := offset.value;
    var page := Slice(allBuckets, offsetIdx, limit);
    var hasMore := offsetIdx + limit < |allBuckets|;
    var token := NoToken;
    if page != [] {
      token := Token(Some(bucket), Instant(page[|page| - 1].end));
    }
    PageAtIsPage(allBuckets, bucket, limit, offsetIdx);
    return Ok(Page(page, hasMore, token)), all;
  }

  // ----- following the token

  /** A page's token leads to the bucket right after the page. */
  lemma {:induction false} TokenResumes(all: seq<TimeBucket>, bucket: string, limit: nat, offset: nat)
    requires Increasing(all) && limit >= 1 && offset + limit < |all|
    ensures Offset(all, bucket, PageAt(all, bucket, limit, offset).token) == offset + limit
  {
    FirstAfterIs(all, all[offset + limit - 1].end, 0, offset + limit);
  }

  lemma {:induction false} FirstAfterIs(all: seq<TimeBucket>, lastEnd: int, i: nat, k: nat)
    requires Increasing(all) && i <= k < |all| && all[k].end > lastEnd
    requires k > 0 ==> all[k - 1].end == lastEnd
    ensures FirstAfter(all, lastEnd, i) == k
    decreases k - i
  {
    if i < k {
      assert all[i].end <= all[k - 1].end;
      FirstAfterIs(all, lastEnd, i + 1, k);
    }
  }

  /** The pages a client gets by following tokens from the header `h`. */
  ghost function Follow(all: seq<TimeBucket>, bucket: string, limit: nat, h: Header): seq<Page>
    requires Increasing(all) && limit >= 1
    decreases |all| - Offset(all, bucket, h)
  {
    var offset := Offset(all, bucket, h);
    var page := PageAt(all, bucket, limit, offset);
    if page.hasMore then
      TokenResumes(all, bucket, limit, offset);
      [page] + Follow(all, bucket, limit, page.token)
    else [page]
  }

  function Concat(pages: seq<Page>): seq<TimeBucket> {
    if pages == [] then [] else pages[0].buckets + Concat(pages[1..])
  }

  /** Pages needed for `n` buckets; an empty list still takes one request. */
  function PageCount(n: nat, limit: nat): nat
    requires limit >= 1
  {
    if n <= limit then 1 else 1 + PageCount(n - limit, limit)
  }

  /** For n >= 1 that is n / limit rounded up. */
  lemma {:induction false} PageCountIsCeiling(n: nat, limit: nat)
    requires limit >= 1 && n >= 1
    ensures (PageCount(n, limit) - 1) * limit < n <= PageCount(n, limit) * limit
  {
    if n > limit {
      PageCountIsCeiling(n - limit, limit);
      Distribute(PageCount(n - limit, limit), limit);
    }
  }

  lemma {:induction false} Distribute(c: int, d: int)
    ensures (c + 1) * d == c * d + d && (c - 1) * d == c * d - d
  {}

  lemma {:induction false} FollowFrom(all: seq<TimeBucket>, bucket: string, limit: nat, h: Header)
    requires Increasing(all) && limit >= 1
    ensures var offset, pages := Offset(all, bucket, h), Follow(all, bucket, limit, h);
      && Concat(pages) == all[offset..]
      && |pages| == PageCount(|all| - offset, limit)
      && AllButLast(pages, limit)
    decreases |all| - Offset(all, bucket, h)
  {
    var offset := Offset(all, bucket, h);
    var page := PageAt(all, bucket, limit, offset);
    if page.hasMore {
      TokenResumes(all, bucket, limit, offset);
      var rest := Follow(all, bucket, limit, page.token);
      FollowFrom(all, bucket, limit, page.token);
      PrependPage(page, rest, limit);
      SplitAt(all, offset, limit);
      assert Follow(all, bucket, limit, h) == [page] + rest;
    } else {
      OnePage(page, limit);
      assert Follow(all, bucket, limit, h) == [page];
    }
  }

  lemma {:induction false} SplitAt(all: seq<TimeBucket>, offset: nat, limit: nat)
    requires offset + limit <= |all|
    ensures all[offset..] == all[offset..offset + limit] + all[offset + limit..]
  {}

  lemma {:induction false} OnePage(page: Page, limit: nat)
    requires !page.hasMore
    ensures Concat([page]) == page.buckets && AllButLast([page], limit)
  {
    assert [page][1..] == [];
  }

  /** has_more is set, and the page full, on all pages but the last. */
  ghost predicate AllButLast(pages: seq<Page>, limit: nat) {
    forall i :: 0 <= i < |pages| ==>
      (pages[i].hasMore <==> i < |pages| - 1) && (pages[i].hasMore ==> |pages[i].buckets| == limit)
  }

  lemma {:induction false} PrependPage(page: Page, rest: seq<Page>, limit: nat)
    requires page.hasMore && |page.buckets| == limit && rest != [] && AllButLast(rest, limit)
    ensures AllButLast([page] + rest, limit) && Concat([page] + rest) == page.buckets + Concat(rest)
  {
    assert ([page] + rest)[1..] == rest;
  }

  /** From the first request on, the pages are the whole bucket list, each bucket once and in order,
      in ceil(n / limit) pages, full but for the last, with has_more set on all but the last. */
  lemma {:induction false} PagesCoverBuckets(rows: seq<Row>, bucket: string, all: seq<TimeBucket>, limit: nat)
    requires BucketsOf(rows, SizeOf(bucket), all) && limit >= 1
    ensures var pages := Follow(all, bucket, limit, NoToken);
      Concat(pages) == all && |pages| == PageCount(|all|, limit) && AllButLast(pages, limit)
  {
    FollowFrom(all, bucket, limit, NoToken);
    assert all[0..] == all;
  }

  // ----- successive requests over the same rows

  /** A bucket with a positive total has a row. */
  lemma {:induction false} OccupiedHasRow(rows: seq<Row>, k: int, size: int) returns (m: nat)
    requires size > 0 && CountIn(rows, k, size) > 0
    ensures m < |rows| && Floor(rows[m].ts, size) == k
  {
    m := |rows| - 1;
    if Floor(rows[m].ts, size) != k {
      m := OccupiedHasRow(rows[..m], k, size);
    }
  }

  lemma {:induction false} SameStarts(rows: seq<Row>, size: int, a: seq<TimeBucket>, b: seq<TimeBucket>, k: int)
    requires size > 0 && BucketsOf(rows, size, a) && BucketsOf(rows, size, b) && HasBucket(a, k)
    ensures HasBucket(b, k)
  {
    var i :| 0 <= i < |a| && a[i].start == k;
    var m := OccupiedHasRow(rows, k, size);
    assert HasBucket(b, Floor(rows[m].ts, size));
  }

  /** An ascending list of buckets is determined by which buckets it has. */
  lemma {:induction false} AscendingUnique(a: seq<TimeBucket>, b: seq<TimeBucket>)
    requires StrictlyByStart(a) && StrictlyByStart(b)
    requires forall k :: HasBucket(a, k) <==> HasBucket(b, k)
    requires forall i, j :: 0 <= i < |a| && 0 <= j < |b| && a[i].start == b[j].start ==> a[i] == b[j]
    ensures a == b
    decreases |a|
  {
    if a == [] {
      assert b != [] ==> HasBucket(b, b[0].start);
    } else {
      var m := |a| - 1;
      assert HasBucket(a, a[m].start);
      var n := |b| - 1;
      assert HasBucket(b, b[n].start);
      LastStartsAgree(a, b);
      forall k ensures HasBucket(a[..m], k) <==> HasBucket(b[..n], k) {
        InitBuckets(a, k);
        InitBuckets(b, k);
      }
      AscendingUnique(a[..m], b[..n]);
      assert a == a[..m] + [a[m]] && b == b[..n] + [b[n]];
    }
  }

  lemma {:induction false} LastStartsAgree(a: seq<TimeBucket>, b: seq<TimeBucket>)
    requires StrictlyByStart(a) && StrictlyByStart(b) && a != [] && b != []
    requires forall k :: HasBucket(a, k) <==> HasBucket(b, k)
    ensures a[|a| - 1].start == b[|b| - 1].start
  {
    var x, y := a[|a| - 1].start, b[|b| - 1].start;
    assert HasBucket(a, x) && HasBucket(b, y);
    var i :| 0 <= i < |b| && b[i].start == x;
    var j :| 0 <= j < |a| && a[j].start == y;
  }

  lemma {:induction false} InitBuckets(a: seq<TimeBucket>, k: int)
    requires StrictlyByStart(a) && a != []
    ensures HasBucket(a[..|a| - 1], k) <==> HasBucket(a, k) && k != a[|a| - 1].start
  {
    var init := a[..|a| - 1];
    if i :| 0 <= i < |init| && init[i].start == k {
      assert a[i].start == k;
    }
    if i :| 0 <= i < |a| && a[i].start == k && k != a[|a| - 1].start {
      assert init[i].start == k;
    }
  }

  /** The rows determine their buckets, so every request over the same rows pages through one list. */
  lemma {:induction false} BucketsAreUnique(rows: seq<Row>, size: int, a: seq<TimeBucket>, b: seq<TimeBucket>)
    requires size > 0 && BucketsOf(rows, size, a) && BucketsOf(rows, size, b)
    ensures a == b
  {
    forall k ensures HasBucket(a, k) <==> HasBucket(b, k) {
      if HasBucket(a, k) {
        SameStarts(rows, size, a, b, k);
      }
      if HasBucket(b, k) {
        SameStarts(rows, size, b, a, k);
      }
    }
    ByStart(rows, size, a);
    ByStart(rows, size, b);
    AscendingUnique(a, b);
  }

  lemma {:induction false} ByStart(rows: seq<Row>, size: int, a: seq<TimeBucket>)
    requires size > 0 && BucketsOf(rows, size, a)
    ensures StrictlyByStart(a)
  {
    forall i, j | 0 <= i < j < |a| ensures a[i].start < a[j].start {
      assert a[i].end < a[j].end;
    }
  }

  /** One more page, and where the next one starts. */
  lemma {:induction false} FollowStep(all: seq<TimeBucket>, bucket: string, limit: nat, h: Header)
    requires Increasing(all) && limit >= 1
    ensures
      var offset := Offset(all, bucket, h);
      var page := PageAt(all, bucket, limit, offset);
      && Follow(all, bucket, limit, h) == [page] + (if page.hasMore then Follow(all, bucket, limit, page.token) else [])
      && (page.hasMore ==> page.token.Token? && !Raises(bucket, page.token) && offset < Offset(all, bucket, page.token))
  {
    var offset := Offset(all, bucket, h);
    if PageAt(all, bucket, limit, offset).hasMore {
      TokenResumes(all, bucket, limit, offset);
    }
  }

  lemma {:induction false} OneMore(pages: seq<Page>, page: Page, rest: seq<Page>)
    ensures pages + [page] + rest == pages + ([page] + rest)
  {}

  /** A client that requests pages, passing on each page's token, while has_more is set. */
  method ReadAll(rows: seq<Row>, bucket: string, limit: int) returns (pages: seq<Page>)
    requires (bucket == "hour" || bucket == "day") && 1 <= limit <= 1000
    ensures BucketsOf(rows, SizeOf(bucket), Concat(pages))
    ensures |pages| == PageCount(|Concat(pages)|, limit) && AllButLast(pages, limit)
  {
    var r, all := GetPage(rows, bucket, limit, NoToken);
    pages := [r.value];
    FollowStep(all, bucket, limit, NoToken);
    ghost var whole := Follow(all, bucket, limit, NoToken);
    while r.value.hasMore
      invariant r.Ok? && BucketsOf(rows, SizeOf(bucket), all)
      invariant r.value.hasMore ==> r.value.token.Token? && !Raises(bucket, r.value.token)
      invariant pages + (if r.value.hasMore then Follow(all, bucket, limit, r.value.token) else []) == whole
      decreases r.value.hasMore, |all| - Offset(all, bucket, r.value.token)
    {
      FollowStep(all, bucket, limit, r.value.token);
      ghost var again;
      r, again := GetPage(rows, bucket, limit, r.value.token);
      BucketsAreUnique(rows, SizeOf(bucket), again, all);
      OneMore(pages, r.value, if r.value.hasMore then Follow(all, bucket, limit, r.value.token) else []);
      pages := pages + [r.value];
    }
    assert pages == whole;
    PagesCoverBuckets(rows, bucket, all, limit);
  }

  // ----- no row is lost

  function TotalOf(bs: seq<TimeBucket>): nat {
    if bs == [] then 0 else TotalOf(bs[..|bs| - 1]) + bs[|bs| - 1].total
  }

  function CountsAt(rows: seq<Row>, size: int, bs: seq<TimeBucket>): nat
    requires size > 0
  {
    if bs == [] then 0 else CountsAt(rows, size, bs[..|bs| - 1]) + CountIn(rows, bs[|bs| - 1].start, size)
  }

  lemma {:induction false} CountsAtStep(rows: seq<Row>, size: int, bs: seq<TimeBucket>, i: int)
    requires size > 0 && rows != [] && StrictlyByStart(bs)
    requires -1 <= i < |bs| && forall j :: 0 <= j < |bs| ==> (bs[j].start == Floor(rows[|rows| - 1].ts, size) <==> j == i)
    ensures CountsAt(rows, size, bs) == CountsAt(rows[..|rows| - 1], size, bs) + if i >= 0 then 1 else 0
    decreases |bs|
  {
    if bs != [] {
      var n := |bs| - 1;
      CountsAtStep(rows, size, bs[..n], if i == n then -1 else i);
    }
  }

  lemma {:induction false} CountsAtRows(rows: seq<Row>, size: int, bs: seq<TimeBucket>)
    requires size > 0 && StrictlyByStart(bs)
    requires forall m :: 0 <= m < |rows| ==> HasBucket(bs, Floor(rows[m].ts, size))
    ensures CountsAt(rows, size, bs) == |rows|
  {
    if rows == [] {
      NoCounts(size, bs);
    } else {
      CountsAtRows(rows[..|rows| - 1], size, bs);
      var r := rows[|rows| - 1];
      assert HasBucket(bs, Floor(r.ts, size));
      var i :| 0 <= i < |bs| && bs[i].start == Floor(r.ts, size);
      CountsAtStep(rows, size, bs, i);
    }
  }

  lemma {:induction false} NoCounts(size: int, bs: seq<TimeBucket>)
    requires size > 0
    ensures CountsAt([], size, bs) == 0
  {
    if bs != [] {
      NoCounts(size, bs[..|bs| - 1]);
    }
  }

  lemma {:induction false} TotalIsCounts(rows: seq<Row>, size: int, bs: seq<TimeBucket>)
    requires size > 0 && forall i :: 0 <= i < |bs| ==> bs[i].total == CountIn(rows, bs[i].start, size)
    ensures TotalOf(bs) == CountsAt(rows, size, bs)
  {
    if bs != [] {
      TotalIsCounts(rows, size, bs[..|bs| - 1]);
    }
  }

  /** The bucket totals add up to the number of rows. */
  lemma {:induction false} TotalsConserveRows(rows: seq<Row>, size: int, bs: seq<TimeBucket>)
    requires size > 0 && BucketsOf(rows, size, bs)
    ensures TotalOf(bs) == |rows|
  {
    ByStart(rows, size, bs);
    TotalIsCounts(rows, size, bs);
    CountsAtRows(rows, size, bs);
  }
}
