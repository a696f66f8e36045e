/** Replay protection of the judge endpoint: the skew check of `post_judge` composed with a
    nonce store.  The clock counts microseconds since the epoch; request timestamps are whole
    seconds, as the endpoint truncates them. */
module Replay {
  const US := 1_000_000
  const TTL_SEC := 600
  const STORE_SKEW_SEC := 120
  const ENDPOINT_SKEW := 90 * US

  /** Primary key of the SQLite table. */
  datatype NonceKey = NonceKey(keyId: string, nonce: string)

  /** The Redis key, one text for the pair. */
  function KeyText(key: NonceKey): string {
    "judge:nonce:" + key.keyId + ":" + key.nonce
  }

  /** The two stores as values: the rows of `nonce_log`, or the expiry instant of each live key. */
  datatype Store =
    | Sqlite(rows: map<NonceKey, int>)
    | Redis(expiry: map<string, nat>)

  function Abs(x: int): nat {
    if x < 0 then -x else x
  }

  /** `int(time.time())` */
  function Seconds(clock: nat): nat {
    clock / US
  }

  predicate TooFar(ts: int, now: nat) {
    Abs(Seconds(now) - ts) > STORE_SKEW_SEC + TTL_SEC
  }

  predicate WithinClockSkew(now: nat, ts: int, skew: nat) {
    Abs(now - ts * US) <= skew
  }

  function Purged(rows: map<NonceKey, int>, now: nat): map<NonceKey, int> {
    map k | k in rows && !(Seconds(now) - rows[k] > TTL_SEC) :: rows[k]
  }

  predicate Seen(st: Store, key: NonceKey, ts: int, now: nat, backendUp: bool) {
    || TooFar(ts, now)
    || match st
       case Sqlite(rows) => key in rows
       case Redis(expiry) => !backendUp || (KeyText(key) in expiry && now < expiry[KeyText(key)])
  }

  /** The store after a call that found the nonce unseen. */
  function Inserted(st: Store, key: NonceKey, ts: int, now: nat): Store {
    match st
    case Sqlite(rows) => Sqlite(Purged(rows[key := ts], now))
    case Redis(expiry) => Redis(expiry[KeyText(key) := now + TTL_SEC * US])
  }

  /** One call of the endpoint.  `checked` is the instant of the skew check and `stored` the
      instant of the store call; the booleans say how the checks over unseen code come out. */
  datatype Request = Request(
    jsonOk: bool, headersPresent: bool, tsParses: bool, signatureOk: bool,
    key: NonceKey, ts: int, checked: nat, stored: nat, backendUp: bool,
    payloadOk: bool, authorised: bool)

  datatype Response = Response(status: nat, sigError: bool)

  predicate ReachesStore(r: Request, skew: nat) {
    r.jsonOk && r.headersPresent && r.tsParses && r.signatureOk && WithinClockSkew(r.checked, r.ts, skew)
  }

  predicate Admits(st: Store, r: Request, skew: nat) {
    ReachesStore(r, skew) && !Seen(st, r.key, r.ts, r.stored, r.backendUp)
  }

  function StoreAfter(st: Store, r: Request, skew: nat): Store {
    if Admits(st, r, skew) then Inserted(st, r.key, r.ts, r.stored) else st
  }

  class SqliteReplayStore {
    var nonceLog: map<NonceKey, int>

    constructor ()
      ensures nonceLog == map[]
    {
      nonceLog := map[];
    }

    method SeenOrInsert(key: NonceKey, ts: int, now: nat) returns (seen: bool)
      modifies this
      ensures seen <==> now / 1_000_000 - ts > 720 || ts - now / 1_000_000 > 720 || key in old(nonceLog)
      ensures seen ==> nonceLog == old(nonceLog)
      ensures !seen ==>
                forall k :: k in nonceLog <==>
                            && (k == key || k in old(nonceLog))
                            && now / 1_000_000 - (if k == key then ts else old(nonceLog)[k]) <= 600
      ensures !seen ==> forall k :: k in nonceLog ==> nonceLog[k] == if k == key then ts else old(nonceLog)[k]
      ensures seen == Seen(Sqlite(old(nonceLog)), key, ts, now, true)
      ensures !seen ==> Sqlite(nonceLog) == Inserted(Sqlite(old(nonceLog)), key, ts, now)
    {
      if Abs(Seconds(now) - ts) > STORE_SKEW_SEC + TTL_SEC {
        return true;
      }
      if key in nonceLog {
        return true;
      }
      nonceLog := nonceLog[key := ts];
      nonceLog := map k | k in nonceLog && Seconds(now) - nonceLog[k] <= TTL_SEC :: nonceLog[k];
      return false;
    }
  }

  class RedisReplayStore {
    var expiry: map<string, nat>

    constructor ()
      ensures expiry == map[]
    {
      expiry := map[];
    }

    method SeenOrInsert(key: NonceKey, ts: int, now: nat, backendUp: bool) returns (seen: bool)
      modifies this
      ensures var text := "judge:nonce:" + key.keyId + ":" + key.nonce;
        && (seen <==>
            || now / 1_000_000 - ts > 720 || ts - now / 1_000_000 > 720
            || !backendUp
            || (text in old(expiry) && now < old(expiry)[text]))
        && expiry == if seen then old(expiry) else old(expiry)[text := now + 600_000_000]
      ensures seen == Seen(Redis(old(expiry)), key, ts, now, backendUp)
      ensures Redis(expiry) == if seen then Redis(old(expiry)) else Inserted(Redis(old(expiry)), key, ts, now)
    {
      if Abs(Seconds(now) - ts) > STORE_SKEW_SEC + TTL_SEC {
        return true;
      }
      var text := KeyText(key);
      if !backendUp {
        return true;  // fail closed
      }
      if text in expiry && now < expiry[text] {
        return true;
      }
      expiry := expiry[text := now + TTL_SEC * US];
      return false;
    }
  }

  class JudgeServer {
    const store: SqliteReplayStore

    constructor (store: SqliteReplayStore)
      ensures this.store == store
    {
      this.store := store;
    }

    method PostJudge(r: Request) returns (resp: Response)
      modifies store
      ensures Sqlite(store.nonceLog) == StoreAfter(Sqlite(old(store.nonceLog)), r, ENDPOINT_SKEW)
      ensures
        var wellFormed := r.jsonOk && r.headersPresent && r.tsParses;
        var passes := wellFormed && r.signatureOk && -90_000_000 <= r.checked - r.ts * 1_000_000 <= 90_000_000;
        var unseen := -720 <= r.stored / 1_000_000 - r.ts <= 720 && r.key !in old(store.nonceLog);
        && (resp.status == 200 <==> passes && unseen && r.payloadOk && r.authorised)
        && (resp.status == 403 <==> passes && unseen && r.payloadOk && !r.authorised)
        && (resp.status == 401 <==> wellFormed && !(passes && unseen))
        && (resp.sigError <==> wellFormed && (!r.signatureOk || (passes && !unseen)))
        && (!(passes && unseen) ==> store.nonceLog == old(store.nonceLog))
        && (r.key in store.nonceLog && r.key !in old(store.nonceLog) ==> passes && unseen && store.nonceLog[r.key] == r.ts)
      ensures resp.status in {200, 400, 401, 403}
    {
      if !r.jsonOk { return Response(400, false); }
      if !r.headersPresent { return Response(400, false); }
      if !r.tsParses { return Response(400, false); }
      if !r.signatureOk { return Response(401, true); }
      if !WithinClockSkew(r.checked, r.ts, ENDPOINT_SKEW) { return Response(401, false); }
      var seen := store.SeenOrInsert(r.key, r.ts, r.stored);
      if seen { return Response(401, true); }
      if !r.payloadOk { return Response(400, false); }
      if !r.authorised { return Response(403, false); }
      return Response(200, false);
    }
  }

  // ----- runs

  /** The store after serving `rs` in order, starting from the store `st`. */
  ghost function Run(st: Store, rs: seq<Request>, skew: nat): (after: Store)
    ensures after.Sqlite? == st.Sqlite?
  {
    if rs == [] then st else StoreAfter(Run(st, rs[..|rs| - 1], skew), rs[|rs| - 1], skew)
  }

  ghost predicate Accepted(st: Store, rs: seq<Request>, i: nat, skew: nat)
    requires i < |rs|
  {
    Admits(Run(st, rs[..i], skew), rs[i], skew)
  }

  /** Store calls happen in order on a monotone clock, each at most `delay` after its skew check. */
  ghost predicate Timely(rs: seq<Request>, delay: nat) {
    && (forall i, j :: 0 <= i < j < |rs| ==> rs[i].stored <= rs[j].stored)
    && (forall i :: 0 <= i < |rs| ==> rs[i].checked <= rs[i].stored <= rs[i].checked + delay)
  }

  ghost predicate SameMessage(a: Request, b: Request) {
    a.key == b.key && a.ts == b.ts
  }

  ghost predicate AcceptsTwice(st: Store, rs: seq<Request>, i: nat, j: nat, skew: nat) {
    i < j < |rs| && SameMessage(rs[i], rs[j]) && Accepted(st, rs, i, skew) && Accepted(st, rs, j, skew)
  }

  /** At-most-once acceptance over every timely run of the store `st`. */
  ghost predicate AtMostOnce(st: Store, skew: nat, delay: nat) {
    forall rs: seq<Request>, i, j :: Timely(rs, delay) ==> !AcceptsTwice(st, rs, i, j, skew)
  }

  const NoRows: Store := Sqlite(map[])
  const NoKeys: Store := Redis(map[])

  // ----- how long a store remembers

  /** A row stays until a purge happens more than TTL_SEC after the row's own timestamp. */
  lemma {:induction false} SqliteRetains(rs: seq<Request>, i: nat, j: nat, skew: nat, delay: nat)
    requires i < j <= |rs| && Timely(rs, delay) && Accepted(NoRows, rs, i, skew)
    ensures var rows := Run(NoRows, rs[..j], skew).rows;
      || (rs[i].key in rows && rows[rs[i].key] == rs[i].ts)
      || Seconds(rs[j - 1].stored) - rs[i].ts > TTL_SEC
  {
    assert rs[..j][..j - 1] == rs[..j - 1];
    if i < j - 1 {
      SqliteRetains(rs, i, j - 1, skew, delay);
      assert rs[j - 2].stored <= rs[j - 1].stored;
    }
  }

  lemma {:induction false} RedisRetains(rs: seq<Request>, i: nat, j: nat, skew: nat, delay: nat)
    requires i < j <= |rs| && Timely(rs, delay) && Accepted(NoKeys, rs, i, skew)
    ensures var live := Run(NoKeys, rs[..j], skew).expiry;
      KeyText(rs[i].key) in live && live[KeyText(rs[i].key)] >= rs[i].stored + TTL_SEC * US
  {
    assert rs[..j][..j - 1] == rs[..j - 1];
    if i < j - 1 {
      RedisRetains(rs, i, j - 1, skew, delay);
      assert rs[i].stored <= rs[j - 1].stored;
    }
  }

  /** Any two acceptances of one (key_id, nonce), whatever their timestamps, are spaced out: with
      the endpoint's 90 s skew and no delay, by 511 s with SQLite and by 600 s with Redis. */
  lemma {:induction false} SqliteSpacing(rs: seq<Request>, i: nat, j: nat, skew: nat, delay: nat)
    requires i < j < |rs| && rs[i].key == rs[j].key && Timely(rs, delay)
    requires Accepted(NoRows, rs, i, skew) && Accepted(NoRows, rs, j, skew)
    ensures rs[j].stored >= (rs[i].ts + TTL_SEC + 1) * US
    ensures rs[j].stored - rs[i].checked >= (TTL_SEC + 1) * US - skew
    ensures rs[j].stored - rs[i].stored >= (TTL_SEC + 1) * US - skew - delay
  {
    SqliteRetains(rs, i, j, skew, delay);
    assert rs[j - 1].stored <= rs[j].stored;
  }

  lemma {:induction false} RedisSpacing(rs: seq<Request>, i: nat, j: nat, skew: nat, delay: nat)
    requires i < j < |rs| && KeyText(rs[i].key) == KeyText(rs[j].key) && Timely(rs, delay)
    requires Accepted(NoKeys, rs, i, skew) && Accepted(NoKeys, rs, j, skew)
    ensures rs[j].stored - rs[i].stored >= TTL_SEC * US
  {
    RedisRetains(rs, i, j, skew, delay);
  }

  // ----- at-most-once, exactly

  function Message(key: NonceKey, ts: int, checked: nat, stored: nat): Request {
    Request(true, true, true, true, key, ts, checked, stored, true, true, true)
  }

  lemma {:induction false} RunOfPrefix(st: Store, rs: seq<Request>, k: nat, skew: nat)
    requires k < |rs|
    ensures Run(st, rs[..k + 1], skew) == StoreAfter(Run(st, rs[..k], skew), rs[k], skew)
  {
    assert rs[..k + 1][..k] == rs[..k];
  }

  /** A message, another client's message 601 s later (whose insert purges), and the first again. */
  lemma {:induction false} SqliteDoubleAccept(skew: nat, delay: nat) returns (rs: seq<Request>)
    requires skew + delay >= (TTL_SEC + 1) * US
    ensures Timely(rs, delay) && AcceptsTwice(NoRows, rs, 0, 2, skew)
  {
    var a, b := NonceKey("k1", "a"), NonceKey("k1", "b");
    var t0, t1 := 1000 * US, 1601 * US;
    var checked := if delay <= 601 * US then t1 - delay else t0;
    rs := [Message(a, 1000, t0, t0), Message(b, 1601, t1, t1), Message(a, 1000, checked, t1)];
    RunOfPrefix(NoRows, rs, 0, skew);
    RunOfPrefix(NoRows, rs, 1, skew);
    assert a != b;
  }

  lemma {:induction false} RedisDoubleAccept(skew: nat, delay: nat) returns (rs: seq<Request>)
    requires 2 * skew + delay >= TTL_SEC * US
    ensures Timely(rs, delay) && AcceptsTwice(NoKeys, rs, 0, 1, skew)
  {
    var a := NonceKey("k1", "a");
    var early := if skew <= 600 * US then skew else 600 * US;
    var t0 := 1000 * US - early;
    var t1 := t0 + 600 * US;
    var checked := if t1 <= 1000 * US + skew then t1 else 1000 * US + skew;
    rs := [Message(a, 1000, t0, t0), Message(a, 1000, checked, t1)];
    RunOfPrefix(NoKeys, rs, 0, skew);
  }

  /** The exact composition: neither the skew check nor the store suffices alone. */
  lemma {:induction false} SqliteAtMostOnceExactly(skew: nat, delay: nat)
    ensures AtMostOnce(NoRows, skew, delay) <==> skew + delay < (TTL_SEC + 1) * US
  {
    if skew + delay >= (TTL_SEC + 1) * US {
      var rs := SqliteDoubleAccept(skew, delay);
    } else {
      forall rs: seq<Request>, i, j | Timely(rs, delay) ensures !AcceptsTwice(NoRows, rs, i, j, skew) {
        if AcceptsTwice(NoRows, rs, i, j, skew) {
          SqliteSpacing(rs, i, j, skew, delay);
        }
      }
    }
  }

  lemma {:induction false} RedisAtMostOnceExactly(skew: nat, delay: nat)
    ensures AtMostOnce(NoKeys, skew, delay) <==> 2 * skew + delay < TTL_SEC * US
  {
    if 2 * skew + delay >= TTL_SEC * US {
      var rs := RedisDoubleAccept(skew, delay);
    } else {
      forall rs: seq<Request>, i, j | Timely(rs, delay) ensures !AcceptsTwice(NoKeys, rs, i, j, skew) {
        if AcceptsTwice(NoKeys, rs, i, j, skew) {
          RedisSpacing(rs, i, j, skew, delay);
        }
      }
    }
  }

  /** The deployed endpoint: safe for any delay below 511 s (SQLite) or 420 s (Redis). */
  lemma {:induction false} EndpointAtMostOnce(delay: nat)
    ensures AtMostOnce(NoRows, ENDPOINT_SKEW, delay) <==> delay < 511 * US
    ensures AtMostOnce(NoKeys, ENDPOINT_SKEW, delay) <==> delay < 420 * US
  {
    SqliteAtMostOnceExactly(ENDPOINT_SKEW, delay);
    RedisAtMostOnceExactly(ENDPOINT_SKEW, delay);
  }

  // ----- what is rejected, exactly

  /** The store files the two keys under the same entry. */
  predicate SameEntry(st: Store, a: NonceKey, b: NonceKey) {
    if st.Sqlite? then a == b else KeyText(a) == KeyText(b)
  }

  ghost predicate Remembers(st: Store, key: NonceKey) {
    match st
    case Sqlite(rows) => key in rows
    case Redis(expiry) => KeyText(key) in expiry
  }

  lemma {:induction false} OnlyAcceptedAreRemembered(st: Store, rs: seq<Request>, j: nat, key: NonceKey, skew: nat)
    returns (i: nat)
    requires st == NoRows || st == NoKeys
    requires j <= |rs| && Remembers(Run(st, rs[..j], skew), key)
    ensures i < j && SameEntry(st, rs[i].key, key) && Accepted(st, rs, i, skew)
    ensures var now := Run(st, rs[..j], skew);
      if st.Sqlite? then now.rows[key] == rs[i].ts else now.expiry[KeyText(key)] == rs[i].stored + TTL_SEC * US
  {
    RunOfPrefix(st, rs, j - 1, skew);
    var before := Run(st, rs[..j - 1], skew);
    if Accepted(st, rs, j - 1, skew) && SameEntry(st, rs[j - 1].key, key) {
      i := j - 1;
    } else {
      i := OnlyAcceptedAreRemembered(st, rs, j - 1, key, skew);
    }
  }

  /** The row of request `i` was purged before request `j`. */
  ghost predicate PurgedBetween(rs: seq<Request>, i: nat, j: nat, skew: nat)
    requires j <= |rs|
  {
    exists k :: i <= k < j && Accepted(NoRows, rs, k, skew) && rs[k].stored / 1_000_000 - rs[i].ts > 600
  }

  lemma {:induction false} RowStays(rs: seq<Request>, j: nat, key: NonceKey, skew: nat)
    requires j < |rs| && key in Run(NoRows, rs[..j], skew).rows
    requires Accepted(NoRows, rs, j, skew) ==> Seconds(rs[j].stored) - Run(NoRows, rs[..j], skew).rows[key] <= TTL_SEC
    ensures key in Run(NoRows, rs[..j + 1], skew).rows
    ensures Run(NoRows, rs[..j + 1], skew).rows[key] == Run(NoRows, rs[..j], skew).rows[key]
  {
    RunOfPrefix(NoRows, rs, j, skew);
  }

  /** The row of an accepted request is there, with its timestamp, until such a purge. */
  lemma {:induction false} SqliteKeepsUntilPurge(rs: seq<Request>, i: nat, j: nat, skew: nat)
    requires i < j <= |rs| && Accepted(NoRows, rs, i, skew) && !PurgedBetween(rs, i, j, skew)
    ensures var rows := Run(NoRows, rs[..j], skew).rows; rs[i].key in rows && rows[rs[i].key] == rs[i].ts
  {
    assert Accepted(NoRows, rs, j - 1, skew) ==> Seconds(rs[j - 1].stored) - rs[i].ts <= TTL_SEC;
    if i < j - 1 {
      SqliteKeepsUntilPurge(rs, i, j - 1, skew);
      RowStays(rs, j - 1, rs[i].key, skew);
    } else {
      RunOfPrefix(NoRows, rs, i, skew);
    }
  }

  /** A row that a call did not write was there before it. */
  lemma {:induction false} RowIsOlder(rs: seq<Request>, j: nat, key: NonceKey, skew: nat)
    requires j < |rs| && key in Run(NoRows, rs[..j + 1], skew).rows
    requires !(Accepted(NoRows, rs, j, skew) && rs[j].key == key)
    ensures key in Run(NoRows, rs[..j], skew).rows
    ensures Run(NoRows, rs[..j], skew).rows[key] == Run(NoRows, rs[..j + 1], skew).rows[key]
  {
    RunOfPrefix(NoRows, rs, j, skew);
  }

  lemma {:induction false} RowIsYoung(rs: seq<Request>, j: nat, key: NonceKey, skew: nat)
    requires j < |rs| && Accepted(NoRows, rs, j, skew) && key in Run(NoRows, rs[..j + 1], skew).rows
    ensures Seconds(rs[j].stored) - Run(NoRows, rs[..j + 1], skew).rows[key] <= TTL_SEC
  {
    RunOfPrefix(NoRows, rs, j, skew);
  }

  /** A row that is still there, and was not written again, has been there all along. */
  lemma {:induction false} RowWasThere(rs: seq<Request>, i: nat, k: nat, j: nat, skew: nat)
    requires i < k <= j <= |rs| && rs[i].key in Run(NoRows, rs[..j], skew).rows
    requires Run(NoRows, rs[..j], skew).rows[rs[i].key] == rs[i].ts
    requires forall m :: i < m < j && Accepted(NoRows, rs, m, skew) ==> rs[m].key != rs[i].key
    ensures rs[i].key in Run(NoRows, rs[..k], skew).rows && Run(NoRows, rs[..k], skew).rows[rs[i].key] == rs[i].ts
    decreases j - k
  {
    if k < j {
      RowWasThere(rs, i, k + 1, j, skew);
      RowIsOlder(rs, k, rs[i].key, skew);
    }
  }

  /** Nor has it been purged. */
  lemma {:induction false} PurgeForgets(rs: seq<Request>, i: nat, j: nat, skew: nat)
    requires i < j <= |rs| && rs[i].key in Run(NoRows, rs[..j], skew).rows
    requires Run(NoRows, rs[..j], skew).rows[rs[i].key] == rs[i].ts
    requires forall m :: i < m < j && Accepted(NoRows, rs, m, skew) ==> rs[m].key != rs[i].key
    ensures forall k :: i <= k < j && Accepted(NoRows, rs, k, skew) ==> Seconds(rs[k].stored) - rs[i].ts <= TTL_SEC
  {
    forall k | i <= k < j && Accepted(NoRows, rs, k, skew) ensures Seconds(rs[k].stored) - rs[i].ts <= TTL_SEC {
      RowWasThere(rs, i, k + 1, j, skew);
      RowIsYoung(rs, k, rs[i].key, skew);
    }
  }

  /** The endpoint over SQLite accepts a message exactly when it is well formed and signed, its timestamp is within
      90 s of the clock, and every earlier acceptance of its (key_id, nonce) has been purged since. */
  lemma {:induction false} SqliteAcceptsExactly(rs: seq<Request>, j: nat, delay: nat)
    requires j < |rs| && Timely(rs, delay) && delay < 631_000_000
    ensures Accepted(NoRows, rs, j, ENDPOINT_SKEW) <==>
      && rs[j].jsonOk && rs[j].headersPresent && rs[j].tsParses && rs[j].signatureOk
      && -90_000_000 <= rs[j].checked - rs[j].ts * 1_000_000 <= 90_000_000
      && forall i :: 0 <= i < j && rs[i].key == rs[j].key && Accepted(NoRows, rs, i, ENDPOINT_SKEW) ==>
        PurgedBetween(rs, i, j, ENDPOINT_SKEW)
  {
    var rows := Run(NoRows, rs[..j], ENDPOINT_SKEW).rows;
    if rs[j].key in rows {
      var i := LastRemembered(rs, j, rs[j].key, ENDPOINT_SKEW);
      PurgeForgets(rs, i, j, ENDPOINT_SKEW);
    } else {
      forall i | 0 <= i < j && rs[i].key == rs[j].key && Accepted(NoRows, rs, i, ENDPOINT_SKEW)
        ensures PurgedBetween(rs, i, j, ENDPOINT_SKEW)
      {
        if !PurgedBetween(rs, i, j, ENDPOINT_SKEW) {
          SqliteKeepsUntilPurge(rs, i, j, ENDPOINT_SKEW);
        }
      }
    }
  }

  lemma {:induction false} RowIsNew(rs: seq<Request>, j: nat, skew: nat)
    requires j < |rs| && Accepted(NoRows, rs, j, skew) && rs[j].key in Run(NoRows, rs[..j + 1], skew).rows
    ensures Run(NoRows, rs[..j + 1], skew).rows[rs[j].key] == rs[j].ts
  {
    RunOfPrefix(NoRows, rs, j, skew);
  }

  /** The last acceptance behind a row. */
  lemma {:induction false} LastRemembered(rs: seq<Request>, j: nat, key: NonceKey, skew: nat) returns (i: nat)
    requires j <= |rs| && key in Run(NoRows, rs[..j], skew).rows
    ensures i < j && rs[i].key == key && Accepted(NoRows, rs, i, skew) && Run(NoRows, rs[..j], skew).rows[key] == rs[i].ts
    ensures forall m :: i < m < j && Accepted(NoRows, rs, m, skew) ==> rs[m].key != key
  {
    assert j > 0;
    if Accepted(NoRows, rs, j - 1, skew) && rs[j - 1].key == key {
      i := j - 1;
      RowIsNew(rs, i, skew);
    } else {
      RowIsOlder(rs, j - 1, key, skew);
      i := LastRemembered(rs, j - 1, key, skew);
    }
  }

  /** Over Redis: exactly when no acceptance under the same text is younger than 600 s. */
  lemma {:induction false} RedisAcceptsExactly(rs: seq<Request>, j: nat, delay: nat)
    requires j < |rs| && Timely(rs, delay) && delay < 631_000_000
    ensures Accepted(NoKeys, rs, j, ENDPOINT_SKEW) <==>
      && rs[j].jsonOk && rs[j].headersPresent && rs[j].tsParses && rs[j].signatureOk && rs[j].backendUp
      && -90_000_000 <= rs[j].checked - rs[j].ts * 1_000_000 <= 90_000_000
      && forall i :: 0 <= i < j && Accepted(NoKeys, rs, i, ENDPOINT_SKEW)
                     && rs[i].key.keyId + ":" + rs[i].key.nonce == rs[j].key.keyId + ":" + rs[j].key.nonce ==>
                       rs[j].stored >= rs[i].stored + 600_000_000
  {
    forall i | 0 <= i < j
      ensures KeyText(rs[i].key) == KeyText(rs[j].key) <==> rs[i].key.keyId + ":" + rs[i].key.nonce == rs[j].key.keyId + ":" + rs[j].key.nonce
    {
      JoinedTexts(rs[i].key, rs[j].key);
      Regroup(rs[i].key);
      Regroup(rs[j].key);
    }
    if Accepted(NoKeys, rs, j, ENDPOINT_SKEW) {
      forall i | 0 <= i < j && KeyText(rs[i].key) == KeyText(rs[j].key) && Accepted(NoKeys, rs, i, ENDPOINT_SKEW)
        ensures rs[j].stored >= rs[i].stored + TTL_SEC * US
      {
        RedisSpacing(rs, i, j, ENDPOINT_SKEW, delay);
      }
    } else if ReachesStore(rs[j], ENDPOINT_SKEW) && rs[j].backendUp {
      var i := OnlyAcceptedAreRemembered(NoKeys, rs, j, rs[j].key, ENDPOINT_SKEW);
    }
  }

  lemma {:induction false} Regroup(key: NonceKey)
    ensures key.keyId + ":" + key.nonce == key.keyId + (":" + key.nonce)
  {}

  /** A message that passes signature and skew, whose entry was not accepted before in the run. */
  ghost predicate FirstUse(st: Store, rs: seq<Request>, j: nat) {
    && j < |rs| && ReachesStore(rs[j], ENDPOINT_SKEW) && rs[j].backendUp
    && forall i :: 0 <= i < j && SameEntry(st, rs[i].key, rs[j].key) ==> !Accepted(st, rs, i, ENDPOINT_SKEW)
  }

  lemma {:induction false} FirstUseAccepted(st: Store, rs: seq<Request>, j: nat, delay: nat)
    requires st == NoRows || st == NoKeys
    requires Timely(rs, delay) && delay < 631 * US && FirstUse(st, rs, j)
    ensures Accepted(st, rs, j, ENDPOINT_SKEW)
  {
    if Remembers(Run(st, rs[..j], ENDPOINT_SKEW), rs[j].key) {
      var i := OnlyAcceptedAreRemembered(st, rs, j, rs[j].key, ENDPOINT_SKEW);
    }
  }

  /** No first use is ever rejected exactly while the delay stays below 631 s: from there on the
      store's own 720 s bound bites, up to there it adds nothing. */
  lemma {:induction false} FirstUseAcceptedExactly(st: Store, delay: nat)
    requires st == NoRows || st == NoKeys
    ensures (forall rs, j :: Timely(rs, delay) && FirstUse(st, rs, j) ==> Accepted(st, rs, j, ENDPOINT_SKEW)) <==> delay < 631 * US
  {
    if delay < 631 * US {
      forall rs, j | Timely(rs, delay) && FirstUse(st, rs, j) ensures Accepted(st, rs, j, ENDPOINT_SKEW) {
        FirstUseAccepted(st, rs, j, delay);
      }
    } else {
      var rs := [Message(NonceKey("k1", "a"), 1000, 1090 * US, 1721 * US)];
      assert Timely(rs, delay) && FirstUse(st, rs, 0) && !Accepted(st, rs, 0, ENDPOINT_SKEW);
    }
  }

  // ----- one text for two keys

  /** Key id "a" with nonce "b:c", and key id "a:b" with nonce "c": Redis refuses the second pair as a
      replay of the first, though it was never used before. */
  lemma {:induction false} RedisRefusesFirstUse() returns (rs: seq<Request>)
    ensures Timely(rs, 0) && |rs| == 2 && rs[0].key != rs[1].key
    ensures ReachesStore(rs[1], ENDPOINT_SKEW) && rs[1].backendUp
    ensures !Accepted(NoKeys, rs, 1, ENDPOINT_SKEW) && Accepted(NoRows, rs, 1, ENDPOINT_SKEW)
  {
    var a, b := NonceKey("a", "b:c"), NonceKey("a:b", "c");
    rs := [Message(a, 1000, 1000 * US, 1000 * US), Message(b, 1010, 1010 * US, 1010 * US)];
    assert KeyText(a) == "judge:nonce:a:b:c" == KeyText(b);
    RunOfPrefix(NoKeys, rs, 0, ENDPOINT_SKEW);
    RunOfPrefix(NoRows, rs, 0, ENDPOINT_SKEW);
    assert a != b by {
      assert |a.keyId| != |b.keyId|;
    }
  }

  lemma {:induction false} JoinedTexts(a: NonceKey, b: NonceKey)
    ensures KeyText(a) == KeyText(b) <==> a.keyId + (":" + a.nonce) == b.keyId + (":" + b.nonce)
  {
    var prefix, s, t := "judge:nonce:", a.keyId + (":" + a.nonce), b.keyId + (":" + b.nonce);
    assert KeyText(a) == prefix + s && KeyText(b) == prefix + t;
    assert (prefix + s)[12..] == s && (prefix + t)[12..] == t;
  }

  lemma {:induction false} ShorterIsExtended(x: string, m: string, y: string, n: string)
    requires x + (":" + m) == y + (":" + n) && |x| < |y|
    ensures x + ":" <= y
  {
    var s := x + (":" + m);
    assert s[..|x| + 1] == x + ":" && s[..|y|] == y;
    assert s[..|y|][..|x| + 1] == s[..|x| + 1];
  }

  lemma {:induction false} KeyTextSplits(a: NonceKey, b: NonceKey)
    requires KeyText(a) == KeyText(b) && a != b
    ensures a.keyId + ":" <= b.keyId || b.keyId + ":" <= a.keyId
  {
    JoinedTexts(a, b);
    if |a.keyId| < |b.keyId| {
      ShorterIsExtended(a.keyId, a.nonce, b.keyId, b.nonce);
    } else if |b.keyId| < |a.keyId| {
      ShorterIsExtended(b.keyId, b.nonce, a.keyId, a.nonce);
    } else {
      SameLengthSplit(a.keyId, a.nonce, b.keyId, b.nonce);
    }
  }

  lemma {:induction false} SameLengthSplit(x: string, m: string, y: string, n: string)
    requires x + (":" + m) == y + (":" + n) && |x| == |y|
    ensures x == y && m == n
  {
    var s := x + (":" + m);
    assert s[..|x|] == x && s[..|y|] == y && s[|x| + 1..] == m && s[|y| + 1..] == n;
  }

  /** The Redis store keeps the pairs of the configured key ids apart, whatever nonces clients choose,
      exactly when no id is another one followed by a colon; colon-free ids are on the safe side. */
  lemma {:induction false} KeyIdsApartExactly(ids: set<string>)
    ensures (forall a: NonceKey, b: NonceKey :: a.keyId in ids && b.keyId in ids && KeyText(a) == KeyText(b) ==> a == b) <==>
      (forall x, y :: x in ids && y in ids ==> !(x + ":" <= y))
    ensures (forall x :: x in ids ==> ':' !in x) ==> forall x, y :: x in ids && y in ids ==> !(x + ":" <= y)
  {
    if x, y :| x in ids && y in ids && x + ":" <= y {
      var a, b := CollidingPairs(x, y);
    } else {
      forall a: NonceKey, b: NonceKey | a.keyId in ids && b.keyId in ids && KeyText(a) == KeyText(b) ensures a == b {
        if a != b {
          KeyTextSplits(a, b);
        }
      }
    }
    forall x, y | x in ids && y in ids && x + ":" <= y ensures ':' in y {
      assert y[|x|] == ':';
    }
  }

  lemma {:induction false} CollidingPairs(x: string, y: string) returns (a: NonceKey, b: NonceKey)
    requires x + ":" <= y
    ensures a.keyId == x && b.keyId == y && KeyText(a) == KeyText(b) && a != b
  {
    a, b := NonceKey(x, y[|x| + 1..] + ":" + "n"), NonceKey(y, "n");
    assert y == x + ":" + y[|x| + 1..];
    assert x + (":" + a.nonce) == y + (":" + b.nonce);
    JoinedTexts(a, b);
    assert |x| != |y|;
  }
}
