/** The two request limiters of apps/common/rl.py: per-scope token buckets kept in memory, or in a
    Redis hash whose key expires after 120 idle seconds and then restarts full. */
module RateLimiters {
  import opened Common
  import TB = TokenBuckets

  const KEY_TTL := 120.0

  datatype Entry = Entry(tokens: real, ts: real)
  type State = map<string, Entry>
  datatype Backend = Memory | Redis
  datatype Config = Config(refill: real, cap: real)

  function CapOf(burst: int): real {
    if burst < 1 then 1.0 else burst as real
  }

  /** The stored entry; Redis forgets a key once its time to live is over. */
  function Lookup(kind: Backend, st: State, scope: string, now: real): Option<Entry> {
    if scope in st && (kind.Redis? ==> now < st[scope].ts + KEY_TTL) then Some(st[scope]) else None
  }

  function Elapsed(kind: Backend, ts: real, now: real): real {
    if kind.Redis? && now < ts then 0.0 else now - ts
  }

  function Level(kind: Backend, cfg: Config, st: State, scope: string, now: real): real {
    match Lookup(kind, st, scope, now)
    case None => cfg.cap
    case Some(e) => TB.Min(cfg.cap, e.tokens + TB.Earned(Elapsed(kind, e.ts, now), cfg.refill))
  }

  function Left(level: real): real {
    if level >= 1.0 then level - 1.0 else level
  }

  function Next(kind: Backend, cfg: Config, st: State, scope: string, now: real): State {
    st[scope := Entry(Left(Level(kind, cfg, st, scope, now)), now)]
  }

  /** The stored tokens and what `elapsed` seconds add to them, up to the cap. */
  ghost function Grown(cfg: Config, e: Entry, elapsed: real): real {
    var tokens := e.tokens + elapsed * cfg.refill;
    if tokens > cfg.cap then cfg.cap else tokens
  }

  lemma {:induction false} GrownIsLevel(kind: Backend, cfg: Config, st: State, scope: string, now: real)
    ensures Level(kind, cfg, st, scope, now)
         == if scope !in st || (kind == Redis && now >= st[scope].ts + 120.0) then cfg.cap
            else Grown(cfg, st[scope], if kind == Redis && now < st[scope].ts then 0.0 else now - st[scope].ts)
  {}

  class InMemoryRateLimiter {
    const cfg: Config
    var state: State

    constructor (refill: real, burst: int)
      ensures cfg == Config(refill, if burst < 1 then 1.0 else burst as real) && state == map[]
    {
      cfg := Config(refill, CapOf(burst));
      state := map[];
    }

    method Allow(scope: string, now: real) returns (allowed: bool, remaining: real)
      modifies this
      ensures
        var level := if scope in old(state) then Grown(cfg, old(state)[scope], now - old(state)[scope].ts) else cfg.cap;
        && (allowed <==> level >= 1.0)
        && state == old(state)[scope := Entry(if allowed then level - 1.0 else level, now)]
      ensures allowed <==> Level(Memory, cfg, old(state), scope, now) >= 1.0
      ensures state == Next(Memory, cfg, old(state), scope, now)
      ensures remaining == if state[scope].tokens < 0.0 then 0.0 else state[scope].tokens
    {
      NothingEarnedAtOnce(cfg.refill);
      GrownIsLevel(Memory, cfg, state, scope, now);
      var tokens, ts := cfg.cap, now;
      if scope in state {
        tokens, ts := state[scope].tokens, state[scope].ts;
      }
      tokens := TB.Min(cfg.cap, tokens + TB.Earned(now - ts, cfg.refill));
      allowed := tokens >= 1.0;
      if allowed {
        tokens := tokens - 1.0;
      }
      state := state[scope := Entry(tokens, now)];
      remaining := if tokens >= 0.0 then tokens else 0.0;
    }
  }

  /** Towards zero. */
  function Truncated(x: real): int {
    if x >= 0.0 then x.Floor else -(-x).Floor
  }

  class RedisRateLimiter {
    const cfg: Config
    var hash: State

    constructor (refill: real, burst: int)
      ensures cfg == Config(refill, if burst < 1 then 1.0 else burst as real) && hash == map[]
    {
      cfg := Config(refill, CapOf(burst));
      hash := map[];
    }

    /** The Lua script, with the expiry of the key taken at the instant of the call.  Redis turns the
        numbers of the reply into integers. */
    method Allow(scope: string, now: real) returns (allowed: bool, remaining: real)
      modifies this
      ensures
        var alive := scope in old(hash) && now < old(hash)[scope].ts + 120.0;
        var level := if !alive then cfg.cap
                     else Grown(cfg, old(hash)[scope], if now < old(hash)[scope].ts then 0.0 else now - old(hash)[scope].ts);
        && (allowed <==> level >= 1.0)
        && hash == old(hash)[scope := Entry(if allowed then level - 1.0 else level, now)]
      ensures
        var tokens := hash[scope].tokens;
        && remaining == remaining.Floor as real
        && if tokens >= 0.0 then remaining <= tokens < remaining + 1.0 else remaining - 1.0 < tokens <= remaining
      ensures allowed <==> Level(Redis, cfg, old(hash), scope, now) >= 1.0
      ensures hash == Next(Redis, cfg, old(hash), scope, now)
    {
      NothingEarnedAtOnce(cfg.refill);
      GrownIsLevel(Redis, cfg, hash, scope, now);
      var tokens, ts := cfg.cap, now;
      if scope in hash && now < hash[scope].ts + KEY_TTL {
        tokens, ts := hash[scope].tokens, hash[scope].ts;
      }
      var delta := if now - ts < 0.0 then 0.0 else now - ts;
      tokens := TB.Min(cfg.cap, tokens + TB.Earned(delta, cfg.refill));
      allowed := false;
      if tokens >= 1.0 {
        tokens := tokens - 1.0;
        allowed := true;
      }
      hash := hash[scope := Entry(tokens, now)];
      remaining := Truncated(tokens) as real;
    }
  }

  // ----- runs

  datatype Call = Call(scope: string, now: real)

  function After(kind: Backend, cfg: Config, calls: seq<Call>): State {
    if calls == [] then map[]
    else
      var c := calls[|calls| - 1];
      Next(kind, cfg, After(kind, cfg, calls[..|calls| - 1]), c.scope, c.now)
  }

  predicate Allowed(kind: Backend, cfg: Config, calls: seq<Call>, i: nat)
    requires i < |calls|
  {
    Level(kind, cfg, After(kind, cfg, calls[..i]), calls[i].scope, calls[i].now) >= 1.0
  }

  ghost predicate Ordered(calls: seq<Call>) {
    forall i, j :: 0 <= i < j < |calls| ==> calls[i].now <= calls[j].now
  }

  ghost predicate SameDecisions(cfg: Config, calls: seq<Call>) {
    forall i :: 0 <= i < |calls| ==> Allowed(Memory, cfg, calls, i) == Allowed(Redis, cfg, calls, i)
  }

  // ----- the two back ends agree exactly when an idle key would have refilled by expiry

  ghost predicate Sane(cfg: Config, st: State, now: real) {
    forall s :: s in st ==> 0.0 <= st[s].tokens <= cfg.cap && st[s].ts <= now
  }

  lemma {:induction false} ProductGrows(a: real, b: real, r: real)
    requires a <= b && r >= 0.0
    ensures TB.Earned(a, r) <= TB.Earned(b, r)
  {}

  lemma {:induction false} NothingEarnedAtOnce(r: real)
    ensures TB.Earned(0.0, r) == 0.0
  {}

  lemma {:induction false} LevelInRange(kind: Backend, cfg: Config, st: State, scope: string, now: real)
    requires Sane(cfg, st, now) && cfg.refill >= 0.0 && cfg.cap >= 0.0
    ensures 0.0 <= Level(kind, cfg, st, scope, now) <= cfg.cap
  {
    if scope in st {
      NothingEarnedAtOnce(cfg.refill);
      ProductGrows(0.0, now - st[scope].ts, cfg.refill);
    }
  }

  lemma {:induction false} SameLevel(cfg: Config, st: State, scope: string, now: real)
    requires Sane(cfg, st, now) && cfg.refill >= 0.0 && KEY_TTL * cfg.refill >= cfg.cap
    ensures Level(Memory, cfg, st, scope, now) == Level(Redis, cfg, st, scope, now)
  {
    if scope in st && now >= st[scope].ts + KEY_TTL {
      ProductGrows(KEY_TTL, now - st[scope].ts, cfg.refill);
    }
  }

  lemma {:induction false} SameState(cfg: Config, calls: seq<Call>, now: real)
    requires Ordered(calls) && cfg.refill >= 0.0 && cfg.cap >= 0.0 && KEY_TTL * cfg.refill >= cfg.cap
    requires forall c :: c in calls ==> c.now <= now
    ensures After(Memory, cfg, calls) == After(Redis, cfg, calls) && Sane(cfg, After(Memory, cfg, calls), now)
  {
    if calls != [] {
      var init, c := calls[..|calls| - 1], calls[|calls| - 1];
      SameState(cfg, init, c.now);
      SameLevel(cfg, After(Memory, cfg, init), c.scope, c.now);
      LevelInRange(Memory, cfg, After(Memory, cfg, init), c.scope, c.now);
    }
  }

  /** Drain one scope with `n` calls at 0 s, then call again at 120 s. */
  function Trial(n: nat, m: nat): seq<Call> {
    seq(m, i => Call("s", if i < n then 0.0 else KEY_TTL))
  }

  lemma {:induction false} TrialExtends(n: nat, m: nat)
    requires m > 0
    ensures Trial(n, m)[..m - 1] == Trial(n, m - 1)
  {}

  lemma {:induction false} Drained(kind: Backend, cfg: Config, n: nat, m: nat)
    requires cfg.cap == n as real && 0 < m <= n
    ensures After(kind, cfg, Trial(n, m)) == map["s" := Entry((n - m) as real, 0.0)]
  {
    TrialExtends(n, m);
    if m > 1 {
      Drained(kind, cfg, n, m - 1);
    }
  }

  lemma {:induction false} RestartsFull(cfg: Config, n: nat, m: nat)
    requires cfg.cap == n as real && n <= m < 2 * n
    ensures Level(Redis, cfg, After(Redis, cfg, Trial(n, m)), "s", KEY_TTL) == (2 * n - m) as real
    decreases m
  {
    if m == n {
      Drained(Redis, cfg, n, n);
    } else {
      TrialExtends(n, m);
      RestartsFull(cfg, n, m - 1);
    }
  }

  lemma {:induction false} RefillsPartly(cfg: Config, n: nat, m: nat)
    requires cfg.cap == n as real && n <= m < 2 * n && cfg.refill >= 0.0 && KEY_TTL * cfg.refill < cfg.cap
    ensures var level := Level(Memory, cfg, After(Memory, cfg, Trial(n, m)), "s", KEY_TTL);
      level < 1.0 || level == KEY_TTL * cfg.refill - (m - n) as real
    decreases m
  {
    if m == n {
      Drained(Memory, cfg, n, n);
    } else {
      TrialExtends(n, m);
      RefillsPartly(cfg, n, m - 1);
    }
  }

  lemma {:induction false} TrialTellsApart(cfg: Config, n: nat)
    requires n > 0 && cfg.cap == n as real && cfg.refill >= 0.0 && KEY_TTL * cfg.refill < cfg.cap
    ensures Ordered(Trial(n, 2 * n)) && !SameDecisions(cfg, Trial(n, 2 * n))
  {
    TrialExtends(n, 2 * n);
    RestartsFull(cfg, n, 2 * n - 1);
    RefillsPartly(cfg, n, 2 * n - 1);
    assert Allowed(Memory, cfg, Trial(n, 2 * n), 2 * n - 1) != Allowed(Redis, cfg, Trial(n, 2 * n), 2 * n - 1);
  }

  lemma {:induction false} BackendsAgree(cfg: Config, calls: seq<Call>)
    requires cfg.refill >= 0.0 && cfg.cap >= 0.0 && KEY_TTL * cfg.refill >= cfg.cap && Ordered(calls)
    ensures SameDecisions(cfg, calls)
  {
    forall i | 0 <= i < |calls| ensures Allowed(Memory, cfg, calls, i) == Allowed(Redis, cfg, calls, i) {
      SameState(cfg, calls[..i], calls[i].now);
      SameLevel(cfg, After(Memory, cfg, calls[..i]), calls[i].scope, calls[i].now);
    }
  }

  /** Redis and memory decide alike on every call sequence exactly when 120 s refill a bucket. */
  lemma {:induction false} BackendsAgreeExactly(refill: real, burst: int)
    requires refill >= 0.0
    ensures var cap := if burst < 1 then 1.0 else burst as real;
      (forall calls :: Ordered(calls) ==> SameDecisions(Config(refill, cap), calls)) <==> 120.0 * refill >= cap
  {
    var cfg := Config(refill, CapOf(burst));
    if KEY_TTL * refill >= cfg.cap {
      forall calls | Ordered(calls) ensures SameDecisions(cfg, calls) {
        BackendsAgree(cfg, calls);
      }
    } else {
      TrialTellsApart(cfg, if burst < 1 then 1 else burst);
    }
  }

  /** `_compute_refill` */
  function ComputeRefill(window: int, maxRequests: int): real {
    var w := if window < 1 then 1 else window;
    var rate := maxRequests as real / w as real;
    if rate < 0.1 then 0.1 else rate
  }

  /** Requests per second of a window of at least a second, but a tenth of one at least. */
  lemma {:induction false} RefillExactly(window: int, maxRequests: int)
    ensures
      var rate, seconds := ComputeRefill(window, maxRequests), if window < 1 then 1 else window;
      if 10 * maxRequests < seconds then rate == 0.1 else rate * seconds as real == maxRequests as real
  {
    var seconds := if window < 1 then 1 else window;
    Ratio(maxRequests as real, seconds as real);
  }

  lemma {:induction false} Ratio(m: real, w: real)
    requires w > 0.0
    ensures m / w * w == m && (m / w < 0.1 <==> 10.0 * m < w)
  {
    var r := m / w;
    assert r * w == m;
    if r < 0.1 {
      assert r * w < 0.1 * w;
    } else {
      assert r * w >= 0.1 * w;
    }
  }

  /** A burst of at most 12 is safe under any window and request count; so are the shipped
      defaults (60 s, 600 requests, burst 120). */
  lemma {:induction false} SafeConfigurations(window: int, maxRequests: int, burst: int)
    requires burst <= 12 || (window, maxRequests, burst) == (60, 600, 120)
    ensures forall calls :: Ordered(calls) ==> SameDecisions(Config(ComputeRefill(window, maxRequests), CapOf(burst)), calls)
  {
    BackendsAgreeExactly(ComputeRefill(window, maxRequests), burst);
  }

  // ----- scopes are independent

  function Only(calls: seq<Call>, scope: string): seq<Call> {
    if calls == [] then []
    else
      var init := Only(calls[..|calls| - 1], scope);
      if calls[|calls| - 1].scope == scope then init + [calls[|calls| - 1]] else init
  }

  ghost predicate AgreeOn(a: State, b: State, scope: string) {
    (scope in a <==> scope in b) && (scope in a ==> a[scope] == b[scope])
  }

  lemma {:induction false} NextAgrees(kind: Backend, cfg: Config, a: State, b: State, scope: string, now: real)
    requires AgreeOn(a, b, scope)
    ensures Level(kind, cfg, a, scope, now) == Level(kind, cfg, b, scope, now)
    ensures AgreeOn(Next(kind, cfg, a, scope, now), Next(kind, cfg, b, scope, now), scope)
  {}

  lemma {:induction false} ScopeStateIsOwn(kind: Backend, cfg: Config, calls: seq<Call>, scope: string)
    ensures AgreeOn(After(kind, cfg, calls), After(kind, cfg, Only(calls, scope)), scope)
  {
    if calls != [] {
      var init, c := calls[..|calls| - 1], calls[|calls| - 1];
      ScopeStateIsOwn(kind, cfg, init, scope);
      if c.scope == scope {
        var own := Only(init, scope);
        NextAgrees(kind, cfg, After(kind, cfg, init), After(kind, cfg, own), scope, c.now);
        assert (own + [c])[..|own|] == own;
      }
    }
  }

  /** A decision depends only on the calls made for the same scope. */
  lemma {:induction false} ScopesAreIndependent(kind: Backend, cfg: Config, calls: seq<Call>, i: nat)
    requires i < |calls|
    ensures var own := Only(calls[..i], calls[i].scope);
      Allowed(kind, cfg, calls, i) <==> Allowed(kind, cfg, own + [calls[i]], |own|)
  {
    var own := Only(calls[..i], calls[i].scope);
    ScopeStateIsOwn(kind, cfg, calls[..i], calls[i].scope);
    NextAgrees(kind, cfg, After(kind, cfg, calls[..i]), After(kind, cfg, own), calls[i].scope, calls[i].now);
    assert (own + [calls[i]])[..|own|] == own;
  }

  // ----- one scope in memory is a token bucket

  /** The credit clock of the token bucket. */
  function Credit(now: real, refill: real): real {
    now * refill
  }

  function AsOps(calls: seq<Call>, refill: real): seq<TB.Op> {
    if calls == [] then []
    else AsOps(calls[..|calls| - 1], refill) + [TB.Consume(1, Credit(calls[|calls| - 1].now, refill))]
  }

  lemma {:induction false} LevelInCredit(cfg: Config, st: State, scope: string, now: real, b: TB.Bucket, credit: real)
    requires scope in st && b.capacity == cfg.cap && b.tokens == st[scope].tokens
    requires credit - b.mark == TB.Earned(now - st[scope].ts, cfg.refill)
    ensures Level(Memory, cfg, st, scope, now) == TB.Refilled(b, credit).tokens
  {}

  lemma {:induction false} ScopeIsBucket(cfg: Config, calls: seq<Call>, scope: string, credit: real)
    requires calls != [] && credit == Credit(calls[0].now, cfg.refill)
    requires forall c :: c in calls ==> c.scope == scope
    ensures var st, last := After(Memory, cfg, calls), calls[|calls| - 1].now; scope in st && st[scope].ts == last
    ensures TB.Run(TB.Full(cfg.cap, credit), AsOps(calls, cfg.refill))
      == TB.Bucket(cfg.cap, After(Memory, cfg, calls)[scope].tokens, Credit(calls[|calls| - 1].now, cfg.refill))
  {
    var n := |calls| - 1;
    var init, ops := calls[..n], AsOps(calls, cfg.refill);
    assert ops[..|ops| - 1] == AsOps(init, cfg.refill);
    if init != [] {
      ScopeIsBucket(cfg, init, scope, credit);
      StepInCredit(cfg, calls, scope, n, credit);
    }
  }

  lemma {:induction false} StepInCredit(cfg: Config, calls: seq<Call>, scope: string, i: nat, credit: real)
    requires 0 < i < |calls| && scope in After(Memory, cfg, calls[..i])
    requires After(Memory, cfg, calls[..i])[scope].ts == calls[i - 1].now
    requires TB.Run(TB.Full(cfg.cap, credit), AsOps(calls[..i], cfg.refill))
      == TB.Bucket(cfg.cap, After(Memory, cfg, calls[..i])[scope].tokens, Credit(calls[i - 1].now, cfg.refill))
    ensures Level(Memory, cfg, After(Memory, cfg, calls[..i]), scope, calls[i].now)
      == TB.Refilled(TB.Run(TB.Full(cfg.cap, credit), AsOps(calls[..i], cfg.refill)), Credit(calls[i].now, cfg.refill)).tokens
  {
    TB.Distributes(calls[i - 1].now, calls[i].now, cfg.refill);
    LevelInCredit(cfg, After(Memory, cfg, calls[..i]), scope, calls[i].now,
      TB.Run(TB.Full(cfg.cap, credit), AsOps(calls[..i], cfg.refill)), Credit(calls[i].now, cfg.refill));
  }

  /** The first call finds a full bucket either way. */
  lemma {:induction false} FirstDecision(cfg: Config, calls: seq<Call>, refill: real)
    requires calls != [] && refill == cfg.refill
    ensures Level(Memory, cfg, After(Memory, cfg, calls[..0]), calls[0].scope, calls[0].now) == cfg.cap
    ensures TB.Run(TB.Full(cfg.cap, Credit(calls[0].now, refill)), AsOps(calls[..0], refill)) == TB.Full(cfg.cap, Credit(calls[0].now, refill))
  {
    assert calls[..0] == [];
  }

  lemma {:induction false} DecidesByLevel(b: TB.Bucket, credit: real, level: real)
    requires level == TB.Refilled(b, credit).tokens
    ensures level >= 1.0 <==> TB.Grants(b, 1, credit)
  {}

  lemma {:induction false} FullStaysFull(cap: real, credit: real)
    ensures TB.Refilled(TB.Full(cap, credit), credit).tokens == cap
  {}

  /** So the window bound and the exact grant condition of the token bucket hold per scope. */
  lemma {:induction false} MemoryDecidesLikeBucket(cfg: Config, calls: seq<Call>, scope: string, i: nat)
    requires i < |calls| && forall c :: c in calls ==> c.scope == scope
    ensures Allowed(Memory, cfg, calls, i) <==>
      TB.Grants(TB.Run(TB.Full(cfg.cap, Credit(calls[0].now, cfg.refill)), AsOps(calls[..i], cfg.refill)),
        1, Credit(calls[i].now, cfg.refill))
  {
    var credit := Credit(calls[0].now, cfg.refill);
    var b := TB.Run(TB.Full(cfg.cap, credit), AsOps(calls[..i], cfg.refill));
    var level := Level(Memory, cfg, After(Memory, cfg, calls[..i]), scope, calls[i].now);
    assert calls[i] in calls;
    assert level == TB.Refilled(b, Credit(calls[i].now, cfg.refill)).tokens by {
      if i == 0 {
        FirstDecision(cfg, calls, cfg.refill);
        FullStaysFull(cfg.cap, credit);
      } else {
        ScopeIsBucket(cfg, calls[..i], scope, credit);
        StepInCredit(cfg, calls, scope, i, credit);
      }
    }
    DecidesByLevel(b, Credit(calls[i].now, cfg.refill), level);
  }
}
