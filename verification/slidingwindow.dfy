/** The per-key sliding-window limiter of the alert dispatcher. */
module SlidingWindow {
  type Buckets = map<string, seq<real>>

  function DequeOf(st: Buckets, key: string): seq<real> {
    if key in st then st[key] else []
  }

  /** Drop from the left while older than the cutoff. */
  function DropOld(dq: seq<real>, cutoff: real): seq<real> {
    if dq != [] && dq[0] < cutoff then DropOld(dq[1..], cutoff) else dq
  }

  /** What is dropped is older than the cutoff, and what is left begins with something that is not. */
  ghost predicate Trims(before: seq<real>, after: seq<real>, cutoff: real) {
    exists k: nat :: TrimsAt(before, after, cutoff, k)
  }

  ghost predicate TrimsAt(before: seq<real>, after: seq<real>, cutoff: real, k: nat) {
    && k <= |before| && after == before[k..]
    && (forall i :: 0 <= i < k ==> before[i] < cutoff)
    && (k < |before| ==> before[k] >= cutoff)
  }

  lemma {:induction false} DropOldTrims(dq: seq<real>, cutoff: real) returns (k: nat)
    ensures TrimsAt(dq, DropOld(dq, cutoff), cutoff, k)
  {
    k := 0;
    if dq != [] && dq[0] < cutoff {
      var n := DropOldTrims(dq[1..], cutoff);
      k := n + 1;
      assert dq[1..][n..] == dq[k..];
      assert forall i :: 1 <= i < k ==> dq[i] == dq[1..][i - 1];
    }
  }

  class SlidingWindowRateLimiter {
    const window: real
    const maxEvents: int
    var buckets: Buckets

    constructor (windowSec: int, maxEvents: int)
      ensures window == windowSec as real && this.maxEvents == maxEvents && buckets == map[]
    {
      window, this.maxEvents := windowSec as real, maxEvents;
      buckets := map[];
    }

    method Allow(key: string, now: real) returns (allowed: bool)
      modifies this
      ensures exists kept ::
                && Trims(if key in old(buckets) then old(buckets)[key] else [], kept, now - window)
                && (allowed <==> |kept| < maxEvents)
                && buckets == old(buckets)[key := if allowed then kept + [now] else kept]
      ensures allowed == Allows(window, maxEvents, old(buckets), Call(key, now))
      ensures buckets == Next(window, maxEvents, old(buckets), Call(key, now))
    {
      var dq := if key in buckets then buckets[key] else [];
      var cutoff := now - window;
      ghost var start := dq;
      while dq != [] && dq[0] < cutoff
        invariant DropOld(dq, cutoff) == DropOld(start, cutoff)
      {
        dq := dq[1..];
      }
      ghost var k := DropOldTrims(start, cutoff);
      buckets := buckets[key := dq];
      if |dq| >= maxEvents {
        return false;
      }
      dq := dq + [now];
      buckets := buckets[key := dq];
      return true;
    }
  }

  // ----- runs

  datatype Call = Call(key: string, now: real)

  predicate Allows(window: real, maxEvents: int, st: Buckets, c: Call) {
    |DropOld(DequeOf(st, c.key), c.now - window)| < maxEvents
  }

  function Next(window: real, maxEvents: int, st: Buckets, c: Call): Buckets {
    var dq := DropOld(DequeOf(st, c.key), c.now - window);
    st[c.key := if |dq| < maxEvents then dq + [c.now] else dq]
  }

  function After(window: real, maxEvents: int, calls: seq<Call>): Buckets {
    if calls == [] then map[] else Next(window, maxEvents, After(window, maxEvents, calls[..|calls| - 1]), calls[|calls| - 1])
  }

  ghost predicate Ordered(calls: seq<Call>) {
    forall i, j :: 0 <= i < j < |calls| ==> calls[i].now <= calls[j].now
  }

  // ----- the reference: all allowed events of a key, ever

  /** The times of the allowed calls for `key`, in order. */
  function History(window: real, maxEvents: int, calls: seq<Call>, key: string): seq<real> {
    if calls == [] then []
    else
      var init, c := calls[..|calls| - 1], calls[|calls| - 1];
      var past := History(window, maxEvents, init, key);
      if c.key == key && Allows(window, maxEvents, After(window, maxEvents, init), c) then past + [c.now] else past
  }

  ghost predicate Sorted(s: seq<real>) {
    forall i, j :: 0 <= i < j < |s| ==> s[i] <= s[j]
  }

  ghost predicate UpTo(s: seq<real>, hi: real) {
    forall i :: 0 <= i < |s| ==> s[i] <= hi
  }

  /** `s[k..]` is the part of `s` at or after the cutoff. */
  ghost predicate SplitsAt(s: seq<real>, k: nat, cutoff: real) {
    && k <= |s|
    && (forall i :: 0 <= i < k ==> s[i] < cutoff)
    && (forall i :: k <= i < |s| ==> cutoff <= s[i])
  }

  lemma {:induction false} HistoryIsSorted(window: real, maxEvents: int, calls: seq<Call>, key: string, now: real)
    requires Ordered(calls) && (calls != [] ==> calls[|calls| - 1].now <= now)
    ensures Sorted(History(window, maxEvents, calls, key)) && UpTo(History(window, maxEvents, calls, key), now)
  {
    if calls != [] {
      var n := |calls| - 1;
      assert n > 0 ==> calls[n - 1].now <= calls[n].now;
      HistoryIsSorted(window, maxEvents, calls[..n], key, calls[n].now);
    }
  }

  lemma {:induction false} DropOldSplits(s: seq<real>, k: nat, cutoff: real) returns (k': nat)
    requires Sorted(s) && k <= |s| && forall i :: 0 <= i < k ==> s[i] < cutoff
    ensures SplitsAt(s, k', cutoff) && DropOld(s[k..], cutoff) == s[k'..]
    decreases |s| - k
  {
    if k < |s| && s[k] < cutoff {
      assert s[k..][1..] == s[k + 1..];
      k' := DropOldSplits(s, k + 1, cutoff);
    } else {
      k' := k;
    }
  }

  /** The event that the last call adds, if it is allowed. */
  function NewEvent(window: real, maxEvents: int, calls: seq<Call>): seq<real>
    requires calls != []
  {
    var init, c := calls[..|calls| - 1], calls[|calls| - 1];
    if Allows(window, maxEvents, After(window, maxEvents, init), c) then [c.now] else []
  }

  /** One call, seen from its key: the deque and the history grow by the same event. */
  lemma {:induction false} CallStep(window: real, maxEvents: int, calls: seq<Call>)
    requires calls != []
    ensures var init, c, new' := calls[..|calls| - 1], calls[|calls| - 1], NewEvent(window, maxEvents, calls);
      && DequeOf(After(window, maxEvents, calls), c.key)
        == DropOld(DequeOf(After(window, maxEvents, init), c.key), c.now - window) + new'
      && History(window, maxEvents, calls, c.key) == History(window, maxEvents, init, c.key) + new'
  {}

  /** What a call for `key` finds after dropping: its allowed events still in the window. */
  lemma {:induction false} TrimmedIsRecent(window: real, maxEvents: int, calls: seq<Call>, key: string, now: real)
    returns (k: nat)
    requires Ordered(calls) && (calls != [] ==> calls[|calls| - 1].now <= now)
    ensures var h := History(window, maxEvents, calls, key);
      SplitsAt(h, k, now - window) && DropOld(DequeOf(After(window, maxEvents, calls), key), now - window) == h[k..]
    decreases |calls|, 1
  {
    k := 0;
    if calls != [] {
      var n := |calls| - 1;
      assert n > 0 ==> calls[n - 1].now <= calls[n].now;
      if calls[n].key != key {
        k := TrimmedIsRecent(window, maxEvents, calls[..n], key, now);
      } else {
        k := DequeIsSuffix(window, maxEvents, calls);
        HistoryIsSorted(window, maxEvents, calls, key, now);
        k := DropOldSplits(History(window, maxEvents, calls, key), k, now - window);
      }
    }
  }

  lemma {:induction false} DequeIsSuffix(window: real, maxEvents: int, calls: seq<Call>) returns (k: nat)
    requires Ordered(calls) && calls != []
    ensures var c, h := calls[|calls| - 1], History(window, maxEvents, calls, calls[|calls| - 1].key);
      && k <= |h| && DequeOf(After(window, maxEvents, calls), c.key) == h[k..]
      && (forall i :: 0 <= i < k ==> h[i] < c.now - window)
      && (window >= 0.0 ==> SplitsAt(h, k, c.now - window))
    decreases |calls|, 0
  {
    var n := |calls| - 1;
    var c := calls[n];
    assert n > 0 ==> calls[n - 1].now <= c.now;
    k := TrimmedIsRecent(window, maxEvents, calls[..n], c.key, c.now);
    CallStep(window, maxEvents, calls);
    var past, new' := History(window, maxEvents, calls[..n], c.key), NewEvent(window, maxEvents, calls);
    SuffixGrows(past, k, c.now, past + new', c.now - window);
    assert (past + new')[|past|..] == new';
  }

  lemma {:induction false} SuffixGrows(past: seq<real>, k: nat, now: real, h: seq<real>, cutoff: real)
    requires SplitsAt(past, k, cutoff) && (h == past || h == past + [now])
    ensures k <= |h| && h[k..] == past[k..] + h[|past|..]
    ensures forall i :: 0 <= i < k ==> h[i] < cutoff
    ensures cutoff <= now ==> SplitsAt(h, k, cutoff)
  {}

  ghost predicate LastCall(calls: seq<Call>, key: string, i: nat) {
    i < |calls| && calls[i].key == key && forall j :: i < j < |calls| ==> calls[j].key != key
  }

  /** The deque of a key is sorted and holds exactly the allowed events that were still in the
      window at the last call for that key. */
  lemma {:induction false} DequeIsRecentHistory(window: real, maxEvents: int, calls: seq<Call>, key: string, i: nat)
    returns (k: nat)
    requires window >= 0.0 && Ordered(calls) && LastCall(calls, key, i)
    ensures var dq, h := DequeOf(After(window, maxEvents, calls), key), History(window, maxEvents, calls, key);
      Sorted(dq) && SplitsAt(h, k, calls[i].now - window) && dq == h[k..]
  {
    var n := |calls| - 1;
    if i < n {
      k := DequeIsRecentHistory(window, maxEvents, calls[..n], key, i);
    } else {
      k := DequeIsSuffix(window, maxEvents, calls);
      HistoryIsSorted(window, maxEvents, calls, key, calls[n].now);
    }
  }

  // ----- the bound

  /** The indices of the members of `s` within the closed interval [lo, hi]. */
  ghost function Within(s: seq<real>, lo: real, hi: real): set<int> {
    set i | 0 <= i < |s| && lo <= s[i] <= hi
  }

  lemma {:induction false} IntervalSize(w: set<int>, lo: int, hi: int)
    requires lo <= hi && forall j :: j in w ==> lo <= j < hi
    ensures |w| <= hi - lo
    ensures (forall j :: lo <= j < hi ==> j in w) ==> |w| == hi - lo
    decreases hi - lo
  {
    if lo < hi {
      IntervalSize(w - {hi - 1}, lo, hi - 1);
    } else {
      assert w == {};
    }
  }

  /** A call is allowed exactly when fewer than max_events events were allowed for its key in the
      closed window ending now: a refusal means the window really is full. */
  lemma {:induction false} AllowedIffWindowHasRoom(window: real, maxEvents: int, calls: seq<Call>, i: nat)
    requires Ordered(calls) && i < |calls|
    ensures Allows(window, maxEvents, After(window, maxEvents, calls[..i]), calls[i]) <==>
      |Within(History(window, maxEvents, calls[..i], calls[i].key), calls[i].now - window, calls[i].now)| < maxEvents
  {
    var h := History(window, maxEvents, calls[..i], calls[i].key);
    var k := TrimmedIsRecent(window, maxEvents, calls[..i], calls[i].key, calls[i].now);
    HistoryIsSorted(window, maxEvents, calls[..i], calls[i].key, calls[i].now);
    IntervalSize(Within(h, calls[i].now - window, calls[i].now), k, |h|);
  }

  /** Any max_events + 1 consecutive allowed events of a key span more than the window. */
  lemma {:induction false} Spacing(window: real, maxEvents: nat, calls: seq<Call>, key: string, i: nat)
    requires Ordered(calls)
    requires i + maxEvents < |History(window, maxEvents, calls, key)|
    ensures var h := History(window, maxEvents, calls, key); h[i + maxEvents] - h[i] > window
  {
    var n := |calls| - 1;
    var past := History(window, maxEvents, calls[..n], key);
    if i + maxEvents < |past| {
      Spacing(window, maxEvents, calls[..n], key, i);
    } else {
      assert n > 0 ==> calls[n - 1].now <= calls[n].now;
      var k := TrimmedIsRecent(window, maxEvents, calls[..n], key, calls[n].now);
    }
  }

  /** In every run, every closed window of the configured length holds at most max_events allowed
      events of each key. */
  lemma {:induction false} WindowBound(window: real, maxEvents: nat, calls: seq<Call>, key: string, t: real)
    requires Ordered(calls)
    ensures |Within(History(window, maxEvents, calls, key), t, t + window)| <= maxEvents
  {
    var h := History(window, maxEvents, calls, key);
    var w := Within(h, t, t + window);
    if exists j :: j in w {
      var i := LeastOf(w);
      forall j | j in w ensures i <= j < i + maxEvents {
        WindowSpan(window, maxEvents, calls, key, t, i, j);
      }
      IntervalSize(w, i, i + maxEvents);
    } else {
      assert w == {};
    }
  }

  lemma {:induction false} WindowSpan(window: real, maxEvents: nat, calls: seq<Call>, key: string, t: real,
          i: nat, j: nat)
    requires Ordered(calls) && i <= j < |History(window, maxEvents, calls, key)|
    requires t <= History(window, maxEvents, calls, key)[i] && History(window, maxEvents, calls, key)[j] <= t + window
    ensures j < i + maxEvents
  {
    if j >= i + maxEvents {
      Spacing(window, maxEvents, calls, key, i);
      HistoryIsSorted(window, maxEvents, calls, key, if calls == [] then 0.0 else calls[|calls| - 1].now);
    }
  }

  lemma {:induction false} LeastOf(w: set<int>) returns (i: int)
    requires exists j :: j in w
    ensures i in w && forall j :: j in w ==> i <= j
  {
    i :| i in w;
    var rest := w - {i};
    assert forall j :: j in w ==> j == i || j in rest;
    if exists j :: j in rest {
      var j := LeastOf(rest);
      if j < i {
        i := j;
      }
    }
  }
}
