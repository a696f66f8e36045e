/** The registry's metric keys: name and labels printed into one string and parsed back. */
module MetricKeys {
  import opened Common
  import opened Dicts
  import Sorting
  import WC = WindowCounters

  type Labels = Dict<string, string>

  // ----- string order and sorted keys

  /** Lexicographic order by code point. */
  predicate Less(a: string, b: string) {
    b != [] && (a == [] || a[0] < b[0] || (a[0] == b[0] && Less(a[1..], b[1..])))
  }

  /** The first difference decides, and a proper prefix comes first. */
  lemma {:induction false} LessExactly(a: string, b: string)
    ensures Less(a, b) <==>
            exists k :: 0 <= k <= |a| && k < |b| && a[..k] == b[..k] && (k == |a| || a[k] < b[k])
  {
    if a != [] && b != [] && a[0] == b[0] {
      LessExactly(a[1..], b[1..]);
      forall k | 0 < k <= |a| && k < |b|
        ensures a[..k] == b[..k] <==> a[1..][..k - 1] == b[1..][..k - 1]
      {
        assert a[..k] == [a[0]] + a[1..][..k - 1] && b[..k] == [b[0]] + b[1..][..k - 1];
      }
      if k :| 0 <= k <= |a[1..]| && k < |b[1..]| && a[1..][..k] == b[1..][..k] && (k == |a[1..]| || a[1..][k] < b[1..][k]) {
        assert a[..k + 1] == b[..k + 1];
      }
      if k :| 0 <= k <= |a| && k < |b| && a[..k] == b[..k] && (k == |a| || a[k] < b[k]) {
        assert k > 0 && a[1..][..k - 1] == b[1..][..k - 1];
      }
    } else if b != [] {
      assert a[..0] == b[..0];
    }
  }

  lemma {:induction false} LessTotal(a: string, b: string)
    ensures a == b || Less(a, b) || Less(b, a)
    ensures !(Less(a, b) && Less(b, a)) && !Less(a, a)
  {
    if a != [] && b != [] && a[0] == b[0] {
      LessTotal(a[1..], b[1..]);
      assert a == [a[0]] + a[1..] && b == [b[0]] + b[1..];
    }
    if a != [] {
      LessTotal(a[1..], a[1..]);
    }
  }

  lemma {:induction false} LessTransitive(a: string, b: string, c: string)
    requires Less(a, b) && Less(b, c)
    ensures Less(a, c)
  {
    if a != [] && a[0] == b[0] && b[0] == c[0] {
      LessTransitive(a[1..], b[1..], c[1..]);
    }
  }

  predicate NotAfter(a: string, b: string) {
    !Less(b, a)
  }

  function SortKeys(ks: seq<string>): seq<string> {
    Sorting.Sort(NotAfter, ks)
  }

  ghost predicate Ascending(s: seq<string>) {
    forall i, j :: 0 <= i < j < |s| ==> Less(s[i], s[j])
  }

  lemma {:induction false} NotAfterIsTotal()
    ensures Sorting.TotalPreorder(NotAfter)
  {
    forall a, b ensures NotAfter(a, b) || NotAfter(b, a) {
      LessTotal(a, b);
    }
    forall a, b, c | NotAfter(a, b) && NotAfter(b, c) ensures NotAfter(a, c) {
      LessTotal(a, b);
      LessTotal(b, c);
      if Less(c, a) {
        if a != b {
          LessTransitive(c, a, b);
        }
      }
    }
  }

  lemma {:induction false} SortKeysSorts(ks: seq<string>)
    requires NoDup(ks)
    ensures Ascending(SortKeys(ks)) && forall k :: k in SortKeys(ks) <==> k in ks
  {
    NotAfterIsTotal();
    Sorting.SortSorts(NotAfter, ks);
    var r := SortKeys(ks);
    PermutationKeepsNoDup(ks, r);
    forall i, j | 0 <= i < j < |r| ensures Less(r[i], r[j]) {
      assert NotAfter(r[i], r[j]);
      LessTotal(r[i], r[j]);
    }
  }

  /** Two ascending lists with the same members are equal. */
  lemma {:induction false} AscendingUnique(a: seq<string>, b: seq<string>)
    requires Ascending(a) && Ascending(b) && forall x :: x in a <==> x in b
    ensures a == b
    decreases |a|
  {
    if a == [] {
      assert Elements(b) == {};
      NonEmptyHasElements(b);
    } else {
      var x := a[|a| - 1];
      assert x in b;
      var y := b[|b| - 1];
      assert y in a && y in b;
      LastIsGreatest(a, y);
      LastIsGreatest(b, x);
      LessTotal(x, y);
      var a', b' := a[..|a| - 1], b[..|b| - 1];
      forall z ensures z in a' <==> z in b' {
        InitMembers(a, z);
        InitMembers(b, z);
      }
      AscendingUnique(a', b');
      assert a == a' + [x] && b == b' + [y];
    }
  }

  lemma {:induction false} NonEmptyHasElements(s: seq<string>)
    ensures s != [] ==> s[0] in Elements(s)
  {}

  lemma {:induction false} LastIsGreatest(s: seq<string>, x: string)
    requires Ascending(s) && x in s
    ensures x == s[|s| - 1] || Less(x, s[|s| - 1])
  {}

  lemma {:induction false} InitMembers(s: seq<string>, z: string)
    requires Ascending(s) && s != []
    ensures z in s[..|s| - 1] <==> z in s && z != s[|s| - 1]
  {
    var last := s[|s| - 1];
    assert z in s ==> z == last || z in s[..|s| - 1];
    if last in s[..|s| - 1] {
      var i :| 0 <= i < |s| - 1 && s[i] == last;
      LessTotal(s[i], last);
    }
  }

  // ----- printing

  function Part(d: Labels, k: string): string {
    k + "=" + if k in d.vals then d.vals[k] else ""
  }

  function Parts(d: Labels, ks: seq<string>): seq<string> {
    if ks == [] then [] else Parts(d, ks[..|ks| - 1]) + [Part(d, ks[|ks| - 1])]
  }

  /** `"|".join(...)` of a non-empty list. */
  function Join(ps: seq<string>): string {
    if ps == [] then "" else if |ps| == 1 then ps[0] else Join(ps[..|ps| - 1]) + "|" + ps[|ps| - 1]
  }

  function Key(name: string, labels: Labels): string {
    if labels.keys == [] then name else name + "|" + Join(Parts(labels, SortKeys(labels.keys)))
  }

  /** Each label behind a bar, with an equals sign between name and value. */
  ghost function Printed(labels: Labels, ks: seq<string>): string
    requires forall k :: k in ks ==> k in labels.vals
  {
    if ks == [] then ""
    else
      var k := ks[|ks| - 1];
      Printed(labels, ks[..|ks| - 1]) + ("|" + k + "=" + labels.vals[k])
  }

  lemma {:induction false} JoinPrints(labels: Labels, ks: seq<string>)
    requires ks != [] && forall k :: k in ks ==> k in labels.vals
    ensures "|" + Join(Parts(labels, ks)) == Printed(labels, ks)
  {
    PartsLength(labels, ks);
    PartsLength(labels, ks[..|ks| - 1]);
    var init, k := ks[..|ks| - 1], ks[|ks| - 1];
    var ps := Parts(labels, init);
    assert (ps + [Part(labels, k)])[..|ps|] == ps;
    assert "|" + Part(labels, k) == "|" + k + "=" + labels.vals[k];
    if init != [] {
      JoinPrints(labels, init);
      JoinSnoc(Join(ps), Part(labels, k));
    } else {
      assert ps == [] && ps + [Part(labels, k)] == [Part(labels, k)];
    }
  }

  lemma {:induction false} JoinSnoc(s: string, p: string)
    ensures "|" + (s + "|" + p) == ("|" + s) + ("|" + p)
  {}

  lemma {:induction false} PartsLength(labels: Labels, ks: seq<string>)
    ensures |Parts(labels, ks)| == |ks|
  {
    if ks != [] {
      PartsLength(labels, ks[..|ks| - 1]);
    }
  }

  /** The key is the name and then all labels, in the ascending order of their names. */
  lemma {:induction false} KeyIsPrinted(name: string, labels: Labels, ks: seq<string>)
    requires Valid(labels) && Ascending(ks) && forall k :: k in ks <==> k in labels.vals
    ensures Key(name, labels) == name + Printed(labels, ks)
  {
    SortKeysSorts(labels.keys);
    AscendingUnique(SortKeys(labels.keys), ks);
    if labels.keys == [] {
      assert Elements(ks) == {};
      NonEmptyHasElements(ks);
    } else {
      assert labels.keys[0] in ks;
      JoinPrints(labels, ks);
      assert name + ("|" + Join(Parts(labels, ks))) == name + "|" + Join(Parts(labels, ks));
    }
  }

  // ----- parsing

  /** `str.split("|")` */
  function Split(s: string): (r: seq<string>)
    ensures |r| >= 1
  {
    if s == "" then [""]
    else
      var init, c := Split(s[..|s| - 1]), s[|s| - 1];
      if c == '|' then init + [""] else init[..|init| - 1] + [init[|init| - 1] + [c]]
  }

  function FirstEq(s: string, i: nat): nat
    requires i <= |s|
    decreases |s| - i
  {
    if i == |s| || s[i] == '=' then i else FirstEq(s, i + 1)
  }

  /** `part.split("=", 1)` on a part that has an equals sign; other parts are skipped. */
  function Store(d: Labels, part: string): Labels {
    var i := FirstEq(part, 0);
    if i < |part| then Put(d, part[..i], part[i + 1..]) else d
  }

  function StoreParts(ps: seq<string>): Labels {
    if ps == [] then Empty() else Store(StoreParts(ps[..|ps| - 1]), ps[|ps| - 1])
  }

  function SplitKey(key: string): (string, Labels) {
    if '|' !in key then (key, Empty()) else (Split(key)[0], StoreParts(Split(key)[1..]))
  }

  class MetricsRegistry {
    const window: int
    var counters: map<string, int>
    var windows: map<string, seq<WC.Sample>>

    constructor (window: int)
      ensures this.window == window && counters == map[] && windows == map[]
    {
      this.window := window;
      counters, windows := map[], map[];
    }

    /** Only this metric moves: every other clean metric keeps its counter and its window. */
    method Inc(name: string, labels: Labels, value: int, now: int)
      requires Valid(labels)
      modifies this
      ensures counters == old(counters)[Key(name, labels) := Counter(old(counters), name, labels) + value]
      ensures windows == old(windows)[Key(name, labels) := WC.Added(window, Window(old(windows), name, labels), value, now)]
      ensures Clean(name, labels) ==> forall n, l :: Valid(l) && Clean(n, l) && (n != name || l.vals != labels.vals) ==>
        Counter(counters, n, l) == Counter(old(counters), n, l) && Window(windows, n, l) == Window(old(windows), n, l)
    {
      var key := Key(name, labels);
      KeyIsOwn(name, labels);
      counters := counters[key := (if key in counters then counters[key] else 0) + value];
      windows := windows[key := WC.Added(window, if key in windows then windows[key] else [], value, now)];
    }

    method Observe(name: string, labels: Labels, value: int, now: int)
      requires Valid(labels)
      modifies this
      ensures counters == old(counters)
      ensures windows == old(windows)[Key(name, labels) := WC.Added(window, Window(old(windows), name, labels), value, now)]
      ensures Clean(name, labels) ==> forall n, l :: Valid(l) && Clean(n, l) && (n != name || l.vals != labels.vals) ==>
        Window(windows, n, l) == Window(old(windows), n, l)
    {
      var key := Key(name, labels);
      KeyIsOwn(name, labels);
      windows := windows[key := WC.Added(window, if key in windows then windows[key] else [], value, now)];
    }

    method SplitKeyLoop(key: string) returns (name: string, labels: Labels)
      ensures (name, labels) == SplitKey(key)
    {
      if '|' !in key {
        return key, Empty();
      }
      var parts := Split(key);
      name, labels := parts[0], Empty();
      var labelParts := parts[1..];
      for i := 0 to |labelParts|
        invariant labels == StoreParts(labelParts[..i])
      {
        assert labelParts[..i + 1][..i] == labelParts[..i];
        var eq := FirstEq(labelParts[i], 0);
        if eq < |labelParts[i]| {
          labels := Put(labels, labelParts[i][..eq], labelParts[i][eq + 1..]);
        }
      }
      assert labelParts[..|labelParts|] == labelParts;
    }
  }

  function Counter(counters: map<string, int>, name: string, labels: Labels): int {
    if Key(name, labels) in counters then counters[Key(name, labels)] else 0
  }

  function Window(windows: map<string, seq<WC.Sample>>, name: string, labels: Labels): seq<WC.Sample> {
    if Key(name, labels) in windows then windows[Key(name, labels)] else []
  }

  // ----- round trip

  /** No bar anywhere, no equals sign in a label name; label values may contain equals signs. */
  ghost predicate Clean(name: string, labels: Labels) {
    && '|' !in name
    && forall k :: k in labels.vals ==> '|' !in k && '=' !in k && '|' !in labels.vals[k]
  }

  lemma {:induction false} SplitBarFree(t: string)
    requires '|' !in t
    ensures Split(t) == [t]
  {
    if t != "" {
      SplitBarFree(t[..|t| - 1]);
      assert t == t[..|t| - 1] + [t[|t| - 1]];
    }
  }

  lemma {:induction false} SplitAppend(s: string, t: string)
    requires '|' !in t
    ensures Split(s + "|" + t) == Split(s) + [t]
  {
    var u := s + "|" + t;
    if t == "" {
      assert u[..|u| - 1] == s && u[|u| - 1] == '|';
    } else {
      var t' := t[..|t| - 1];
      SplitAppend(s, t');
      assert u[..|u| - 1] == s + "|" + t' && t == t' + [t[|t| - 1]];
    }
  }

  ghost predicate BarFree(ps: seq<string>) {
    forall i :: 0 <= i < |ps| ==> '|' !in ps[i]
  }

  lemma {:induction false} SplitJoin(ps: seq<string>)
    requires ps != [] && BarFree(ps)
    ensures Split(Join(ps)) == ps
  {
    if |ps| == 1 {
      SplitBarFree(ps[0]);
    } else {
      SplitJoin(ps[..|ps| - 1]);
      SplitAppend(Join(ps[..|ps| - 1]), ps[|ps| - 1]);
      assert ps == ps[..|ps| - 1] + [ps[|ps| - 1]];
    }
  }

  lemma {:induction false} JoinCons(p: string, ps: seq<string>)
    requires ps != []
    ensures Join([p] + ps) == p + "|" + Join(ps)
  {
    if |ps| == 1 {
      assert ([p] + ps)[..1] == [p];
    } else {
      JoinCons(p, ps[..|ps| - 1]);
      assert ([p] + ps)[..|ps|] == [p] + ps[..|ps| - 1];
    }
  }

  lemma {:induction false} FirstEqIs(s: string, i: nat, k: nat)
    requires i <= k < |s| && s[k] == '=' && forall j :: i <= j < k ==> s[j] != '='
    ensures FirstEq(s, i) == k
    decreases k - i
  {
    if i < k {
      FirstEqIs(s, i + 1, k);
    }
  }

  /** A part is stored under what precedes its first equals sign; without one it is skipped. */
  lemma {:induction false} StoreTells(d: Labels, k: string, v: string)
    requires '=' !in k
    ensures Store(d, k + "=" + v) == Put(d, k, v) && Store(d, k) == d
  {
    var p := k + "=" + v;
    assert p[|k|] == '=' && p[..|k|] == k && p[|k| + 1..] == v;
    assert forall j :: 0 <= j < |k| ==> p[j] == k[j];
    FirstEqIs(p, 0, |k|);
    FirstEqIsFirst(k, 0);
    FirstEqEnds(k, 0);
  }

  lemma {:induction false} FirstEqEnds(s: string, i: nat)
    requires i <= |s|
    ensures FirstEq(s, i) < |s| ==> s[FirstEq(s, i)] == '='
    decreases |s| - i
  {
    if i < |s| && s[i] != '=' {
      FirstEqEnds(s, i + 1);
    }
  }

  /** Parsing a printed part stores that label. */
  lemma {:induction false} StorePart(d: Labels, labels: Labels, k: string)
    requires k in labels.vals && '=' !in k
    ensures Store(d, Part(labels, k)) == Put(d, k, labels.vals[k])
  {
    var p := Part(labels, k);
    assert p[|k|] == '=' && p[..|k|] == k && p[|k| + 1..] == labels.vals[k];
    assert forall j :: 0 <= j < |k| ==> p[j] == k[j];
    FirstEqIs(p, 0, |k|);
  }

  lemma {:induction false} StorePartsOf(labels: Labels, ks: seq<string>)
    requires NoDup(ks) && forall k :: k in ks ==> k in labels.vals && '=' !in k
    ensures var d := StoreParts(Parts(labels, ks)); d.keys == ks && d.vals == map k | k in ks :: labels.vals[k]
  {
    if ks != [] {
      var init, k := ks[..|ks| - 1], ks[|ks| - 1];
      assert k in ks && k !in init && ks == init + [k];
      StorePartsOf(labels, init);
      var ps := Parts(labels, init);
      assert (ps + [Part(labels, k)])[..|ps|] == ps;
      StorePart(StoreParts(ps), labels, k);
    }
  }

  lemma {:induction false} PartsBarFree(labels: Labels, ks: seq<string>)
    requires forall k :: k in ks ==> k in labels.vals && '|' !in k && '|' !in labels.vals[k]
    ensures BarFree(Parts(labels, ks)) && |Parts(labels, ks)| == |ks|
  {
    if ks != [] {
      PartsBarFree(labels, ks[..|ks| - 1]);
      assert ks[|ks| - 1] in ks;
    }
  }

  lemma {:induction false} AscendingNoDup(ks: seq<string>)
    requires Ascending(ks)
    ensures NoDup(ks)
  {
    forall i, j | 0 <= i < j < |ks| ensures ks[i] != ks[j] {
      LessTotal(ks[i], ks[j]);
    }
  }

  lemma {:induction false} SplitPrinted(name: string, ps: seq<string>)
    requires '|' !in name && ps != [] && BarFree(ps)
    ensures '|' in name + "|" + Join(ps) && Split(name + "|" + Join(ps)) == [name] + ps
  {
    JoinCons(name, ps);
    SplitJoin([name] + ps);
    assert (name + "|" + Join(ps))[|name|] == '|';
  }

  lemma {:induction false} SortedLabels(labels: Labels)
    requires Valid(labels)
    ensures var ks := SortKeys(labels.keys);
      NoDup(ks) && (forall k :: k in ks <==> k in labels.vals) && (ks == [] <==> labels.keys == [])
  {
    SortKeysSorts(labels.keys);
    AscendingNoDup(SortKeys(labels.keys));
    if labels.keys != [] {
      assert labels.keys[0] in SortKeys(labels.keys);
    }
  }

  lemma {:induction false} LabelsSurvive(labels: Labels, ks: seq<string>)
    requires NoDup(ks) && forall k :: k in ks <==> k in labels.vals
    requires forall k :: k in labels.vals ==> '=' !in k
    ensures StoreParts(Parts(labels, ks)).vals == labels.vals
  {
    StorePartsOf(labels, ks);
  }

  lemma {:induction false} CleanRoundTrips(name: string, labels: Labels)
    requires Valid(labels) && Clean(name, labels)
    ensures SplitKey(Key(name, labels)).0 == name && SplitKey(Key(name, labels)).1.vals == labels.vals
  {
    var ks := SortKeys(labels.keys);
    SortedLabels(labels);
    LabelsSurvive(labels, ks);
    if labels.keys != [] {
      PartsBarFree(labels, ks);
      SplitPrinted(name, Parts(labels, ks));
      assert ([name] + Parts(labels, ks))[1..] == Parts(labels, ks);
    }
  }

  lemma {:induction false} SplitPartsBarFree(s: string)
    ensures BarFree(Split(s))
  {
    if s != "" {
      SplitPartsBarFree(s[..|s| - 1]);
    }
  }

  lemma {:induction false} FirstEqIsFirst(s: string, i: nat)
    requires i <= |s|
    ensures i <= FirstEq(s, i) <= |s| && forall j :: i <= j < FirstEq(s, i) ==> s[j] != '='
    decreases |s| - i
  {
    if i < |s| && s[i] != '=' {
      FirstEqIsFirst(s, i + 1);
    }
  }

  lemma {:induction false} StoredIsClean(ps: seq<string>)
    requires BarFree(ps)
    ensures Clean("", StoreParts(ps))
  {
    if ps != [] {
      StoredIsClean(ps[..|ps| - 1]);
      FirstEqIsFirst(ps[|ps| - 1], 0);
    }
  }

  /** Whatever is parsed, the result is clean. */
  lemma {:induction false} ParsedIsClean(key: string)
    ensures Clean(SplitKey(key).0, SplitKey(key).1)
  {
    if '|' in key {
      SplitPartsBarFree(key);
      StoredIsClean(Split(key)[1..]);
    }
  }

  /** Parsing a printed metric gives it back exactly when it is clean. */
  lemma {:induction false} RoundTripExactly(name: string, labels: Labels)
    requires Valid(labels)
    ensures SplitKey(Key(name, labels)).0 == name && SplitKey(Key(name, labels)).1.vals == labels.vals <==> Clean(name, labels)
  {
    if Clean(name, labels) {
      CleanRoundTrips(name, labels);
    }
    ParsedIsClean(Key(name, labels));
  }

  lemma {:induction false} DistinctMetricsDistinctKeys(n: string, l: Labels, n': string, l': Labels)
    requires Valid(l) && Valid(l') && Clean(n, l) && Clean(n', l') && Key(n, l) == Key(n', l')
    ensures n == n' && l.vals == l'.vals
  {
    CleanRoundTrips(n, l);
    CleanRoundTrips(n', l');
  }

  lemma {:induction false} KeyIsOwn(name: string, labels: Labels)
    requires Valid(labels)
    ensures Clean(name, labels) ==> forall n, l :: Valid(l) && Clean(n, l) && (n != name || l.vals != labels.vals) ==>
      Key(n, l) != Key(name, labels)
  {
    forall n, l | Valid(l) && Clean(n, l) && Clean(name, labels) && Key(n, l) == Key(name, labels)
      ensures n == name && l.vals == labels.vals
    {
      DistinctMetricsDistinctKeys(n, l, name, labels);
    }
  }

  lemma {:induction false} PartsSame(a: Labels, b: Labels, ks: seq<string>)
    requires a.vals == b.vals
    ensures Parts(a, ks) == Parts(b, ks)
  {
    if ks != [] {
      PartsSame(a, b, ks[..|ks| - 1]);
    }
  }

  /** The order in which labels were inserted does not show in the key. */
  lemma {:induction false} KeyIgnoresInsertionOrder(name: string, a: Labels, b: Labels)
    requires Valid(a) && Valid(b) && a.vals == b.vals
    ensures Key(name, a) == Key(name, b)
  {
    SortKeysSorts(a.keys);
    SortKeysSorts(b.keys);
    AscendingUnique(SortKeys(a.keys), SortKeys(b.keys));
    PartsSame(a, b, SortKeys(a.keys));
    assert a.keys == [] <==> b.keys == [] by {
      assert forall k :: k in a.keys <==> k in b.keys;
    }
  }
}
