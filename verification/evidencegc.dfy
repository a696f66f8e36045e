/** Evidence garbage collection: which files of a listing `run` selects for deletion. */
module EvidenceGC {
  import opened Common
  import opened Dicts
  import Sorting

  const DAY := 86400

  /** An absent tenant is empty; an unparsable modification time counts as the epoch. */
  datatype File = File(path: string, tenant: string, tier: Option<string>, mtime: int)

  datatype Config = Config(retentionDays: map<string, int>, keepMin: int, excluded: string -> bool)

  function TierOf(f: File): string {
    f.tier.GetOr("WIP")
  }

  function TenantOf(f: File): string {
    if f.tenant == "" then "__global__" else f.tenant
  }

  function Retention(cfg: Config, tier: string): int {
    if tier in cfg.retentionDays then cfg.retentionDays[tier]
    else if "WIP" in cfg.retentionDays then cfg.retentionDays["WIP"]
    else 7
  }

  /** Not locked, not excluded, and older than its tier's retention. */
  predicate Eligible(cfg: Config, now: int, f: File) {
    && TierOf(f) != "LOCKED"
    && !cfg.excluded(f.path)
    && f.mtime <= now - Retention(cfg, TierOf(f)) * DAY
  }

  predicate Older(a: File, b: File) {
    a.mtime <= b.mtime
  }

  function CountOf(fs: seq<File>, tenant: string): nat {
    if fs == [] then 0 else CountOf(fs[..|fs| - 1], tenant) + if TenantOf(fs[|fs| - 1]) == tenant then 1 else 0
  }

  /** The files selected among `fs`, where each tenant holds `counts(tenant)` files in all. */
  function Chosen(cfg: Config, now: int, counts: string -> int, fs: seq<File>): seq<File> {
    if fs == [] then []
    else
      var init, f := Chosen(cfg, now, counts, fs[..|fs| - 1]), fs[|fs| - 1];
      if Eligible(cfg, now, f) && counts(TenantOf(f)) - CountOf(init, TenantOf(f)) > cfg.keepMin then init + [f] else init
  }

  function Counts(fs: seq<File>): string -> int {
    (t: string) => CountOf(fs, t) as int
  }

  /** What `run` selects from a listing. */
  function Selected(cfg: Config, now: int, listing: seq<File>): seq<File> {
    var files := Sorting.Sort(Older, listing);
    Chosen(cfg, now, Counts(files), files)
  }

  function Paths(fs: seq<File>): seq<string> {
    seq(|fs|, i requires 0 <= i < |fs| => fs[i].path)
  }

  function Get(m: map<string, nat>, k: string): nat {
    if k in m then m[k] else 0
  }

  /** The table holds the number of files of each tenant. */
  ghost predicate Tallies(m: map<string, nat>, fs: seq<File>) {
    forall t :: Get(m, t) == CountOf(fs, t)
  }

  lemma {:induction false} TalliesSnoc(m: map<string, nat>, fs: seq<File>, f: File)
    requires Tallies(m, fs)
    ensures Tallies(m[TenantOf(f) := Get(m, TenantOf(f)) + 1], fs + [f])
  {
    var more, m' := fs + [f], m[TenantOf(f) := Get(m, TenantOf(f)) + 1];
    assert more[..|fs|] == fs;
    forall t ensures Get(m', t) == CountOf(more, t) {
      assert Get(m, t) == CountOf(fs, t);
    }
  }

  lemma {:induction false} PathsSnoc(fs: seq<File>, f: File)
    ensures Paths(fs + [f]) == Paths(fs) + [f.path]
  {}

  method Run(cfg: Config, now: int, listing: seq<File>) returns (candidates: seq<string>)
    ensures |candidates| == |Selected(cfg, now, listing)|
    ensures forall i :: 0 <= i < |candidates| ==> candidates[i] == Selected(cfg, now, listing)[i].path
  {
    var files := Sorting.Sort(Older, listing);
    var tenantCounts: map<string, nat> := map[];
    for i := 0 to |files|
      invariant Tallies(tenantCounts, files[..i])
    {
      assert files[..i + 1] == files[..i] + [files[i]];
      TalliesSnoc(tenantCounts, files[..i], files[i]);
      var t := TenantOf(files[i]);
      tenantCounts := tenantCounts[t := Get(tenantCounts, t) + 1];
    }
    assert files[..|files|] == files;
    candidates := SelectCandidates(cfg, now, files, tenantCounts);
  }

  method SelectCandidates(cfg: Config, now: int, files: seq<File>, tenantCounts: map<string, nat>) returns (candidates: seq<string>)
    requires Tallies(tenantCounts, files)
    ensures candidates == Paths(Chosen(cfg, now, Counts(files), files))
  {
    candidates := [];
    var deletedCounts: map<string, nat> := map[];
    for i := 0 to |files|
      invariant Selecting(cfg, now, files, i, candidates, deletedCounts)
    {
      SelectingNext(cfg, now, files, i, candidates, deletedCounts);
      var f := files[i];
      var tier := TierOf(f);
      if tier == "LOCKED" {
        continue;
      }
      if cfg.excluded(f.path) {
        continue;
      }
      if f.mtime > now - Retention(cfg, tier) * DAY {
        continue;
      }
      var tenant := TenantOf(f);
      var remaining := Get(tenantCounts, tenant) - Get(deletedCounts, tenant);
      if remaining <= cfg.keepMin {
        continue;
      }
      candidates := candidates + [f.path];
      deletedCounts := deletedCounts[tenant := Get(deletedCounts, tenant) + 1];
    }
    assert files[..|files|] == files;
  }

  /** The state of the loop after `i` files: the paths chosen so far, and how many of each tenant. */
  ghost predicate Selecting(cfg: Config, now: int, files: seq<File>, i: nat, candidates: seq<string>, deleted: map<string, nat>)
    requires i <= |files|
  {
    var chosen := Chosen(cfg, now, Counts(files), files[..i]);
    candidates == Paths(chosen) && Tallies(deleted, chosen)
  }

  lemma {:induction false} SelectingNext(cfg: Config, now: int, files: seq<File>, i: nat, candidates: seq<string>, deleted: map<string, nat>)
    requires i < |files| && Selecting(cfg, now, files, i, candidates, deleted)
    ensures var f := files[i];
      var tenant := TenantOf(f);
      if Eligible(cfg, now, f) && CountOf(files, tenant) - Get(deleted, tenant) > cfg.keepMin
      then Selecting(cfg, now, files, i + 1, candidates + [f.path], deleted[tenant := Get(deleted, tenant) + 1])
      else Selecting(cfg, now, files, i + 1, candidates, deleted)
  {
    var chosen, f := Chosen(cfg, now, Counts(files), files[..i]), files[i];
    ChosenStep(cfg, now, Counts(files), files, i);
    assert Counts(files)(TenantOf(f)) - CountOf(chosen, TenantOf(f)) == CountOf(files, TenantOf(f)) - Get(deleted, TenantOf(f));
    TalliesSnoc(deleted, chosen, f);
    PathsSnoc(chosen, f);
  }

  lemma {:induction false} ChosenStep(cfg: Config, now: int, counts: string -> int, files: seq<File>, i: nat)
    requires i < |files|
    ensures var chosen, f := Chosen(cfg, now, counts, files[..i]), files[i];
      Chosen(cfg, now, counts, files[..i + 1])
      == if Eligible(cfg, now, f) && counts(TenantOf(f)) - CountOf(chosen, TenantOf(f)) > cfg.keepMin then chosen + [f] else chosen
  {
    assert files[..i + 1][..i] == files[..i];
  }

  // ----- the selection in closed form

  /** The eligible files of a tenant, in order. */
  function EligibleOf(cfg: Config, now: int, fs: seq<File>, tenant: string): seq<File> {
    if fs == [] then []
    else
      var init, f := EligibleOf(cfg, now, fs[..|fs| - 1], tenant), fs[|fs| - 1];
      if Eligible(cfg, now, f) && TenantOf(f) == tenant then init + [f] else init
  }

  /** The files of a tenant, in order. */
  function OfTenant(fs: seq<File>, tenant: string): seq<File> {
    if fs == [] then []
    else
      var init, f := OfTenant(fs[..|fs| - 1], tenant), fs[|fs| - 1];
      if TenantOf(f) == tenant then init + [f] else init
  }

  /** How many files a tenant may lose. */
  function Quota(cfg: Config, count: int): nat {
    if count > cfg.keepMin then (if cfg.keepMin >= 0 then count - cfg.keepMin else if count >= 0 then count else 0) else 0
  }

  function AtMost(n: nat, k: nat): nat {
    if n < k then n else k
  }

  lemma {:induction false} OfTenantLength(fs: seq<File>, tenant: string)
    ensures |OfTenant(fs, tenant)| == CountOf(fs, tenant)
  {
    if fs != [] {
      OfTenantLength(fs[..|fs| - 1], tenant);
    }
  }

  lemma {:induction false} EligibleAtMostCount(cfg: Config, now: int, fs: seq<File>, tenant: string)
    ensures |EligibleOf(cfg, now, fs, tenant)| <= CountOf(fs, tenant)
  {
    if fs != [] {
      EligibleAtMostCount(cfg, now, fs[..|fs| - 1], tenant);
    }
  }

  /** Of each tenant, the first `Quota` eligible files in order are chosen, and no others. */
  lemma {:induction false} ChosenAreFirstEligible(cfg: Config, now: int, counts: string -> int, fs: seq<File>,
          tenant: string)
    requires CountOf(fs, tenant) <= counts(tenant)
    ensures var eligible := EligibleOf(cfg, now, fs, tenant);
      OfTenant(Chosen(cfg, now, counts, fs), tenant) == eligible[..AtMost(|eligible|, Quota(cfg, counts(tenant)))]
  {
    if fs != [] {
      var init, f := fs[..|fs| - 1], fs[|fs| - 1];
      ChosenAreFirstEligible(cfg, now, counts, init, tenant);
      var chosen, eligible := Chosen(cfg, now, counts, init), EligibleOf(cfg, now, init, tenant);
      OfTenantLength(chosen, tenant);
      EligibleAtMostCount(cfg, now, init, tenant);
      assert (chosen + [f])[..|chosen|] == chosen;
      assert CountOf(chosen, tenant) == AtMost(|eligible|, Quota(cfg, counts(tenant)));
      OneMoreEligible(eligible, f, Quota(cfg, counts(tenant)));
    }
  }

  lemma {:induction false} OneMoreEligible(eligible: seq<File>, f: File, quota: nat)
    ensures var before, after := eligible[..AtMost(|eligible|, quota)], (eligible + [f])[..AtMost(|eligible| + 1, quota)];
      after == if |eligible| < quota then before + [f] else before
  {}

  lemma {:induction false} EligibleMembers(cfg: Config, now: int, fs: seq<File>, tenant: string)
    ensures forall f :: f in EligibleOf(cfg, now, fs, tenant) <==> f in fs && Eligible(cfg, now, f) && TenantOf(f) == tenant
    ensures forall f :: f in OfTenant(fs, tenant) <==> f in fs && TenantOf(f) == tenant
  {
    if fs != [] {
      EligibleMembers(cfg, now, fs[..|fs| - 1], tenant);
      assert forall f :: f in fs <==> f in fs[..|fs| - 1] || f == fs[|fs| - 1];
    }
  }

  lemma {:induction false} EligibleSorted(cfg: Config, now: int, fs: seq<File>, tenant: string)
    requires Sorting.SortedBy(Older, fs)
    ensures Sorting.SortedBy(Older, EligibleOf(cfg, now, fs, tenant))
  {
    if fs != [] {
      var init, f := fs[..|fs| - 1], fs[|fs| - 1];
      EligibleSorted(cfg, now, init, tenant);
      EligibleMembers(cfg, now, init, tenant);
      forall g | g in EligibleOf(cfg, now, init, tenant) ensures Older(g, f) {
        var i :| 0 <= i < |init| && init[i] == g;
        assert Older(fs[i], fs[|fs| - 1]);
      }
    }
  }

  function AddTo(tenant: string): (int, File) -> int {
    (s: int, f: File) => s + if TenantOf(f) == tenant then 1 else 0
  }

  lemma {:induction false} CountIsFold(fs: seq<File>, tenant: string)
    ensures CountOf(fs, tenant) == Fold(AddTo(tenant), 0, fs)
  {
    if fs != [] {
      CountIsFold(fs[..|fs| - 1], tenant);
    }
  }

  lemma {:induction false} CountPermutes(xs: seq<File>, ys: seq<File>, tenant: string)
    requires multiset(xs) == multiset(ys)
    ensures CountOf(xs, tenant) == CountOf(ys, tenant)
  {
    FoldPermutes(AddTo(tenant), 0, xs, ys);
    CountIsFold(xs, tenant);
    CountIsFold(ys, tenant);
  }

  lemma {:induction false} CountAppend(xs: seq<File>, ys: seq<File>, tenant: string)
    ensures CountOf(xs + ys, tenant) == CountOf(xs, tenant) + CountOf(ys, tenant)
  {
    if ys == [] {
      assert xs + ys == xs;
    } else {
      assert (xs + ys)[..|xs + ys| - 1] == xs + ys[..|ys| - 1];
      CountAppend(xs, ys[..|ys| - 1], tenant);
    }
  }

  /** The selection of one tenant: its oldest eligible files, as many as the quota allows. */
  lemma {:induction false} SelectedOfTenant(cfg: Config, now: int, listing: seq<File>, tenant: string)
    returns (eligible: seq<File>)
    ensures eligible == EligibleOf(cfg, now, Sorting.Sort(Older, listing), tenant) && Sorting.SortedBy(Older, eligible)
    ensures forall f :: f in eligible <==> f in listing && Eligible(cfg, now, f) && TenantOf(f) == tenant
    ensures |eligible| <= CountOf(listing, tenant)
    ensures OfTenant(Selected(cfg, now, listing), tenant) == eligible[..AtMost(|eligible|, Quota(cfg, CountOf(listing, tenant)))]
  {
    var files := Sorting.Sort(Older, listing);
    Sorting.SortSorts(Older, listing);
    eligible := EligibleOf(cfg, now, files, tenant);
    EligibleSorted(cfg, now, files, tenant);
    EligibleMembers(cfg, now, files, tenant);
    EligibleAtMostCount(cfg, now, files, tenant);
    CountPermutes(files, listing, tenant);
    ChosenAreFirstEligible(cfg, now, Counts(files), files, tenant);
  }

  // ----- the promises

  /** The days a file is kept: what its tier is given, else what "WIP" is given, else a week; no tier is "WIP". */
  ghost predicate KeptFor(cfg: Config, f: File, days: int) {
    if f.tier.Some? && f.tier.value in cfg.retentionDays then days == cfg.retentionDays[f.tier.value]
    else if "WIP" in cfg.retentionDays then days == cfg.retentionDays["WIP"]
    else days == 7
  }

  /** A file may go: it is not locked, no pattern excludes it, and it is as old as the days it is kept for. */
  ghost predicate MayGo(cfg: Config, now: int, f: File) {
    && f.tier != Some("LOCKED")
    && !cfg.excluded(f.path)
    && exists days :: KeptFor(cfg, f, days) && now - f.mtime >= days * 24 * 60 * 60
  }

  lemma {:induction false} MayGoIsEligible(cfg: Config, now: int, f: File)
    ensures MayGo(cfg, now, f) <==> Eligible(cfg, now, f)
  {
    assert KeptFor(cfg, f, Retention(cfg, TierOf(f)));
  }

  /** Files without a tenant are held for "__global__". */
  ghost predicate HeldFor(f: File, tenant: string) {
    if f.tenant == "" then tenant == "__global__" else f.tenant == tenant
  }

  ghost function HeldAt(fs: seq<File>, tenant: string): set<int> {
    set i | 0 <= i < |fs| && HeldFor(fs[i], tenant)
  }

  /** How many of the files are held for `tenant`. */
  ghost function Holding(fs: seq<File>, tenant: string): nat {
    |HeldAt(fs, tenant)|
  }

  lemma {:induction false} HeldAtSnoc(fs: seq<File>, tenant: string)
    requires fs != []
    ensures Holding(fs, tenant) == Holding(fs[..|fs| - 1], tenant) + if HeldFor(fs[|fs| - 1], tenant) then 1 else 0
  {
    var n := |fs| - 1;
    if HeldFor(fs[n], tenant) {
      assert HeldAt(fs, tenant) == HeldAt(fs[..n], tenant) + {n} && n !in HeldAt(fs[..n], tenant);
    } else {
      assert HeldAt(fs, tenant) == HeldAt(fs[..n], tenant);
    }
  }

  lemma {:induction false} HoldingIsCount(fs: seq<File>, tenant: string)
    ensures Holding(fs, tenant) == CountOf(fs, tenant)
  {
    if fs == [] {
      assert HeldAt(fs, tenant) == {};
    } else {
      HeldAtSnoc(fs, tenant);
      HoldingIsCount(fs[..|fs| - 1], tenant);
    }
  }

  /** Nothing locked, excluded or unexpired is ever selected. */
  lemma {:induction false} OnlyEligibleSelected(cfg: Config, now: int, listing: seq<File>, f: File)
    requires f in Selected(cfg, now, listing)
    ensures f in listing && f.tier != Some("LOCKED") && !cfg.excluded(f.path)
    ensures var tier := if f.tier == None then "WIP" else f.tier.value;
            var days := if tier in cfg.retentionDays then cfg.retentionDays[tier]
                        else if "WIP" in cfg.retentionDays then cfg.retentionDays["WIP"] else 7;
            now - f.mtime >= days * 24 * 60 * 60
    ensures MayGo(cfg, now, f)
  {
    var eligible := SelectedOfTenant(cfg, now, listing, TenantOf(f));
    EligibleMembers(cfg, now, Selected(cfg, now, listing), TenantOf(f));
    MayGoIsEligible(cfg, now, f);
  }

  /** Oldest first, and no listed file more often than it is listed. */
  lemma {:induction false} SelectedInOrder(cfg: Config, now: int, listing: seq<File>)
    ensures var gone := Selected(cfg, now, listing);
      && (forall i, j :: 0 <= i < j < |gone| ==> gone[i].mtime <= gone[j].mtime)
      && multiset(gone) <= multiset(listing)
  {
    var files := Sorting.Sort(Older, listing);
    Sorting.SortSorts(Older, listing);
    ChosenInOrder(cfg, now, Counts(files), files);
    ChosenAreListed(cfg, now, Counts(files), files);
  }

  lemma {:induction false} ChosenAreListed(cfg: Config, now: int, counts: string -> int, fs: seq<File>)
    ensures multiset(Chosen(cfg, now, counts, fs)) <= multiset(fs)
  {
    if fs != [] {
      ChosenAreListed(cfg, now, counts, fs[..|fs| - 1]);
      assert fs == fs[..|fs| - 1] + [fs[|fs| - 1]];
    }
  }

  lemma {:induction false} ChosenInOrder(cfg: Config, now: int, counts: string -> int, fs: seq<File>)
    requires Sorting.SortedBy(Older, fs)
    ensures Sorting.SortedBy(Older, Chosen(cfg, now, counts, fs))
  {
    if fs != [] {
      var n := |fs| - 1;
      var init := Chosen(cfg, now, counts, fs[..n]);
      ChosenInOrder(cfg, now, counts, fs[..n]);
      ChosenAreListed(cfg, now, counts, fs[..n]);
      forall g | g in init ensures Older(g, fs[n]) {
        assert g in multiset(fs[..n]);
        var i :| 0 <= i < n && fs[i] == g;
        assert Older(fs[i], fs[n]);
      }
      Sorting.SortedSnoc(Older, init, fs[n]);
    }
  }

  /** Every tenant keeps at least min(its count, keep_min) files. */
  lemma {:induction false} KeepsMinimum(cfg: Config, now: int, listing: seq<File>, tenant: string)
    ensures var left := Holding(listing, tenant) - Holding(Selected(cfg, now, listing), tenant);
      left >= Holding(listing, tenant) || left >= cfg.keepMin
    ensures Holding(Selected(cfg, now, listing), tenant) <= Holding(listing, tenant)
  {
    var eligible := SelectedOfTenant(cfg, now, listing, tenant);
    OfTenantLength(Selected(cfg, now, listing), tenant);
    HoldingIsCount(listing, tenant);
    HoldingIsCount(Selected(cfg, now, listing), tenant);
  }

  /** Oldest first: whatever is spared for the minimum is no older than anything selected. */
  lemma {:induction false} OldestFirst(cfg: Config, now: int, listing: seq<File>, t: string, gone: File, spared: File)
    requires gone in Selected(cfg, now, listing) && spared in listing && spared !in Selected(cfg, now, listing)
    requires HeldFor(gone, t) && HeldFor(spared, t) && MayGo(cfg, now, spared)
    ensures gone.mtime <= spared.mtime
  {
    MayGoIsEligible(cfg, now, spared);
    var eligible := SelectedOfTenant(cfg, now, listing, t);
    EligibleMembers(cfg, now, Selected(cfg, now, listing), t);
    var k := AtMost(|eligible|, Quota(cfg, CountOf(listing, t)));
    assert gone in eligible[..k] && spared in eligible && spared !in eligible[..k];
    var i :| 0 <= i < k && eligible[i] == gone;
    var j :| 0 <= j < |eligible| && eligible[j] == spared;
    assert forall m :: 0 <= m < k ==> eligible[..k][m] == eligible[m];
    assert j >= k;
    assert Older(eligible[i], eligible[j]);
  }

  /** Maximal: a file that may go is spared only when its tenant is down to the minimum. */
  lemma {:induction false} SparedOnlyAtMinimum(cfg: Config, now: int, listing: seq<File>, t: string, spared: File)
    requires spared in listing && spared !in Selected(cfg, now, listing)
    requires HeldFor(spared, t) && MayGo(cfg, now, spared)
    ensures Holding(listing, t) - Holding(Selected(cfg, now, listing), t) <= cfg.keepMin
  {
    MayGoIsEligible(cfg, now, spared);
    var eligible := SelectedOfTenant(cfg, now, listing, t);
    EligibleMembers(cfg, now, Selected(cfg, now, listing), t);
    OfTenantLength(Selected(cfg, now, listing), t);
    HoldingIsCount(listing, t);
    HoldingIsCount(Selected(cfg, now, listing), t);
    assert spared in eligible;
    assert eligible[..|eligible|] == eligible;
  }

  /** Fixpoint: after deleting the selection, a second run at the same instant, over the remaining
      files listed in any order, selects nothing. */
  lemma {:induction false} SecondRunSelectsNothing(cfg: Config, now: int, listing: seq<File>, left: seq<File>)
    requires multiset(Selected(cfg, now, listing) + left) == multiset(listing)
    requires NoDup(listing)
    ensures Selected(cfg, now, left) == []
  {
    var gone := Selected(cfg, now, listing);
    if Selected(cfg, now, left) != [] {
      var f := Selected(cfg, now, left)[0];
      var t := TenantOf(f);
      OnlyEligibleSelected(cfg, now, left, f);
      LeftIsSpared(listing, gone, left, f);
      SparedOnlyAtMinimum(cfg, now, listing, t, f);
      HoldingIsCount(listing, t);
      HoldingIsCount(gone, t);
      CountPermutes(gone + left, listing, t);
      CountAppend(gone, left, t);
      var eligible := SelectedOfTenant(cfg, now, left, t);
      EligibleMembers(cfg, now, Selected(cfg, now, left), t);
    }
  }

  lemma {:induction false} LeftIsSpared(listing: seq<File>, gone: seq<File>, left: seq<File>, f: File)
    requires multiset(gone + left) == multiset(listing) && NoDup(listing) && f in left
    ensures f in listing && f !in gone
  {
    PermutationKeepsNoDup(listing, gone + left);
    assert f in multiset(gone + left);
    var all := gone + left;
    var j :| 0 <= j < |left| && left[j] == f;
    assert all[|gone| + j] == f;
    forall i | 0 <= i < |gone| ensures gone[i] != f {
      assert all[i] == gone[i];
    }
  }
}
