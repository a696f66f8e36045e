/** The policy decision point: candidates sorted by priority with denies first, then the first rule
    that matches.  Evaluating an expression for a request yields true, false or an error. */
module PolicyDecision {
  import opened Common
  import Sorting

  datatype Verdict = Yes | No | Error

  /** How each expression comes out for the request at hand. */
  type Eval = string -> Verdict

  datatype Effect = Allow | Deny

  /** An absent identifier or `unless` is the empty string; both are falsy in the source. */
  datatype Rule = Rule(id: string, effect: Effect, action: string, when: string, unless: string, priority: int)

  datatype Bundle = Bundle(name: string, policies: seq<Rule>)

  datatype Candidate = Candidate(order: nat, bundle: string, rule: Rule)

  predicate Applies(r: Rule, action: string) {
    r.action == action || r.action == "*"
  }

  predicate Matches(r: Rule, eval: Eval) {
    eval(r.when) == Yes && (r.unless == "" || eval(r.unless) == No)
  }

  // ----- candidates

  function BundleRecords(b: Bundle, action: string, n: nat): seq<Candidate>
    requires n <= |b.policies|
  {
    if n == 0 then []
    else
      var init, r := BundleRecords(b, action, n - 1), b.policies[n - 1];
      if Applies(r, action) then init + [Candidate(n - 1, b.name, r)] else init
  }

  function Records(bundles: seq<Bundle>, action: string): seq<Candidate> {
    if bundles == [] then []
    else
      var b := bundles[|bundles| - 1];
      Records(bundles[..|bundles| - 1], action) + BundleRecords(b, action, |b.policies|)
  }

  /** The sort key orders by falling priority, denies before allows, then position in the bundle. */
  predicate LessEq(a: Candidate, b: Candidate) {
    || a.rule.priority > b.rule.priority
    || (a.rule.priority == b.rule.priority &&
        (|| (a.rule.effect.Deny? && b.rule.effect.Allow?)
         || (a.rule.effect == b.rule.effect && a.order <= b.order)))
  }

  function Sort(s: seq<Candidate>): seq<Candidate> {
    Sorting.Sort(LessEq, s)
  }

  ghost predicate Sorted(s: seq<Candidate>) {
    Sorting.SortedBy(LessEq, s)
  }

  /** The candidates in evaluation order: sorted, the same candidates, ties in enumeration order. */
  lemma {:induction false} SortSorts(s: seq<Candidate>)
    ensures Sorted(Sort(s)) && multiset(Sort(s)) == multiset(s)
    ensures forall c :: c in Sort(s) <==> c in s
    ensures forall k :: Sorting.Ties(LessEq, Sort(s), k) == Sorting.Ties(LessEq, s, k)
  {
    Sorting.SortSorts(LessEq, s);
    forall k ensures Sorting.Ties(LessEq, Sort(s), k) == Sorting.Ties(LessEq, s, k) {
      Sorting.SortIsStable(LessEq, s, k);
    }
  }

  method CandidatePolicies(bundles: seq<Bundle>, action: string) returns (records: seq<Candidate>)
    ensures records == Sort(Records(bundles, action)) && multiset(records) == multiset(Records(bundles, action))
    ensures forall c :: c in records <==>
                        exists b :: b in bundles && c.bundle == b.name && c.order < |b.policies| && b.policies[c.order] == c.rule
                                    && (c.rule.action == action || c.rule.action == "*")
    ensures forall i, j :: 0 <= i < j < |records| ==>
                             || records[i].rule.priority > records[j].rule.priority
                             || (&& records[i].rule.priority == records[j].rule.priority
                                 && (|| (records[i].rule.effect == Deny && records[j].rule.effect == Allow)
                                     || (records[i].rule.effect == records[j].rule.effect && records[i].order <= records[j].order)))
  {
    records := [];
    for i := 0 to |bundles|
      invariant records == Records(bundles[..i], action)
    {
      assert bundles[..i + 1][..i] == bundles[..i];
      var b := bundles[i];
      ghost var before := records;
      for order := 0 to |b.policies|
        invariant records == before + BundleRecords(b, action, order)
      {
        var policy := b.policies[order];
        if policy.action != action && policy.action != "*" {
          continue;
        }
        records := records + [Candidate(order, b.name, policy)];
      }
    }
    assert bundles[..|bundles|] == bundles;
    SortSorts(records);
    records := Sort(records);
    forall c ensures c in records <==> Listed(bundles, action, c) {
      ListedRecords(bundles, action, c);
    }
  }

  /** Some bundle lists the rule of `c` at its position, and the rule is for the action or for any. */
  ghost predicate Listed(bundles: seq<Bundle>, action: string, c: Candidate) {
    exists b :: b in bundles && c.bundle == b.name && c.order < |b.policies| && b.policies[c.order] == c.rule
                && (c.rule.action == action || c.rule.action == "*")
  }

  lemma {:induction false} ListedBundleRecords(b: Bundle, action: string, n: nat, c: Candidate)
    requires n <= |b.policies|
    ensures c in BundleRecords(b, action, n) <==> c.bundle == b.name && c.order < n && b.policies[c.order] == c.rule
                                                  && (c.rule.action == action || c.rule.action == "*")
  {
    if n > 0 {
      ListedBundleRecords(b, action, n - 1, c);
    }
  }

  lemma {:induction false} ListedRecords(bundles: seq<Bundle>, action: string, c: Candidate)
    ensures c in Records(bundles, action) <==> Listed(bundles, action, c)
  {
    if bundles != [] {
      var init, b := bundles[..|bundles| - 1], bundles[|bundles| - 1];
      ListedRecords(init, action, c);
      ListedBundleRecords(b, action, |b.policies|, c);
      assert forall x :: x in bundles <==> x in init || x == b;
    }
  }

  // ----- evaluation

  datatype Ref = Id(id: string) | Position(bundle: string, order: nat)

  datatype RuleEvaluation = RuleEvaluation(ref: Ref, effect: Effect, priority: int, matched: bool,
                                           whenResult: Option<bool>, unlessResult: Option<bool>, error: bool, bundle: string)

  datatype Reason = ExplicitDeny | DenyByDefault

  datatype Decision = Decision(allow: bool, effect: Effect, ref: Option<Ref>, reason: Option<Reason>,
                               bundle: Option<string>, trace: seq<RuleEvaluation>)

  function RefOf(c: Candidate): Ref {
    if c.rule.id != "" then Id(c.rule.id) else Position(c.bundle, c.order)
  }

  function Traced(c: Candidate, eval: Eval): RuleEvaluation {
    var r := c.rule;
    var entry := (m: bool, w: Option<bool>, u: Option<bool>, e: bool) =>
      RuleEvaluation(RefOf(c), r.effect, r.priority, m, w, u, e, c.bundle);
    match eval(r.when)
    case Error => entry(false, None, None, true)
    case No => entry(false, Some(false), None, false)
    case Yes =>
      if r.unless == "" then entry(true, Some(true), Some(false), false)
      else match eval(r.unless)
        case Error => entry(false, Some(true), None, true)
        case Yes => entry(false, Some(true), Some(true), false)
        case No => entry(true, Some(true), Some(false), false)
  }

  /** `k` is the position of the first matching candidate, or the number of candidates. */
  ghost predicate FirstMatch(cs: seq<Candidate>, eval: Eval, k: nat) {
    && k <= |cs|
    && (forall i :: 0 <= i < k ==> !Matches(cs[i].rule, eval))
    && (k < |cs| ==> Matches(cs[k].rule, eval))
  }

  /** The decision when the first match is at position `k`. */
  function DecisionAt(cs: seq<Candidate>, eval: Eval, k: nat): Decision
    requires k <= |cs|
  {
    if k == |cs| then Decision(false, Deny, None, Some(DenyByDefault), None, Trace(cs, eval, k))
    else
      var c, trace := cs[k], Trace(cs, eval, k + 1);
      if c.rule.effect.Deny? then Decision(false, Deny, Some(RefOf(c)), Some(ExplicitDeny), Some(c.bundle), trace)
      else Decision(true, Allow, Some(RefOf(c)), None, Some(c.bundle), trace)
  }

  function Trace(cs: seq<Candidate>, eval: Eval, n: nat): seq<RuleEvaluation>
    requires n <= |cs|
  {
    seq(n, i requires 0 <= i < n => Traced(cs[i], eval))
  }

  ghost predicate DecidedByFirst(cs: seq<Candidate>, eval: Eval, d: Decision) {
    exists k: nat :: FirstMatch(cs, eval, k) && d == DecisionAt(cs, eval, k)
  }

  /** Bundle `i` lists at position `n` a rule for the action, or for any, that matches the request. */
  ghost predicate Hit(bundles: seq<Bundle>, action: string, eval: Eval, i: int, n: int) {
    && 0 <= i < |bundles| && 0 <= n < |bundles[i].policies|
    && var r := bundles[i].policies[n];
       && (r.action == action || r.action == "*")
       && eval(r.when) == Yes && (r.unless == "" || eval(r.unless) == No)
  }

  /** The rule `n` of bundle `i` goes before the rule `m` of bundle `j`: higher priority, deny before allow,
      earlier position, earlier bundle. */
  ghost predicate Outranks(bundles: seq<Bundle>, i: nat, n: nat, j: nat, m: nat)
    requires i < |bundles| && n < |bundles[i].policies| && j < |bundles| && m < |bundles[j].policies|
  {
    var r, q := bundles[i].policies[n], bundles[j].policies[m];
    || r.priority > q.priority
    || (&& r.priority == q.priority
        && (|| (r.effect == Deny && q.effect == Allow)
            || (r.effect == q.effect && (n < m || (n == m && i <= j)))))
  }

  /** The rule `n` of bundle `i` matches, and goes before all others that do. */
  ghost predicate Leads(bundles: seq<Bundle>, action: string, eval: Eval, i: int, n: int) {
    && Hit(bundles, action, eval, i, n)
    && forall j, m :: Hit(bundles, action, eval, j, m) ==> Outranks(bundles, i, n, j, m)
  }

  method Evaluate(bundles: seq<Bundle>, action: string, eval: Eval) returns (d: Decision)
    ensures DecidedByFirst(Sort(Records(bundles, action)), eval, d)
    ensures
      var rules := set b, r | b in bundles && r in b.policies && (r.action == action || r.action == "*") :: r;
      var hits := set r | r in rules && eval(r.when) == Yes && (r.unless == "" || eval(r.unless) == No);
      && (d.reason == Some(DenyByDefault) <==> hits == {})
      && (d.allow <==> exists r :: r in hits && r.effect == Allow
                                   && forall q :: q in hits && q != r ==> q.priority < r.priority || (q.priority == r.priority && q.effect == Allow))
    ensures d.reason == Some(DenyByDefault) ==> !d.allow && d.effect == Deny && d.ref == None && d.bundle == None
    ensures d.reason != Some(DenyByDefault) ==>
              exists i: nat, n: nat ::
                && Leads(bundles, action, eval, i, n)
                && var r := bundles[i].policies[n];
                   && d.effect == r.effect && (d.allow <==> r.effect == Allow)
                   && d.reason == (if r.effect == Deny then Some(ExplicitDeny) else None)
                   && d.bundle == Some(bundles[i].name)
                   && d.ref == Some(if r.id != "" then Id(r.id) else Position(bundles[i].name, n))
    ensures d.allow <==> Permitted(bundles, action, eval)
  {
    var candidates := CandidatePolicies(bundles, action);
    d := EvaluateCandidates(candidates, eval);
    ghost var k: nat :| FirstMatch(candidates, eval, k) && d == DecisionAt(candidates, eval, k);
    VerdictOverRules(bundles, action, eval, k);
    if k < |candidates| {
      LeaderDecides(bundles, action, eval, k);
    }
  }

  lemma {:induction false} LeaderDecides(bundles: seq<Bundle>, action: string, eval: Eval, k: nat)
    requires var cs := Sort(Records(bundles, action)); FirstMatch(cs, eval, k) && k < |cs|
    ensures
      var d := DecisionAt(Sort(Records(bundles, action)), eval, k);
      exists i: nat, n: nat ::
        && Leads(bundles, action, eval, i, n)
        && var r := bundles[i].policies[n];
           && d.effect == r.effect && (d.allow <==> r.effect == Allow)
           && d.reason == (if r.effect == Deny then Some(ExplicitDeny) else None)
           && d.bundle == Some(bundles[i].name)
           && d.ref == Some(if r.id != "" then Id(r.id) else Position(bundles[i].name, n))
  {
    var i := FirstMatchLeads(bundles, action, eval, k);
    assert Leads(bundles, action, eval, i, Sort(Records(bundles, action))[k].order);
  }

  /** What the first match says about the rules listed by the bundles. */
  lemma {:induction false} VerdictOverRules(bundles: seq<Bundle>, action: string, eval: Eval, k: nat)
    requires FirstMatch(Sort(Records(bundles, action)), eval, k)
    ensures
      var cs := Sort(Records(bundles, action));
      var rules := set b, r | b in bundles && r in b.policies && (r.action == action || r.action == "*") :: r;
      var hits := set r | r in rules && eval(r.when) == Yes && (r.unless == "" || eval(r.unless) == No);
      && (k == |cs| <==> hits == {})
      && (k < |cs| && cs[k].rule.effect == Allow <==>
          exists r :: r in hits && r.effect == Allow
                      && forall q :: q in hits && q != r ==> q.priority < r.priority || (q.priority == r.priority && q.effect == Allow))
      && (k < |cs| && cs[k].rule.effect == Allow <==> Permitted(bundles, action, eval))
  {
    var cs := Sort(Records(bundles, action));
    SortSorts(Records(bundles, action));
    CandidateRules(bundles, action);
    FirstMatchDecides(cs, eval, k);
    PermittedExactly(ApplicableRules(bundles, action), eval);
  }

  // ----- the first match is the leading hit

  /** The first element of `s` that ranks equal to `c` and matches. */
  ghost function FirstTied(s: seq<Candidate>, c: Candidate, eval: Eval): Option<Candidate> {
    if s == [] then None
    else
      var x := s[|s| - 1];
      match FirstTied(s[..|s| - 1], c, eval)
      case Some(f) => Some(f)
      case None => if LessEq(x, c) && LessEq(c, x) && Matches(x.rule, eval) then Some(x) else None
  }

  lemma {:induction false} FirstTiedSnoc(s: seq<Candidate>, x: Candidate, c: Candidate, eval: Eval)
    ensures FirstTied(s + [x], c, eval)
            == if FirstTied(s, c, eval) == None && LessEq(x, c) && LessEq(c, x) && Matches(x.rule, eval)
               then Some(x) else FirstTied(s, c, eval)
  {
    assert (s + [x])[..|s|] == s;
  }

  lemma {:induction false} FirstTiedOfTies(s: seq<Candidate>, c: Candidate, eval: Eval)
    ensures FirstTied(Sorting.Ties(LessEq, s, c), c, eval) == FirstTied(s, c, eval)
  {
    if s != [] {
      FirstTiedOfTies(s[..|s| - 1], c, eval);
      FirstTiedSnoc(Sorting.Ties(LessEq, s[..|s| - 1], c), s[|s| - 1], c, eval);
    }
  }

  lemma {:induction false} FirstTiedOfSorted(cs: seq<Candidate>, eval: Eval, k: nat, n: nat)
    requires FirstMatch(cs, eval, k) && k < |cs| && n <= |cs|
    ensures FirstTied(cs[..n], cs[k], eval) == if n <= k then None else Some(cs[k])
  {
    if n > 0 {
      FirstTiedOfSorted(cs, eval, k, n - 1);
      assert cs[..n][..n - 1] == cs[..n - 1];
    }
  }

  /** The rule of `b` at the position of `c` ranks equal to `c` and matches. */
  ghost predicate HasTied(b: Bundle, action: string, eval: Eval, c: Candidate) {
    && c.order < |b.policies|
    && var r := b.policies[c.order];
       && r.priority == c.rule.priority && r.effect == c.rule.effect
       && (r.action == action || r.action == "*") && Matches(r, eval)
  }

  lemma {:induction false} FirstTiedOfBundle(pre: seq<Candidate>, b: Bundle, action: string, eval: Eval, c: Candidate, n: nat)
    requires n <= |b.policies|
    ensures var found := FirstTied(pre + BundleRecords(b, action, n), c, eval);
            if FirstTied(pre, c, eval) == None && c.order < n && HasTied(b, action, eval, c)
            then found == Some(Candidate(c.order, b.name, b.policies[c.order])) else found == FirstTied(pre, c, eval)
  {
    if n == 0 {
      assert pre + BundleRecords(b, action, n) == pre;
    } else {
      FirstTiedOfBundle(pre, b, action, eval, c, n - 1);
      var init, r := pre + BundleRecords(b, action, n - 1), b.policies[n - 1];
      if Applies(r, action) {
        var x := Candidate(n - 1, b.name, r);
        FirstTiedSnoc(init, x, c, eval);
        assert pre + BundleRecords(b, action, n) == init + [x];
        assert LessEq(x, c) && LessEq(c, x) && Matches(r, eval) <==> n - 1 == c.order && HasTied(b, action, eval, c);
      }
    }
  }

  /** The first match among equals comes from the earliest bundle that has one. */
  lemma {:induction false} FirstTiedOfRecords(bundles: seq<Bundle>, action: string, eval: Eval, c: Candidate) returns (i: nat)
    ensures FirstTied(Records(bundles, action), c, eval) == None ==> forall j :: 0 <= j < |bundles| ==> !HasTied(bundles[j], action, eval, c)
    ensures FirstTied(Records(bundles, action), c, eval) != None ==>
              && i < |bundles| && HasTied(bundles[i], action, eval, c)
              && (forall j :: 0 <= j < i ==> !HasTied(bundles[j], action, eval, c))
              && FirstTied(Records(bundles, action), c, eval) == Some(Candidate(c.order, bundles[i].name, bundles[i].policies[c.order]))
  {
    i := 0;
    if bundles != [] {
      var init, b := bundles[..|bundles| - 1], bundles[|bundles| - 1];
      i := FirstTiedOfRecords(init, action, eval, c);
      FirstTiedOfBundle(Records(init, action), b, action, eval, c, |b.policies|);
      if FirstTied(Records(init, action), c, eval) == None {
        i := |init|;
      }
    }
  }

  lemma {:induction false} HitIsCandidate(bundles: seq<Bundle>, action: string, eval: Eval, j: nat, m: nat)
    requires Hit(bundles, action, eval, j, m)
    ensures Candidate(m, bundles[j].name, bundles[j].policies[m]) in Sort(Records(bundles, action))
  {
    var q := Candidate(m, bundles[j].name, bundles[j].policies[m]);
    SortSorts(Records(bundles, action));
    ListedRecords(bundles, action, q);
    assert bundles[j] in bundles && Listed(bundles, action, q);
  }

  /** No matching candidate goes before the first match. */
  lemma {:induction false} FirstMatchIsLeast(cs: seq<Candidate>, eval: Eval, k: nat, q: Candidate)
    requires Sorted(cs) && FirstMatch(cs, eval, k) && q in cs && Matches(q.rule, eval)
    ensures k < |cs| && LessEq(cs[k], q)
  {
    var l :| 0 <= l < |cs| && cs[l] == q;
    assert l == k || LessEq(cs[k], cs[l]);
  }

  lemma {:induction false} FirstMatchTied(bundles: seq<Bundle>, action: string, eval: Eval, k: nat) returns (i: nat)
    requires var cs := Sort(Records(bundles, action)); FirstMatch(cs, eval, k) && k < |cs|
    ensures
      var c := Sort(Records(bundles, action))[k];
      && i < |bundles| && HasTied(bundles[i], action, eval, c)
      && (forall j :: 0 <= j < i ==> !HasTied(bundles[j], action, eval, c))
      && c == Candidate(c.order, bundles[i].name, bundles[i].policies[c.order])
  {
    var rs := Records(bundles, action);
    var cs := Sort(rs);
    SortSorts(rs);
    FirstTiedOfSorted(cs, eval, k, |cs|);
    assert cs[..|cs|] == cs;
    FirstTiedOfTies(cs, cs[k], eval);
    FirstTiedOfTies(rs, cs[k], eval);
    i := FirstTiedOfRecords(bundles, action, eval, cs[k]);
  }

  lemma {:induction false} FirstMatchLeads(bundles: seq<Bundle>, action: string, eval: Eval, k: nat) returns (i: nat)
    requires var cs := Sort(Records(bundles, action)); FirstMatch(cs, eval, k) && k < |cs|
    ensures
      var c := Sort(Records(bundles, action))[k];
      && Leads(bundles, action, eval, i, c.order)
      && c == Candidate(c.order, bundles[i].name, bundles[i].policies[c.order])
  {
    var cs := Sort(Records(bundles, action));
    var c := cs[k];
    SortSorts(Records(bundles, action));
    i := FirstMatchTied(bundles, action, eval, k);
    forall j, m | Hit(bundles, action, eval, j, m) ensures Outranks(bundles, i, c.order, j, m) {
      HitIsCandidate(bundles, action, eval, j, m);
      FirstMatchIsLeast(cs, eval, k, Candidate(m, bundles[j].name, bundles[j].policies[m]));
      assert m == c.order && j < i ==> !HasTied(bundles[j], action, eval, c);
    }
  }

  method EvaluateCandidates(candidates: seq<Candidate>, eval: Eval) returns (d: Decision)
    ensures DecidedByFirst(candidates, eval, d)
    ensures |d.trace| <= |candidates| && forall i :: 0 <= i < |d.trace| ==> d.trace[i] == Traced(candidates[i], eval)
    ensures forall i :: 0 <= i < |d.trace| ==>
                          var r := candidates[i].rule;
                          var hit := eval(r.when) == Yes && (r.unless == "" || eval(r.unless) == No);
                          && d.trace[i].matched == hit
                          && (hit <==> i == |d.trace| - 1 && d.reason != Some(DenyByDefault))
    ensures d.reason == Some(DenyByDefault) ==> |d.trace| == |candidates| && d == Decision(false, Deny, None, Some(DenyByDefault), None, d.trace)
    ensures d.reason != Some(DenyByDefault) ==>
              && d.trace != []
              && var e := d.trace[|d.trace| - 1];
                 d == Decision(e.effect == Allow, e.effect, Some(e.ref), if e.effect == Deny then Some(ExplicitDeny) else None, Some(e.bundle), d.trace)
  {
    var trace: seq<RuleEvaluation> := [];
    for i := 0 to |candidates|
      invariant trace == Trace(candidates, eval, i)
      invariant forall j :: 0 <= j < i ==> !Matches(candidates[j].rule, eval)
    {
      var c := candidates[i];
      var evaluation := EvaluateRule(c, eval);
      trace := trace + [evaluation];
      if !evaluation.matched {
        continue;
      }
      assert FirstMatch(candidates, eval, i);
      if c.rule.effect == Deny {
        d := Decision(false, Deny, Some(RefOf(c)), Some(ExplicitDeny), Some(c.bundle), trace);
        return;
      }
      d := Decision(true, Allow, Some(RefOf(c)), None, Some(c.bundle), trace);
      return;
    }
    assert FirstMatch(candidates, eval, |candidates|);
    d := Decision(false, Deny, None, Some(DenyByDefault), None, trace);
  }

  /** The body of the loop, up to the decision. */
  method EvaluateRule(c: Candidate, eval: Eval) returns (e: RuleEvaluation)
    ensures e == Traced(c, eval)
    ensures
      var r := c.rule;
      && (e.matched <==> eval(r.when) == Yes && (r.unless == "" || eval(r.unless) == No))
      && (e.error <==> eval(r.when) == Error || (eval(r.when) == Yes && r.unless != "" && eval(r.unless) == Error))
      && e.whenResult == (if eval(r.when) == Error then None else Some(eval(r.when) == Yes))
      && e.unlessResult == (if eval(r.when) == Yes && !e.error then Some(!e.matched) else None)
      && e.effect == r.effect && e.priority == r.priority && e.bundle == c.bundle
      && e.ref == (if r.id != "" then Id(r.id) else Position(c.bundle, c.order))
  {
    var policy, ref := c.rule, RefOf(c);
    var whenResult := eval(policy.when);
    if whenResult == Error {
      return RuleEvaluation(ref, policy.effect, policy.priority, false, None, None, true, c.bundle);
    }
    if whenResult == No {
      return RuleEvaluation(ref, policy.effect, policy.priority, false, Some(false), None, false, c.bundle);
    }
    if policy.unless != "" {
      var unlessResult := eval(policy.unless);
      if unlessResult == Error {
        return RuleEvaluation(ref, policy.effect, policy.priority, false, Some(true), None, true, c.bundle);
      }
      if unlessResult == Yes {
        return RuleEvaluation(ref, policy.effect, policy.priority, false, Some(true), Some(true), false, c.bundle);
      }
    }
    return RuleEvaluation(ref, policy.effect, policy.priority, true, Some(true), Some(false), false, c.bundle);
  }

  // ----- the declarative rule

  /** All rules of any bundle that apply to the action, as a set. */
  ghost function ApplicableRules(bundles: seq<Bundle>, action: string): set<Rule> {
    set b, r | b in bundles && r in b.policies && (r.action == action || r.action == "*") :: r
  }

  /** The highest priority at which some rule matches. */
  ghost predicate TopPriority(rules: set<Rule>, eval: Eval, p: int) {
    && (exists r :: r in rules && Matches(r, eval) && r.priority == p)
    && (forall r :: r in rules && Matches(r, eval) ==> r.priority <= p)
  }

  /** Some rule matches, and no deny matches at the highest matching priority. */
  ghost predicate PermittedBy(rules: set<Rule>, eval: Eval) {
    exists p :: TopPriority(rules, eval, p) && Undenied(rules, eval, p)
  }

  ghost function RulesOf(cs: seq<Candidate>): set<Rule> {
    set c | c in cs :: c.rule
  }

  lemma {:induction false} BundleRecordRules(b: Bundle, action: string, n: nat, r: Rule)
    requires n <= |b.policies|
    ensures (exists c :: c in BundleRecords(b, action, n) && c.rule == r) <==> r in b.policies[..n] && (r.action == action || r.action == "*")
  {
    if n > 0 {
      BundleRecordRules(b, action, n - 1, r);
      var init, last := BundleRecords(b, action, n - 1), b.policies[n - 1];
      assert r in b.policies[..n] <==> r in b.policies[..n - 1] || r == last;
      var added := Candidate(n - 1, b.name, last);
      if Applies(last, action) {
        assert forall c :: c in BundleRecords(b, action, n) <==> c in init || c == added;
      }
    }
  }

  lemma {:induction false} RecordRules(bundles: seq<Bundle>, action: string, r: Rule)
    ensures (exists c :: c in Records(bundles, action) && c.rule == r) <==> r in ApplicableRules(bundles, action)
  {
    if bundles != [] {
      var init, b := bundles[..|bundles| - 1], bundles[|bundles| - 1];
      RecordRules(init, action, r);
      BundleRecordRules(b, action, |b.policies|, r);
      assert b.policies[..|b.policies|] == b.policies;
      assert forall x :: x in bundles <==> x in init || x == b;
      assert forall c :: c in Records(bundles, action) <==> c in Records(init, action) || c in BundleRecords(b, action, |b.policies|);
    }
  }

  lemma {:induction false} CandidateRules(bundles: seq<Bundle>, action: string)
    ensures RulesOf(Sort(Records(bundles, action)))
            == (set b, r | b in bundles && r in b.policies && (r.action == action || r.action == "*") :: r)
  {
    var rs := Records(bundles, action);
    SortSorts(rs);
    forall r ensures r in RulesOf(Sort(rs)) <==> r in ApplicableRules(bundles, action) {
      RecordRules(bundles, action, r);
    }
  }

  lemma {:induction false} TopAllows(rules: set<Rule>, eval: Eval) returns (r: Rule)
    requires PermittedBy(rules, eval)
    ensures r in rules && Matches(r, eval) && r.effect == Allow
    ensures forall q :: q in rules && Matches(q, eval) ==> q.priority < r.priority || (q.priority == r.priority && q.effect == Allow)
  {
    var p :| TopPriority(rules, eval, p) && Undenied(rules, eval, p);
    r :| r in rules && Matches(r, eval) && r.priority == p;
  }

  /** The rule as one condition: an allow matches, and what else matches is of lower priority, or allows too. */
  lemma {:induction false} PermittedExactly(rules: set<Rule>, eval: Eval)
    ensures
      var hits := set r | r in rules && eval(r.when) == Yes && (r.unless == "" || eval(r.unless) == No);
      PermittedBy(rules, eval) <==>
      exists r :: r in hits && r.effect == Allow
                  && forall q :: q in hits && q != r ==> q.priority < r.priority || (q.priority == r.priority && q.effect == Allow)
  {
    var hits := set r | r in rules && eval(r.when) == Yes && (r.unless == "" || eval(r.unless) == No);
    assert forall r :: r in hits <==> r in rules && Matches(r, eval);
    if PermittedBy(rules, eval) {
      var r := TopAllows(rules, eval);
      assert r in hits;
    }
    if r :| r in hits && r.effect == Allow
            && forall q :: q in hits && q != r ==> q.priority < r.priority || (q.priority == r.priority && q.effect == Allow) {
      assert TopPriority(rules, eval, r.priority) && Undenied(rules, eval, r.priority);
    }
  }

  /** First match over sorted candidates is the declarative rule. */
  lemma {:induction false} FirstMatchDecides(cs: seq<Candidate>, eval: Eval, k: nat)
    requires Sorted(cs) && FirstMatch(cs, eval, k)
    ensures k == |cs| <==> forall r :: r in RulesOf(cs) ==> !Matches(r, eval)
    ensures PermittedBy(RulesOf(cs), eval) <==> k < |cs| && cs[k].rule.effect.Allow?
  {
    if k == |cs| {
      forall r | r in RulesOf(cs) ensures !Matches(r, eval) {
        var i :| 0 <= i < |cs| && cs[i].rule == r;
      }
    } else {
      var top := cs[k].rule;
      assert cs[k] in cs && top in RulesOf(cs);
      forall r | r in RulesOf(cs) && Matches(r, eval)
        ensures r.priority < top.priority || (r.priority == top.priority && (r.effect.Deny? ==> top.effect.Deny?))
      {
        var i :| 0 <= i < |cs| && cs[i].rule == r;
        assert i == k || LessEq(cs[k], cs[i]);
      }
      assert TopPriority(RulesOf(cs), eval, top.priority);
    }
  }

  /** The verdict as a function of the bundles, for comparing runs of `Evaluate`. */
  ghost predicate Permitted(bundles: seq<Bundle>, action: string, eval: Eval) {
    PermittedBy(ApplicableRules(bundles, action), eval)
  }

  ghost function AllRules(bundles: seq<Bundle>): set<Rule> {
    set b, r | b in bundles && r in b.policies :: r
  }

  /** Only the set of rules matters: not the order or grouping of bundles, nor that of rules. */
  lemma {:induction false} EnumerationIsIrrelevant(xs: seq<Bundle>, ys: seq<Bundle>, action: string, eval: Eval)
    requires AllRules(xs) == AllRules(ys)
    ensures Permitted(xs, action, eval) <==> Permitted(ys, action, eval)
  {
    forall r ensures r in ApplicableRules(xs, action) <==> r in ApplicableRules(ys, action) {
      assert r in ApplicableRules(xs, action) <==> r in AllRules(xs) && Applies(r, action);
      assert r in ApplicableRules(ys, action) <==> r in AllRules(ys) && Applies(r, action);
    }
    assert ApplicableRules(xs, action) == ApplicableRules(ys, action);
  }

  /** The rule with the asked action in place of "*". */
  ghost function Named(r: Rule, action: string): Rule {
    if r.action == "*" then r.(action := action) else r
  }

  ghost function NamedBundle(b: Bundle, action: string): Bundle {
    b.(policies := seq(|b.policies|, i requires 0 <= i < |b.policies| => Named(b.policies[i], action)))
  }

  lemma {:induction false} NamedRules(bundles: seq<Bundle>, named: seq<Bundle>, action: string)
    requires |named| == |bundles| && forall i :: 0 <= i < |bundles| ==> named[i] == NamedBundle(bundles[i], action)
    ensures forall r :: r in ApplicableRules(bundles, action) ==> Named(r, action) in ApplicableRules(named, action)
    ensures forall q :: q in ApplicableRules(named, action) ==> exists r :: r in ApplicableRules(bundles, action) && Named(r, action) == q
  {
    forall r | r in ApplicableRules(bundles, action) ensures Named(r, action) in ApplicableRules(named, action) {
      var b :| b in bundles && r in b.policies;
      var i :| 0 <= i < |bundles| && bundles[i] == b;
      var n :| 0 <= n < |b.policies| && b.policies[n] == r;
      assert named[i] in named && named[i].policies[n] == Named(r, action);
    }
    forall q | q in ApplicableRules(named, action) ensures exists r :: r in ApplicableRules(bundles, action) && Named(r, action) == q {
      var b :| b in named && q in b.policies;
      var i :| 0 <= i < |named| && named[i] == b;
      var n :| 0 <= n < |b.policies| && b.policies[n] == q;
      var r := bundles[i].policies[n];
      assert bundles[i] in bundles && r in bundles[i].policies && Named(r, action) == q;
    }
  }

  /** "*" stands for whatever action is asked: with the action in its place in every rule, the verdict is the same. */
  lemma {:induction false} WildcardMeansAny(bundles: seq<Bundle>, named: seq<Bundle>, action: string, eval: Eval)
    requires |named| == |bundles| && forall i :: 0 <= i < |bundles| ==> named[i] == NamedBundle(bundles[i], action)
    ensures Permitted(named, action, eval) <==> Permitted(bundles, action, eval)
  {
    var rules, others := ApplicableRules(bundles, action), ApplicableRules(named, action);
    NamedRules(bundles, named, action);
    forall p ensures TopPriority(rules, eval, p) <==> TopPriority(others, eval, p) {
      TopNamed(rules, others, action, eval, p);
    }
    assert forall p :: Undenied(rules, eval, p) <==> Undenied(others, eval, p);
  }

  lemma {:induction false} TopNamed(rules: set<Rule>, others: set<Rule>, action: string, eval: Eval, p: int)
    requires forall r :: r in rules ==> Named(r, action) in others
    requires forall q :: q in others ==> exists r :: r in rules && Named(r, action) == q
    ensures TopPriority(rules, eval, p) <==> TopPriority(others, eval, p)
  {
    assert forall r :: Matches(Named(r, action), eval) == Matches(r, eval) && Named(r, action).priority == r.priority;
    if r :| r in rules && Matches(r, eval) && r.priority == p {
      assert Named(r, action) in others && Matches(Named(r, action), eval);
    }
  }

  /** No deny matches at priority `p`. */
  ghost predicate Undenied(rules: set<Rule>, eval: Eval, p: int) {
    forall r :: r in rules && Matches(r, eval) && r.priority == p ==> r.effect.Allow?
  }

  /** Adding a deny rule never turns deny into allow. */
  lemma {:induction false} AddingDenyNeverAllows(rules: set<Rule>, eval: Eval, d: Rule)
    requires d.effect.Deny?
    ensures PermittedBy(rules + {d}, eval) ==> PermittedBy(rules, eval)
  {
    if p :| TopPriority(rules + {d}, eval, p) && Undenied(rules + {d}, eval, p) {
      var r :| r in rules + {d} && Matches(r, eval) && r.priority == p;
      assert r in rules && TopPriority(rules, eval, p) && Undenied(rules, eval, p);
    }
  }

  /** Adding an allow rule never turns allow into deny. */
  lemma {:induction false} AddingAllowNeverDenies(rules: set<Rule>, eval: Eval, a: Rule)
    requires a.effect.Allow? && PermittedBy(rules, eval)
    ensures PermittedBy(rules + {a}, eval)
  {
    var p :| TopPriority(rules, eval, p) && Undenied(rules, eval, p);
    var top := if Matches(a, eval) && a.priority > p then a.priority else p;
    assert TopPriority(rules + {a}, eval, top) by {
      var r :| r in rules && Matches(r, eval) && r.priority == p;
      assert r in rules + {a} && a in rules + {a};
    }
    forall r | r in rules + {a} && Matches(r, eval) && r.priority == top ensures r.effect.Allow? {
      if r != a {
        assert r in rules && r.priority <= p;
      }
    }
  }
}
