/** The lineage graph: two mirrored adjacency maps and a queue-based breadth-first search. */
module Lineage {
  import opened Common

  type Node = string
  type Adjacency = map<Node, set<Node>>

  /** The order in which the neighbours of each node come out of its set. */
  type Order = Node -> seq<Node>

  function Neighbours(adj: Adjacency, n: Node): set<Node> {
    if n in adj then adj[n] else {}
  }

  ghost predicate Enumerates(order: Order, adj: Adjacency) {
    forall n :: NoDup(order(n)) && Elements(order(n)) == Neighbours(adj, n)
  }

  ghost predicate Mirrored(down: Adjacency, up: Adjacency) {
    forall u, d :: d in Neighbours(down, u) <==> u in Neighbours(up, d)
  }

  // ----- specification by walks

  /** A walk of exactly `n` edges from `a` to `b`. */
  ghost predicate Walk(adj: Adjacency, a: Node, b: Node, n: nat)
    decreases n
  {
    if n == 0 then a == b else exists m :: Walk(adj, a, m, n - 1) && b in Neighbours(adj, m)
  }

  ghost predicate Reachable(adj: Adjacency, a: Node, b: Node) {
    exists n: nat :: n >= 1 && Walk(adj, a, b, n)
  }

  ghost predicate IsDistance(adj: Adjacency, a: Node, b: Node, n: nat) {
    n >= 1 && Walk(adj, a, b, n) && forall m: nat :: 1 <= m < n ==> !Walk(adj, a, b, m)
  }

  lemma {:induction false} DistanceExists(adj: Adjacency, a: Node, b: Node, n: nat)
    requires n >= 1 && Walk(adj, a, b, n)
    ensures exists d :: IsDistance(adj, a, b, d)
    decreases n
  {
    if m: nat :| 1 <= m < n && Walk(adj, a, b, m) {
      DistanceExists(adj, a, b, m);
    } else {
      assert IsDistance(adj, a, b, n);
    }
  }

  /** Edges on a shortest non-empty walk. */
  ghost function Distance(adj: Adjacency, a: Node, b: Node): (d: nat)
    requires Reachable(adj, a, b)
    ensures IsDistance(adj, a, b, d)
  {
    var n: nat :| n >= 1 && Walk(adj, a, b, n);
    DistanceExists(adj, a, b, n);
    var d: nat :| IsDistance(adj, a, b, d);
    d
  }

  // ----- the search as a function

  /** The members of `ns` not yet visited, in order. */
  function Fresh(ns: seq<Node>, visited: set<Node>): seq<Node> {
    if ns == [] then []
    else
      var rest := Fresh(ns[..|ns| - 1], visited);
      if ns[|ns| - 1] in visited then rest else rest + [ns[|ns| - 1]]
  }

  lemma {:induction false} FreshElements(ns: seq<Node>, visited: set<Node>)
    ensures Elements(Fresh(ns, visited)) == Elements(ns) - visited
    ensures NoDup(ns) ==> NoDup(Fresh(ns, visited))
  {
    if ns != [] {
      var n := |ns| - 1;
      FreshElements(ns[..n], visited);
      assert Elements(ns) == Elements(ns[..n]) + {ns[n]};
      var rest := Fresh(ns[..n], visited);
      assert Elements(rest + [ns[n]]) == Elements(rest) + {ns[n]};
      if NoDup(ns) {
        assert forall x :: x in rest ==> x in Elements(rest);
      }
    }
  }

  ghost function Targets(adj: Adjacency): set<Node> {
    set k, x | k in adj && x in adj[k] :: x
  }

  /** `found` lists the visited nodes in visiting order. */
  ghost predicate Visiting(adj: Adjacency, found: seq<Node>) {
    NoDup(found) && Elements(found) <= Targets(adj)
  }

  lemma {:induction false} VisitingBound(adj: Adjacency, found: seq<Node>)
    requires Visiting(adj, found)
    ensures |found| <= |Targets(adj)|
  {
    NoDupLength(found);
    SubsetSize(Elements(found), Targets(adj));
  }

  /** The node processed at step `h`: the start first, then the visited nodes in order. */
  ghost function Processed(start: Node, found: seq<Node>, h: nat): Node
    requires h <= |found|
  {
    if h == 0 then start else found[h - 1]
  }

  /** The nodes discovered at step `h`. */
  ghost function Discovered(order: Order, start: Node, found: seq<Node>, h: nat): seq<Node>
    requires h <= |found|
  {
    Fresh(order(Processed(start, found, h)), Elements(found))
  }

  lemma {:induction false} VisitingStep(order: Order, adj: Adjacency, start: Node, found: seq<Node>, h: nat)
    requires Enumerates(order, adj) && Visiting(adj, found) && h <= |found|
    ensures var found' := found + Discovered(order, start, found, h);
      && Visiting(adj, found') && |found'| <= |Targets(adj)|
      && Elements(found') == Elements(found) + Neighbours(adj, Processed(start, found, h))
    ensures Elements(Discovered(order, start, found, h)) <= Neighbours(adj, Processed(start, found, h))
  {
    var new' := Discovered(order, start, found, h);
    FreshElements(order(Processed(start, found, h)), Elements(found));
    ElementsOfConcat(found, new');
    VisitingBound(adj, found + new');
  }

  /** Everything visited once every step from `h` on has been taken. */
  ghost function Sweep(order: Order, adj: Adjacency, start: Node, found: seq<Node>, h: nat): (r: seq<Node>)
    requires Enumerates(order, adj) && Visiting(adj, found) && h <= |found| + 1
    ensures found <= r
    decreases |Targets(adj)| + 1 - h
  {
    if h == |found| + 1 then found
    else
      VisitingStep(order, adj, start, found, h);
      Sweep(order, adj, start, found + Discovered(order, start, found, h), h + 1)
  }

  ghost function FullSearch(order: Order, adj: Adjacency, start: Node): seq<Node>
    requires Enumerates(order, adj)
  {
    Sweep(order, adj, start, [], 0)
  }

  /** One step of the sweep, with what it discovers. */
  lemma {:induction false} SweepStep(order: Order, adj: Adjacency, start: Node, found: seq<Node>, h: nat,
          new': seq<Node>)
    requires Enumerates(order, adj) && Visiting(adj, found) && h <= |found| && new' == Discovered(order, start, found, h)
    ensures Visiting(adj, found + new') && |found + new'| <= |Targets(adj)|
    ensures Sweep(order, adj, start, found, h) == Sweep(order, adj, start, found + new', h + 1)
    ensures found + new' <= Sweep(order, adj, start, found, h)
    ensures forall x :: x in new' ==> x in Neighbours(adj, Processed(start, found, h))
    ensures forall x :: x in Neighbours(adj, Processed(start, found, h)) ==> x in found + new'
  {
    VisitingStep(order, adj, start, found, h);
    assert forall x :: x in new' ==> x in Elements(new');
    assert forall x :: x in Elements(found + new') ==> x in found + new';
  }

  /** The first results up to the limit: all of them without a limit, and at least one if there is any. */
  ghost predicate FirstUpTo(limit: Option<int>, all: seq<Node>, r: seq<Node>) {
    && r <= all
    && (limit == None ==> r == all)
    && (limit.Some? && limit.value >= 1 ==> |r| == if limit.value < |all| then limit.value else |all|)
    && (limit.Some? && limit.value < 1 ==> |r| == if all == [] then 0 else 1)
  }

  // ----- the search as the code runs it

  method Bfs(start: Node, adjacency: Adjacency, order: Order, limit: Option<int>) returns (result: seq<Node>)
    requires Enumerates(order, adjacency)
    ensures FirstUpTo(limit, FullSearch(order, adjacency, start), result)
  {
    var visited: set<Node> := {};
    var queue := [start];
    result := [];
    ghost var all := FullSearch(order, adjacency, start);
    ghost var h := 0;
    while queue != []
      invariant h <= |result| + 1 && queue == ([start] + result)[h..]
      invariant Visiting(adjacency, result) && visited == Elements(result)
      invariant Sweep(order, adjacency, start, result, h) == all
      invariant limit.Some? ==> result == [] || |result| < limit.value
      decreases |Targets(adjacency)| + 1 - h
    {
      var current := queue[0];
      ghost var found := Discovered(order, start, result, h);
      SweepStep(order, adjacency, start, result, h, found);
      var new', stop := Expand(order(current), visited, |result|, limit);
      if stop {
        PrefixWithin(result, new', found, all);
        return result + new';
      }
      ElementsOfConcat(result, new');
      QueueStep(start, result, h, new', queue);
      visited := visited + Elements(new');
      result := result + new';
      queue := queue[1..] + new';
      h := h + 1;
    }
    assert h == |result| + 1;
    assert all == result;
  }

  lemma {:induction false} PrefixWithin(p: seq<Node>, q: seq<Node>, r: seq<Node>, s: seq<Node>)
    requires q <= r && p + r <= s
    ensures p + q <= s
  {}

  lemma {:induction false} QueueStep(start: Node, result: seq<Node>, h: nat, new': seq<Node>, queue: seq<Node>)
    requires h <= |result| && queue == ([start] + result)[h..]
    ensures queue[1..] + new' == ([start] + (result + new'))[h + 1..]
  {}

  /** The inner loop: the unvisited neighbours in order, cut off once `limit` results are reached. */
  method Expand(ns: seq<Node>, seen: set<Node>, count: nat, limit: Option<int>) returns (found: seq<Node>, stop: bool)
    requires NoDup(ns) && (limit.Some? ==> count == 0 || count < limit.value)
    ensures found <= Fresh(ns, seen)
    ensures !stop ==> found == Fresh(ns, seen) && (limit.Some? ==> count + |found| == 0 || count + |found| < limit.value)
    ensures stop ==> limit.Some? && count + |found| == if limit.value < 1 then 1 else limit.value
  {
    found := [];
    var visited := seen;
    for i := 0 to |ns|
      invariant found == Fresh(ns[..i], seen) && visited == seen + Elements(found)
      invariant limit.Some? ==> count + |found| == 0 || count + |found| < limit.value
    {
      FreshNext(ns, i, seen);
      var neighbor := ns[i];
      if neighbor in visited {
        continue;
      }
      visited := visited + {neighbor};
      found := found + [neighbor];
      if limit.Some? && count + |found| >= limit.value {
        FreshPrefix(ns, i + 1, seen);
        return found, true;
      }
    }
    assert ns[..|ns|] == ns;
    stop := false;
  }

  lemma {:induction false} FreshNext(ns: seq<Node>, i: nat, visited: set<Node>)
    requires NoDup(ns) && i < |ns|
    ensures ns[i] !in Elements(Fresh(ns[..i], visited))
    ensures Fresh(ns[..i + 1], visited) == Fresh(ns[..i], visited) + if ns[i] in visited then [] else [ns[i]]
  {
    assert ns[..i + 1][..i] == ns[..i];
    FreshElements(ns[..i], visited);
  }

  lemma {:induction false} FreshPrefix(ns: seq<Node>, i: nat, visited: set<Node>)
    requires i <= |ns|
    ensures Fresh(ns[..i], visited) <= Fresh(ns, visited)
  {
    if i < |ns| {
      var n := |ns| - 1;
      assert ns[..n][..i] == ns[..i];
      FreshPrefix(ns[..n], i, visited);
    } else {
      assert ns[..i] == ns;
    }
  }

  // ----- correctness of the search

  /** The level of the node processed at step `h`. */
  ghost function Level(lev: seq<nat>, h: nat): nat
    requires h <= |lev|
  {
    if h == 0 then 0 else lev[h - 1]
  }

  /** `x` has been visited at a level of at most `n`. */
  ghost predicate Placed(found: seq<Node>, lev: seq<nat>, x: Node, n: nat)
    requires |lev| == |found|
  {
    exists j :: 0 <= j < |found| && found[j] == x && lev[j] <= n
  }

  /** `lev` gives each visited node the length of a walk to it, in non-decreasing order and at most
      one level ahead of the node being processed. */
  ghost predicate Levelled(adj: Adjacency, start: Node, found: seq<Node>, h: nat, lev: seq<nat>) {
    && h <= |found| + 1 && |found| == |lev|
    && (forall i, j :: 0 <= i < j < |lev| ==> lev[i] <= lev[j])
    && (forall i :: 0 <= i < |found| ==> lev[i] >= 1 && Walk(adj, start, found[i], lev[i]))
    && (h <= |found| && |found| > 0 ==> lev[|found| - 1] <= Level(lev, h) + 1)
  }

  /** Every neighbour of a processed node has been visited, at most one level further on. */
  ghost predicate Closed(adj: Adjacency, start: Node, found: seq<Node>, h: nat, lev: seq<nat>) {
    && h <= |found| + 1 && |found| == |lev|
    && forall i, x :: 0 <= i < h && x in Neighbours(adj, Processed(start, found, i)) ==>
      Placed(found, lev, x, Level(lev, i) + 1)
  }

  ghost predicate Frontier(adj: Adjacency, start: Node, found: seq<Node>, h: nat, lev: seq<nat>) {
    Levelled(adj, start, found, h, lev) && Closed(adj, start, found, h, lev)
  }

  /** Processing step `h` appends the unvisited neighbours, one level further on. */
  ghost function Extend(lev: seq<nat>, h: nat, n: nat): seq<nat>
    requires h <= |lev|
  {
    lev + seq(n, _ => Level(lev, h) + 1)
  }

  lemma {:induction false} WalkAppend(adj: Adjacency, a: Node, m: Node, b: Node, n: nat)
    requires Walk(adj, a, m, n) && b in Neighbours(adj, m)
    ensures Walk(adj, a, b, n + 1)
  {}

  lemma {:induction false} LevelOfProcessed(adj: Adjacency, start: Node, found: seq<Node>, h: nat, lev: seq<nat>)
    requires Levelled(adj, start, found, h, lev) && h <= |found|
    ensures Walk(adj, start, Processed(start, found, h), Level(lev, h))
    ensures forall i :: 0 <= i < |lev| ==> lev[i] <= Level(lev, h) + 1
    ensures h < |found| ==> Level(lev, h) <= Level(lev, h + 1) <= Level(lev, h) + 1
  {
    if h > 0 {
      assert Walk(adj, start, found[h - 1], lev[h - 1]);
    }
  }

  lemma {:induction false} LevelsOrdered(lev: seq<nat>, h: nat, n: nat)
    requires h <= |lev| && (forall i, j :: 0 <= i < j < |lev| ==> lev[i] <= lev[j])
    requires forall i :: 0 <= i < |lev| ==> lev[i] <= Level(lev, h) + 1
    ensures var lev' := Extend(lev, h, n); forall i, j :: 0 <= i < j < |lev'| ==> lev'[i] <= lev'[j]
  {}

  lemma {:induction false} LevelledExtends(adj: Adjacency, start: Node, found: seq<Node>, h: nat, lev: seq<nat>,
          new': seq<Node>)
    requires Levelled(adj, start, found, h, lev) && h <= |found|
    requires forall x :: x in new' ==> x in Neighbours(adj, Processed(start, found, h))
    ensures Levelled(adj, start, found + new', h + 1, Extend(lev, h, |new'|))
  {
    var at, level := Processed(start, found, h), Level(lev, h);
    LevelOfProcessed(adj, start, found, h, lev);
    LevelsOrdered(lev, h, |new'|);
    forall i | 0 <= i < |new'| ensures Walk(adj, start, new'[i], level + 1) {
      WalkAppend(adj, start, at, new'[i], level);
    }
  }

  lemma {:induction false} PlacedExtends(found: seq<Node>, lev: seq<nat>, h: nat, new': seq<Node>, x: Node, n: nat)
    requires h <= |lev| == |found|
    requires Placed(found, lev, x, n) || (x in found + new' && (forall i :: 0 <= i < |lev| ==> lev[i] <= n) && Level(lev, h) < n)
    ensures Placed(found + new', Extend(lev, h, |new'|), x, n)
  {
    var found', lev' := found + new', Extend(lev, h, |new'|);
    if Placed(found, lev, x, n) {
      var j :| 0 <= j < |found| && found[j] == x && lev[j] <= n;
      assert found'[j] == x && lev'[j] <= n;
    } else {
      var j :| 0 <= j < |found'| && found'[j] == x;
      assert lev'[j] <= n;
    }
  }

  lemma {:induction false} ClosedExtends(adj: Adjacency, start: Node, found: seq<Node>, h: nat, lev: seq<nat>,
          new': seq<Node>)
    requires Frontier(adj, start, found, h, lev) && h <= |found|
    requires forall x :: x in Neighbours(adj, Processed(start, found, h)) ==> x in found + new'
    ensures Closed(adj, start, found + new', h + 1, Extend(lev, h, |new'|))
  {
    forall i, x | 0 <= i < h + 1 && x in Neighbours(adj, Processed(start, found + new', i))
      ensures Placed(found + new', Extend(lev, h, |new'|), x, Level(Extend(lev, h, |new'|), i) + 1)
    {
      NeighbourPlaced(adj, start, found, h, lev, new', i, x);
    }
  }

  lemma {:induction false} NeighbourPlaced(adj: Adjacency, start: Node, found: seq<Node>, h: nat,
          lev: seq<nat>, new': seq<Node>, i: nat, x: Node)
    requires Frontier(adj, start, found, h, lev) && h <= |found| && i <= h
    requires forall x :: x in Neighbours(adj, Processed(start, found, h)) ==> x in found + new'
    requires x in Neighbours(adj, Processed(start, found + new', i))
    ensures Placed(found + new', Extend(lev, h, |new'|), x, Level(Extend(lev, h, |new'|), i) + 1)
  {
    assert Processed(start, found + new', i) == Processed(start, found, i);
    PlacedExtends(found, lev, h, new', x, Level(lev, i) + 1);
  }

  lemma {:induction false} DrainedCoversWalks(adj: Adjacency, start: Node, found: seq<Node>, lev: seq<nat>,
          x: Node, n: nat)
    requires Frontier(adj, start, found, |found| + 1, lev) && n >= 1 && Walk(adj, start, x, n)
    ensures Placed(found, lev, x, n)
    decreases n
  {
    var m :| Walk(adj, start, m, n - 1) && x in Neighbours(adj, m);
    var i: nat;
    if n == 1 {
      i := 0;
    } else {
      DrainedCoversWalks(adj, start, found, lev, m, n - 1);
      var j :| 0 <= j < |found| && found[j] == m && lev[j] <= n - 1;
      i := j + 1;
    }
    assert Processed(start, found, i) == m && Placed(found, lev, x, Level(lev, i) + 1);
  }

  ghost predicate ExactSearch(adj: Adjacency, start: Node, r: seq<Node>) {
    && NoDup(r)
    && (forall x :: x in r <==> Reachable(adj, start, x))
    && (forall i, j :: 0 <= i < j < |r| ==> Distance(adj, start, r[i]) <= Distance(adj, start, r[j]))
  }

  lemma {:induction false} DrainedIsExact(adj: Adjacency, start: Node, found: seq<Node>, lev: seq<nat>)
    requires NoDup(found) && Frontier(adj, start, found, |found| + 1, lev)
    ensures ExactSearch(adj, start, found)
  {
    forall i | 0 <= i < |found| ensures Reachable(adj, start, found[i]) && Distance(adj, start, found[i]) == lev[i] {
      assert Walk(adj, start, found[i], lev[i]);
      var d := Distance(adj, start, found[i]);
      DrainedCoversWalks(adj, start, found, lev, found[i], d);
    }
    forall x | Reachable(adj, start, x) ensures x in found {
      var n: nat :| n >= 1 && Walk(adj, start, x, n);
      DrainedCoversWalks(adj, start, found, lev, x, n);
    }
  }

  lemma {:induction false} SweepIsExact(order: Order, adj: Adjacency, start: Node, found: seq<Node>, h: nat,
          lev: seq<nat>)
    requires Enumerates(order, adj) && Visiting(adj, found) && Frontier(adj, start, found, h, lev)
    ensures ExactSearch(adj, start, Sweep(order, adj, start, found, h))
    decreases |Targets(adj)| + 1 - h
  {
    if h == |found| + 1 {
      DrainedIsExact(adj, start, found, lev);
    } else {
      var new' := Discovered(order, start, found, h);
      var lev' := Extend(lev, h, |new'|);
      assert Visiting(adj, found + new') && Frontier(adj, start, found + new', h + 1, lev') by {
        SweepStep(order, adj, start, found, h, new');
        LevelledExtends(adj, start, found, h, lev, new');
        ClosedExtends(adj, start, found, h, lev, new');
      }
      assert |found + new'| <= |Targets(adj)| by { VisitingBound(adj, found + new'); }
      SweepIsExact(order, adj, start, found + new', h + 1, lev');
    }
  }

  /** The unlimited search returns exactly the nodes at the end of a non-empty walk, each once,
      nearest first. */
  lemma {:induction false} FullSearchIsExact(order: Order, adj: Adjacency, start: Node)
    requires Enumerates(order, adj)
    ensures ExactSearch(adj, start, FullSearch(order, adj, start))
  {
    SweepIsExact(order, adj, start, [], 0, []);
  }

  // ----- upstream and downstream are converse

  lemma {:induction false} WalkPrepend(adj: Adjacency, a: Node, m: Node, b: Node, n: nat)
    requires m in Neighbours(adj, a) && Walk(adj, m, b, n)
    ensures Walk(adj, a, b, n + 1)
    decreases n
  {
    if n == 0 {
      assert Walk(adj, a, a, 0);
    } else {
      var y :| Walk(adj, m, y, n - 1) && b in Neighbours(adj, y);
      WalkPrepend(adj, a, m, y, n - 1);
    }
  }

  lemma {:induction false} WalkReverses(down: Adjacency, up: Adjacency, a: Node, b: Node, n: nat)
    requires Mirrored(down, up) && Walk(down, a, b, n)
    ensures Walk(up, b, a, n)
    decreases n
  {
    if n > 0 {
      var m :| Walk(down, a, m, n - 1) && b in Neighbours(down, m);
      WalkReverses(down, up, a, m, n - 1);
      WalkPrepend(up, b, m, a, n - 1);
    }
  }

  /** x is downstream of n iff n is upstream of x, whatever the two iteration orders. */
  lemma {:induction false} Duality(down: Adjacency, up: Adjacency, downOrder: Order, upOrder: Order, n: Node, x: Node)
    requires Mirrored(down, up) && Enumerates(downOrder, down) && Enumerates(upOrder, up)
    ensures x in FullSearch(downOrder, down, n) <==> n in FullSearch(upOrder, up, x)
  {
    FullSearchIsExact(downOrder, down, n);
    FullSearchIsExact(upOrder, up, x);
    if k: nat :| k >= 1 && Walk(down, n, x, k) {
      WalkReverses(down, up, n, x, k);
    }
    if k: nat :| k >= 1 && Walk(up, x, n, k) {
      WalkReverses(up, down, x, n, k);
    }
  }

  // ----- the graph object

  function WithEdge(adj: Adjacency, a: Node, b: Node): Adjacency {
    adj[a := Neighbours(adj, a) + {b}]
  }

  lemma {:induction false} WithEdgeAddsOne(adj: Adjacency, a: Node, b: Node)
    ensures forall u, d :: d in Neighbours(WithEdge(adj, a, b), u) <==> d in Neighbours(adj, u) || (u, d) == (a, b)
  {}

  class LineageGraph {
    var downstream: Adjacency
    var upstream: Adjacency
    var meta: map<(Node, Node), map<string, string>>

    ghost predicate Valid()
      reads this
    {
      Mirrored(downstream, upstream)
    }

    constructor ()
      ensures Valid() && downstream == map[] && upstream == map[] && meta == map[]
    {
      downstream, upstream, meta := map[], map[], map[];
    }

    /** Adds exactly one edge to both maps; Valid() is what makes `Duality` apply to any graph
        built from `add_edge` calls. */
    method AddEdge(up: Node, down: Node, info: map<string, string>)
      requires Valid()
      modifies this
      ensures Valid()
      ensures forall u, d :: d in Neighbours(downstream, u) <==> d in Neighbours(old(downstream), u) || (u, d) == (up, down)
      ensures meta == if info != map[] then old(meta)[(up, down) := info] else old(meta)
    {
      WithEdgeAddsOne(downstream, up, down);
      WithEdgeAddsOne(upstream, down, up);
      downstream := WithEdge(downstream, up, down);
      upstream := WithEdge(upstream, down, up);
      if info != map[] {
        meta := meta[(up, down) := info];
      }
    }

    method Downstream(node: Node, order: Order, limit: Option<int>) returns (r: seq<Node>)
      requires Enumerates(order, downstream)
      ensures exists all :: ExactSearch(downstream, node, all) && FirstUpTo(limit, all, r)
      ensures FirstUpTo(limit, FullSearch(order, downstream, node), r)
    {
      FullSearchIsExact(order, downstream, node);
      r := Bfs(node, downstream, order, limit);
    }

    method Upstream(node: Node, order: Order, limit: Option<int>) returns (r: seq<Node>)
      requires Enumerates(order, upstream)
      ensures exists all :: ExactSearch(upstream, node, all) && FirstUpTo(limit, all, r)
      ensures FirstUpTo(limit, FullSearch(order, upstream, node), r)
    {
      FullSearchIsExact(order, upstream, node);
      r := Bfs(node, upstream, order, limit);
    }
  }
}
