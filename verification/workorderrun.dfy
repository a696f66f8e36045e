/** Whole work orders: the patches of all sections one after the other, applied twice. */
module WorkOrderRuns {
  import opened Common
  import opened Text
  import opened WorkOrders

  datatype Op = Op(section: string, mode: Mode, content: string)

  function Run(text: string, ops: seq<Op>): Result<string, Failure> {
    if ops == [] then Ok(text)
    else
      var init, op := Run(text, ops[..|ops| - 1]), ops[|ops| - 1];
      if init.Err? then init else ApplyPatch(init.value, op.section, op.mode, op.content)
  }

  method ApplyOps(text: string, ops: seq<Op>) returns (r: Result<string, Failure>)
    ensures r == Run(text, ops)
  {
    var targetText := text;
    for i := 0 to |ops|
      invariant Run(text, ops[..i]) == Ok(targetText)
    {
      assert ops[..i + 1][..i] == ops[..i];
      var step := ApplyPatch(targetText, ops[i].section, ops[i].mode, ops[i].content);
      if step.Err? {
        RunStops(text, ops, i + 1);
        return step;
      }
      targetText := step.value;
    }
    assert ops[..|ops|] == ops;
    return Ok(targetText);
  }

  lemma {:induction false} RunStops(text: string, ops: seq<Op>, i: nat)
    requires i <= |ops| && Run(text, ops[..i]).Err?
    ensures Run(text, ops) == Run(text, ops[..i])
  {
    if i == |ops| {
      assert ops[..i] == ops;
    } else {
      assert ops[..|ops| - 1][..i] == ops[..i];
      RunStops(text, ops[..|ops| - 1], i);
    }
  }

  // ----- several sections in one text

  /** What is between the markers of a placed section. */
  function Content(text: string, s: string): string {
    Slice(text, Find(text, Begin(s)) + |Begin(s)|, Find(text, End(s)))
  }

  /** The block of `s` ends before the block of `t` begins. */
  predicate Precedes(text: string, s: string, t: string) {
    Find(text, End(s)) + |End(s)| <= Find(text, Begin(t))
  }

  predicate WellPlaced(text: string, s: string) {
    Placed(text, s) || Absent(text, s)
  }

  /** Every section is whole or missing, and no two blocks overlap or nest. */
  ghost predicate Tidy(text: string, secs: set<string>) {
    && (forall s :: s in secs ==> WellPlaced(text, s))
    && (forall s, t :: s in secs && t in secs && s != t && Placed(text, s) && Placed(text, t) ==>
      Precedes(text, s, t) || Precedes(text, t, s))
  }

  /** The content holds no marker of any of the sections. */
  ghost predicate MarkerFree(c: string, secs: set<string>) {
    forall s :: s in secs ==> Find(c, Begin(s)) == -1 && Find(c, End(s)) == -1
  }

  predicate Settled(text: string, op: Op) {
    Placed(text, op.section) && NewInner(Content(text, op.section), op.mode, op.content) == Content(text, op.section)
  }

  lemma {:induction false} ParsedContent(text: string, s: string, pre: string, inner: string, post: string)
    requires Parsed(text, s, pre, inner, post)
    ensures Placed(text, s) && Content(text, s) == inner
    ensures Find(text, Begin(s)) + |Begin(s)| == |pre| && Find(text, End(s)) + |End(s)| <= |text|
  {
    FindIsFirst(text, End(s));
  }

  lemma {:induction false} SettledStays(text: string, op: Op)
    requires Settled(text, op)
    ensures ApplyPatch(text, op.section, op.mode, op.content) == Ok(text)
  {
    var pre, inner, post := Parse(text, op.section);
    ParsedContent(text, op.section, pre, inner, post);
    PatchParsed(text, op.section, pre, inner, post, op.mode, op.content);
  }

  // ----- markers of different sections do not contain each other

  /** A marker-shaped text occurs in another only if the two are equal. */
  lemma {:induction false} MarkerInMarker(m: string, n: string, i: int)
    requires n != "" && n[0] == '<' && n[|n| - 1] == '>' && |m| > 0
    requires forall k :: 1 <= k < |m| ==> m[k] != '<'
    requires forall k :: 0 <= k < |m| - 1 ==> m[k] != '>'
    requires At(m, n, i)
    ensures m == n
  {
    AtMatches(m, n, i);
    assert m[i + 0] == '<';
    assert m[i + (|n| - 1)] == '>';
    assert m[0..|n|] == m;
  }

  lemma {:induction false} OtherMarkersDiffer(s: string, t: string)
    requires SaneName(s) && SaneName(t) && s != t
    ensures Begin(s) != Begin(t) && End(s) != End(t) && Begin(s) != End(t) && End(s) != Begin(t)
  {
    MarkerShape(s);
    MarkerShape(t);
    assert Begin(s)[19..19 + |s|] == s && Begin(t)[19..19 + |t|] == t;
    assert End(s)[17..17 + |s|] == s && End(t)[17..17 + |t|] == t;
  }

  lemma {:induction false} NotInOtherMarker(s: string, m: string)
    requires SaneName(s) && m != "" && m[0] == '<' && m[|m| - 1] == '>' && m != Begin(s) && m != End(s)
    ensures Find(Begin(s), m) == -1 && Find(End(s), m) == -1
  {
    HeadsOnly(s);
    TailsOnly(s);
    forall i ensures !At(Begin(s), m, i) && !At(End(s), m, i) {
      if At(Begin(s), m, i) {
        MarkerInMarker(Begin(s), m, i);
      }
      if At(End(s), m, i) {
        MarkerInMarker(End(s), m, i);
      }
    }
    FindAbsent(Begin(s), m);
    FindAbsent(End(s), m);
  }

  // ----- what a patch of one section does to the markers of another

  /** Rewriting the inside of one section: a marker elsewhere stays put or moves along. */
  lemma {:induction false} MarkerMoves(pre: string, inner: string, post: string, c: string, m: string)
    requires m != "" && '\n' !in m && Find(c, m) == -1
    ensures var p, r := Find(pre + inner + post, m), Find(Lines(pre, c, post), m);
      && (p == -1 ==> r == -1)
      && (0 <= p && p + |m| <= |pre| ==> r == p)
      && (p >= |pre| + |inner| ==> r == p + |c| + 2 - |inner|)
  {
    var text := pre + inner + post;
    assert text[..|pre|] == pre && text[|pre| + |inner|..] == post;
    FindInPrefix(text, m, |pre|);
    FindInSuffix(text, m, |pre| + |inner|);
    FindInLines(pre, c, post, m);
  }

  /** Appending a block for one section: markers of others stay put, and none appear. */
  lemma {:induction false} MarkerStays(text: string, s: string, c: string, m: string)
    requires SaneName(s) && m != "" && '\n' !in m && m[0] == '<' && m[|m| - 1] == '>' && m != Begin(s) && m != End(s)
    requires Find(c, m) == -1
    ensures Find(Lines(text + "\n\n" + Begin(s), c, End(s) + "\n"), m) == Find(text, m)
  {
    NotInOtherMarker(s, m);
    FindBeforeBlank(text, Begin(s), m);
    FindOnLine(End(s), m);
    FindInLines(text + "\n\n" + Begin(s), c, End(s) + "\n", m);
  }

  lemma {:induction false} FindBeforeBlank(text: string, b: string, m: string)
    requires m != "" && '\n' !in m && Find(b, m) == -1
    ensures Find(text + "\n\n" + b, m) == Find(text, m) >= -1
  {
    assert text + "\n\n" + b == Lines(text, "", b);
    FindIsFirst("", m);
    FindIsFirst(text, m);
    FindInLines(text, "", b, m);
  }

  lemma {:induction false} FindOnLine(e: string, m: string)
    requires m != "" && '\n' !in m && Find(e, m) == -1
    ensures Find(e + "\n", m) == -1
  {
    assert e + "\n" == e + "\n" + "";
    FindIsFirst("", m);
    FindIsFirst(e, m);
    FindAcrossNewline(e, "", m);
  }

  ghost predicate SaneNames(secs: set<string>) {
    forall s :: s in secs ==> SaneName(s)
  }

  /** Section `t` is unchanged from `text` to `r` but for moving by `d`. */
  ghost predicate Moved(text: string, r: string, t: string, d: int) {
    && Placed(r, t) && Content(r, t) == Content(text, t)
    && Find(r, Begin(t)) == Find(text, Begin(t)) + d && Find(r, End(t)) == Find(text, End(t)) + d
  }

  /** A rewritten inside: as before, or stripped content on lines of its own. */
  predicate NewInside(inner: string, c: string, n: string) {
    n == inner || n == "\n" + c + "\n"
  }

  lemma {:induction false} MarkerMovesInside(pre: string, inner: string, post: string, c: string, n: string, m: string)
    requires m != "" && '\n' !in m && Find(c, m) == -1 && NewInside(inner, c, n)
    ensures var p, r := Find(pre + inner + post, m), Find(pre + n + post, m);
      && (p == -1 ==> r == -1)
      && (0 <= p && p + |m| <= |pre| ==> r == p)
      && (p >= |pre| + |inner| ==> r == p + |n| - |inner|)
  {
    if n != inner {
      MarkerMoves(pre, inner, post, c, m);
    }
  }

  lemma {:induction false} SliceBefore(pre: string, x: string, y: string, i: int, j: int)
    requires 0 <= i <= j <= |pre|
    ensures Slice(pre + x, i, j) == Slice(pre + y, i, j)
  {
    assert (pre + x)[i..j] == pre[i..j] && (pre + y)[i..j] == pre[i..j];
  }

  lemma {:induction false} SliceBehind(x: string, y: string, post: string, i: int, j: int)
    requires |x| <= i <= j <= |x| + |post|
    ensures Slice(x + post, i, j) == Slice(y + post, i - |x| + |y|, j - |x| + |y|)
  {
    assert (x + post)[i..j] == post[i - |x|..j - |x|];
    assert (y + post)[i - |x| + |y|..j - |x| + |y|] == post[i - |x|..j - |x|];
  }

  lemma {:induction false} BeforeStays(pre: string, x: string, y: string, t: string)
    requires Placed(pre + x, t) && Find(pre + x, End(t)) <= |pre|
    requires Find(pre + y, Begin(t)) == Find(pre + x, Begin(t)) && Find(pre + y, End(t)) == Find(pre + x, End(t))
    ensures Moved(pre + x, pre + y, t, 0)
  {
    SliceBefore(pre, x, y, Find(pre + x, Begin(t)) + |Begin(t)|, Find(pre + x, End(t)));
  }

  lemma {:induction false} BehindMoves(x: string, y: string, post: string, t: string)
    requires Placed(x + post, t) && Find(x + post, Begin(t)) >= |x|
    requires Find(y + post, Begin(t)) == Find(x + post, Begin(t)) - |x| + |y|
    requires Find(y + post, End(t)) == Find(x + post, End(t)) - |x| + |y|
    ensures Moved(x + post, y + post, t, |y| - |x|)
  {
    FindIsFirst(x + post, End(t));
    SliceBehind(x, y, post, Find(x + post, Begin(t)) + |Begin(t)|, Find(x + post, End(t)));
  }

  /** A section before the rewritten one does not move; one behind it moves by the change in length. */
  lemma {:induction false} SectionBeforeStays(text: string, s: string, pre: string, inner: string,
          post: string, c: string, n: string, t: string)
    requires SaneName(t) && Parsed(text, s, pre, inner, post) && Placed(text, t) && NewInside(inner, c, n)
    requires Find(c, Begin(t)) == -1 && Find(c, End(t)) == -1 && Precedes(text, t, s)
    ensures Moved(text, pre + n + post, t, 0)
  {
    assert Find(pre + n + post, Begin(t)) == Find(text, Begin(t)) && Find(pre + n + post, End(t)) == Find(text, End(t)) by {
      MarkerShape(t);
      MarkerMovesInside(pre, inner, post, c, n, Begin(t));
      MarkerMovesInside(pre, inner, post, c, n, End(t));
    }
    Regroup(pre, inner, post);
    Regroup(pre, n, post);
    BeforeStays(pre, inner + post, n + post, t);
  }

  lemma {:induction false} Regroup(x: string, y: string, z: string)
    ensures x + y + z == x + (y + z)
  {}

  lemma {:induction false} SectionBehindMoves(text: string, s: string, pre: string, inner: string,
          post: string, c: string, n: string, t: string)
    requires SaneName(t) && Parsed(text, s, pre, inner, post) && Placed(text, t) && NewInside(inner, c, n)
    requires Find(c, Begin(t)) == -1 && Find(c, End(t)) == -1 && Precedes(text, s, t)
    ensures Moved(text, pre + n + post, t, |n| - |inner|)
  {
    MarkerShape(t);
    MarkerMovesInside(pre, inner, post, c, n, Begin(t));
    MarkerMovesInside(pre, inner, post, c, n, End(t));
    BehindMoves(pre + inner, pre + n, post, t);
  }

  /** How far each section moves when the inside of `s` changes length by `d`. */
  ghost function Shift(text: string, s: string, t: string, d: int): int {
    if Precedes(text, s, t) then d else 0
  }

  /** Enough about the positions in `r` to see that blocks still do not overlap. */
  ghost predicate Displaced(text: string, r: string, secs: set<string>, s: string, d: int) {
    && Placed(text, s) && Placed(r, s)
    && Find(r, Begin(s)) == Find(text, Begin(s)) && Find(r, End(s)) == Find(text, End(s)) + d
    && forall t :: t in secs && t != s ==>
      if Placed(text, t) then Moved(text, r, t, Shift(text, s, t, d)) else Absent(r, t)
  }

  lemma {:induction false} DisplacedIsTidy(text: string, r: string, secs: set<string>, s: string, d: int)
    requires Tidy(text, secs) && s in secs && Displaced(text, r, secs, s, d)
    ensures Tidy(r, secs)
  {
    forall t, u | t in secs && u in secs && t != u && Placed(r, t) && Placed(r, u)
      ensures Precedes(r, t, u) || Precedes(r, u, t)
    {
      StillApart(text, r, secs, s, d, t, u);
    }
  }

  lemma {:induction false} StillApart(text: string, r: string, secs: set<string>, s: string, d: int, t: string,
          u: string)
    requires Tidy(text, secs) && s in secs && Displaced(text, r, secs, s, d)
    requires t in secs && u in secs && t != u && Placed(r, t) && Placed(r, u)
    ensures Precedes(r, t, u) || Precedes(r, u, t)
  {
    assert Placed(text, t) && Placed(text, u);
    assert Precedes(text, t, u) || Precedes(text, u, t);
    if t != s {
      assert Precedes(text, t, s) || Precedes(text, s, t);
    }
    if u != s {
      assert Precedes(text, u, s) || Precedes(text, s, u);
    }
  }

  lemma {:induction false} RewriteDisplaces(text: string, secs: set<string>, s: string, pre: string,
          inner: string, post: string, c: string, n: string)
    requires Tidy(text, secs) && SaneNames(secs) && MarkerFree(c, secs) && s in secs
    requires Parsed(text, s, pre, inner, post) && Parsed(pre + n + post, s, pre, n, post) && NewInside(inner, c, n)
    ensures Displaced(text, pre + n + post, secs, s, |n| - |inner|)
  {
    ParsedContent(text, s, pre, inner, post);
    ParsedContent(pre + n + post, s, pre, n, post);
    forall t | t in secs && t != s
      ensures if Placed(text, t) then Moved(text, pre + n + post, t, Shift(text, s, t, |n| - |inner|)) else Absent(pre + n + post, t)
    {
      if Placed(text, t) {
        if Precedes(text, s, t) {
          SectionBehindMoves(text, s, pre, inner, post, c, n, t);
        } else {
          SectionBeforeStays(text, s, pre, inner, post, c, n, t);
        }
      } else {
        MarkerShape(t);
        MarkerMovesInside(pre, inner, post, c, n, Begin(t));
        MarkerMovesInside(pre, inner, post, c, n, End(t));
      }
    }
  }

  lemma {:induction false} TailOf(text: string, s: string, c: string) returns (tail: string)
    ensures Lines(text + "\n\n" + Begin(s), c, End(s) + "\n") == text + tail && text == text + ""
  {
    tail := "\n\n" + Begin(s) + ("\n" + c + "\n") + (End(s) + "\n");
  }

  /** Inserting a block: all other sections stay as they are, the new one comes last. */
  lemma {:induction false} InsertKeepsOthers(text: string, s: string, c: string, t: string)
    requires SaneName(s) && SaneName(t) && s != t && WellPlaced(text, t)
    requires Find(c, Begin(t)) == -1 && Find(c, End(t)) == -1
    ensures var r := Lines(text + "\n\n" + Begin(s), c, End(s) + "\n");
      if Placed(text, t) then Moved(text, r, t, 0) && Find(r, End(t)) + |End(t)| <= |text| else Absent(r, t)
  {
    MarkerShape(t);
    TailsOnly(t);
    OtherMarkersDiffer(s, t);
    MarkerStays(text, s, c, Begin(t));
    MarkerStays(text, s, c, End(t));
    if Placed(text, t) {
      FindIsFirst(text, End(t));
      var tail := TailOf(text, s, c);
      BeforeStays(text, "", tail, t);
    }
  }

  /** What is in a section; nothing if it is missing. */
  function Inside(text: string, s: string): string {
    if Placed(text, s) then Content(text, s) else ""
  }

  /** The other sections keep what is in them. */
  ghost predicate OthersKept(text: string, r: string, secs: set<string>, s: string) {
    forall t :: t in secs && t != s ==> (Placed(r, t) <==> Placed(text, t)) && Inside(r, t) == Inside(text, t)
  }

  lemma {:induction false} InsertIsTidy(text: string, secs: set<string>, s: string, c: string)
    requires Tidy(text, secs) && SaneNames(secs) && MarkerFree(c, secs) && s in secs && Absent(text, s)
    ensures var r := Lines(text + "\n\n" + Begin(s), c, End(s) + "\n");
      Tidy(r, secs) && OthersKept(text, r, secs, s)
  {
    var pre, post := text + "\n\n" + Begin(s), End(s) + "\n";
    var r := Lines(pre, c, post);
    Inserted(text, s, c);
    ParsedContent(r, s, pre, "\n" + c + "\n", post);
    assert Find(r, Begin(s)) == |text| + 2;
    forall t | t in secs && t != s
      ensures if Placed(text, t) then Moved(text, r, t, 0) && Precedes(r, t, s) else Absent(r, t)
    {
      InsertKeepsOthers(text, s, c, t);
    }
    forall t, u | t in secs && u in secs && t != u && Placed(r, t) && Placed(r, u)
      ensures Precedes(r, t, u) || Precedes(r, u, t)
    {
      if t != s && u != s {
        assert Precedes(text, t, u) || Precedes(text, u, t);
      }
    }
  }

  predicate Idempotable(mode: Mode) {
    Rewrites(mode) || mode.Ensure?
  }

  /** One patch of a tidy text: it settles its own section, keeps the others, and the text tidy. */
  lemma {:induction false} TidyPatch(text: string, secs: set<string>, op: Op) returns (r: string)
    requires Tidy(text, secs) && SaneNames(secs) && op.section in secs && Idempotable(op.mode)
    requires MarkerFree(Strip(op.content), secs)
    ensures ApplyPatch(text, op.section, op.mode, op.content) == Ok(r)
    ensures Tidy(r, secs) && Settled(r, op) && OthersKept(text, r, secs, op.section)
    ensures Inside(r, op.section) == NewInner(Inside(text, op.section), op.mode, op.content)
  {
    var s, c := op.section, Strip(op.content);
    if Placed(text, s) {
      var pre, inner, post := Parse(text, s);
      var n := NewInner(inner, op.mode, op.content);
      r := pre + n + post;
      PatchRewrites(text, s, pre, inner, post, op.mode, op.content);
      NewInnerSettles(inner, op.mode, op.content);
      ParsedContent(r, s, pre, n, post);
      RewriteDisplaces(text, secs, s, pre, inner, post, c, n);
      DisplacedIsTidy(text, r, secs, s, |n| - |inner|);
    } else {
      var pre, n, post := text + "\n\n" + Begin(s), "\n" + c + "\n", End(s) + "\n";
      r := pre + n + post;
      PatchInserts(text, s, op.mode, op.content);
      NewInnerSettles("", op.mode, op.content);
      ParsedContent(r, s, pre, n, post);
      InsertIsTidy(text, secs, s, c);
    }
  }

  // ----- the whole work order

  ghost function Sections(ops: seq<Op>): set<string> {
    set op | op in ops :: op.section
  }

  ghost predicate FitFor(op: Op, secs: set<string>) {
    op.section in secs && Idempotable(op.mode) && MarkerFree(Strip(op.content), secs)
  }

  /** Patches in modes meant to be repeatable, with content free of the markers of all patched
      sections.  A section may be patched any number of times. */
  ghost predicate Repeatable(ops: seq<Op>, secs: set<string>) {
    SaneNames(secs) && forall i :: 0 <= i < |ops| ==> FitFor(ops[i], secs)
  }

  /** What the patches of section `s` make, one after the other, of its inside. */
  function Net(ops: seq<Op>, s: string, inner: string): string {
    if ops == [] then inner
    else
      var y, op := Net(ops[..|ops| - 1], s, inner), ops[|ops| - 1];
      if op.section == s then NewInner(y, op.mode, op.content) else y
  }

  /** One more patch, seen from section `s`. */
  lemma {:induction false} NetStep(text: string, mid: string, r: string, ops: seq<Op>, secs: set<string>, s: string)
    requires ops != [] && s in secs && Inside(mid, s) == Net(ops[..|ops| - 1], s, Inside(text, s))
    requires var op := ops[|ops| - 1];
      && Inside(r, op.section) == NewInner(Inside(mid, op.section), op.mode, op.content)
      && OthersKept(mid, r, secs, op.section)
    ensures Inside(r, s) == Net(ops, s, Inside(text, s))
  {}

  ghost predicate AllPlaced(text: string, ops: seq<Op>) {
    forall op :: op in ops ==> Placed(text, op.section)
  }

  lemma {:induction false} AllPlacedStep(mid: string, r: string, ops: seq<Op>, secs: set<string>)
    requires ops != [] && AllPlaced(mid, ops[..|ops| - 1]) && Repeatable(ops, secs)
    requires Placed(r, ops[|ops| - 1].section) && OthersKept(mid, r, secs, ops[|ops| - 1].section)
    ensures AllPlaced(r, ops)
  {
    forall op | op in ops ensures Placed(r, op.section) {
      var i :| 0 <= i < |ops| && ops[i] == op;
      assert FitFor(ops[i], secs);
      assert i < |ops| - 1 ==> ops[..|ops| - 1][i] in ops[..|ops| - 1];
    }
  }

  /** A run over a tidy text succeeds, keeps it tidy, and makes of each section what its own patches
      make of it. */
  lemma {:induction false} RunNets(text: string, ops: seq<Op>, secs: set<string>) returns (r: string)
    requires Tidy(text, secs) && Repeatable(ops, secs)
    ensures Run(text, ops) == Ok(r) && Tidy(r, secs)
    ensures forall s :: s in secs ==> Inside(r, s) == Net(ops, s, Inside(text, s))
    ensures AllPlaced(r, ops)
  {
    r := text;
    if ops != [] {
      var n := |ops| - 1;
      var mid := RunNets(text, ops[..n], secs);
      assert FitFor(ops[n], secs);
      r := TidyPatch(mid, secs, ops[n]);
      forall s | s in secs ensures Inside(r, s) == Net(ops, s, Inside(text, s)) {
        NetStep(text, mid, r, ops, secs, s);
      }
      AllPlacedStep(mid, r, ops, secs);
    }
  }

  /** Patches of different sections all settle. */
  lemma {:induction false} RunSettlesAll(text: string, ops: seq<Op>, secs: set<string>) returns (r: string)
    requires Tidy(text, secs) && Repeatable(ops, secs)
    requires forall i, j :: 0 <= i < j < |ops| ==> ops[i].section != ops[j].section
    ensures Run(text, ops) == Ok(r) && Tidy(r, secs)
    ensures forall i :: 0 <= i < |ops| ==> Settled(r, ops[i])
  {
    r := text;
    if ops != [] {
      var n := |ops| - 1;
      var mid := RunSettlesAll(text, ops[..n], secs);
      assert FitFor(ops[n], secs);
      r := TidyPatch(mid, secs, ops[n]);
      forall i | 0 <= i < n ensures Settled(r, ops[i]) {
        assert Settled(mid, ops[..n][i]) && FitFor(ops[i], secs);
      }
    }
  }

  // ----- what the patches of a section make of it, twice

  predicate HasRewrite(ops: seq<Op>, s: string) {
    ops != [] && ((ops[|ops| - 1].section == s && Rewrites(ops[|ops| - 1].mode)) || HasRewrite(ops[..|ops| - 1], s))
  }

  ghost predicate AllIdempotable(ops: seq<Op>) {
    forall i :: 0 <= i < |ops| ==> Idempotable(ops[i].mode)
  }

  lemma {:induction false} RewriteForgets(ops: seq<Op>, s: string, x: string, y: string)
    requires HasRewrite(ops, s) && AllIdempotable(ops)
    ensures Net(ops, s, x) == Net(ops, s, y)
  {
    var op := ops[|ops| - 1];
    if !(op.section == s && Rewrites(op.mode)) {
      RewriteForgets(ops[..|ops| - 1], s, x, y);
    }
  }

  lemma {:induction false} EnsureKeeps(ops: seq<Op>, s: string, x: string)
    requires !HasRewrite(ops, s) && AllIdempotable(ops) && Strip(x) != ""
    ensures Net(ops, s, x) == x
  {
    if ops != [] {
      EnsureKeeps(ops[..|ops| - 1], s, x);
      assert Idempotable(ops[|ops| - 1].mode);
    }
  }

  lemma {:induction false} BlankStaysBlank(ops: seq<Op>, s: string, x: string, y: string)
    requires !HasRewrite(ops, s) && AllIdempotable(ops) && Strip(Net(ops, s, x)) == "" && Strip(y) == ""
    ensures Strip(Net(ops, s, y)) == ""
  {
    if ops != [] {
      var init, op := ops[..|ops| - 1], ops[|ops| - 1];
      assert Idempotable(op.mode);
      if op.section == s {
        NewInnerOf(Net(init, s, x), op.mode, op.content);
        NewInnerOf(Net(init, s, y), op.mode, op.content);
      }
      if Strip(Net(init, s, x)) == "" {
        BlankStaysBlank(init, s, x, y);
      }
    }
  }

  lemma {:induction false} NetTwice(ops: seq<Op>, s: string, x: string)
    requires AllIdempotable(ops)
    ensures Net(ops, s, Net(ops, s, x)) == Net(ops, s, x)
  {
    if HasRewrite(ops, s) {
      RewriteForgets(ops, s, Net(ops, s, x), x);
    } else if Strip(Net(ops, s, x)) != "" {
      EnsureKeeps(ops, s, Net(ops, s, x));
    } else {
      EnsuredTwice(ops, s, x);
    }
  }

  lemma {:induction false} EnsuredTwice(ops: seq<Op>, s: string, x: string)
    requires AllIdempotable(ops) && !HasRewrite(ops, s) && Strip(Net(ops, s, x)) == ""
    ensures Net(ops, s, Net(ops, s, x)) == Net(ops, s, x)
  {
    if ops != [] {
      var init, op := ops[..|ops| - 1], ops[|ops| - 1];
      assert Idempotable(op.mode);
      var y := Net(ops, s, x);
      if op.section != s {
        EnsuredTwice(init, s, x);
      } else {
        NewInnerOf(Net(init, s, x), op.mode, op.content);
        NewInnerOf(Net(init, s, y), op.mode, op.content);
        if Strip(Net(init, s, x)) == "" {
          BlankStaysBlank(init, s, x, y);
        }
      }
    }
  }

  // ----- patches of different sections commute

  /** Tidy, with all the sections there. */
  ghost predicate Whole(text: string, secs: set<string>) {
    Tidy(text, secs) && SaneNames(secs) && forall s :: s in secs ==> Placed(text, s)
  }

  function Patched(text: string, op: Op): string {
    var r := ApplyPatch(text, op.section, op.mode, op.content);
    if r.Ok? then r.value else text
  }

  function PatchedAll(text: string, ops: seq<Op>): string {
    if ops == [] then text else Patched(PatchedAll(text, ops[..|ops| - 1]), ops[|ops| - 1])
  }

  lemma {:induction false} WholePatch(text: string, secs: set<string>, op: Op)
    requires Whole(text, secs) && FitFor(op, secs)
    ensures ApplyPatch(text, op.section, op.mode, op.content) == Ok(Patched(text, op)) && Whole(Patched(text, op), secs)
  {
    var r := TidyPatch(text, secs, op);
  }

  lemma {:induction false} WholeRun(text: string, secs: set<string>, ops: seq<Op>)
    requires Whole(text, secs) && Repeatable(ops, secs)
    ensures Run(text, ops) == Ok(PatchedAll(text, ops)) && Whole(PatchedAll(text, ops), secs)
  {
    if ops != [] {
      var n := |ops| - 1;
      WholeRun(text, secs, ops[..n]);
      assert FitFor(ops[n], secs);
      WholePatch(PatchedAll(text, ops[..n]), secs, ops[n]);
    }
  }

  /** Two blocks, the first one before the second: the text around and inside them. */
  ghost predicate TwoBlocks(text: string, s: string, u: string, a: string, x: string, b: string, y: string, c: string) {
    && Parsed(text, s, a, x, b + y + c)
    && Parsed(text, u, a + x + b, y, c)
  }

  lemma {:induction false} CutTwice(text: string, s: string, u: string)
    returns (a: string, x: string, b: string, y: string, c: string)
    requires Placed(text, s) && Placed(text, u) && Precedes(text, s, u)
    ensures TwoBlocks(text, s, u, a, x, b, y, c)
  {
    var rest, pre;
    a, x, rest := Parse(text, s);
    pre, y, c := Parse(text, u);
    MarkersWithin(text, s, u);
    b := Between(text, a, x, rest, pre, y, c);
  }

  lemma {:induction false} MarkersWithin(text: string, s: string, u: string)
    requires Placed(text, s) && Placed(text, u) && Precedes(text, s, u)
    ensures Find(text, End(s)) <= Find(text, Begin(u)) + |Begin(u)|
  {
    MarkerShape(s);
    MarkerShape(u);
  }

  lemma {:induction false} Between(text: string, a: string, x: string, rest: string, pre: string, y: string, c: string)
    returns (b: string)
    requires text == a + x + rest && text == pre + y + c && |a| + |x| <= |pre|
    ensures pre == a + x + b && rest == b + y + c
  {
    b := text[|a| + |x|..|pre|];
    assert text[..|pre|] == pre && text[..|a| + |x|] == a + x;
    assert pre[..|a| + |x|] == a + x && pre[|a| + |x|..] == b;
    assert text[|a| + |x|..] == rest;
    assert text[|pre|..] == y + c;
    assert rest[..|pre| - (|a| + |x|)] == b && rest[|pre| - (|a| + |x|)..] == y + c;
    assert rest == b + (y + c) == b + y + c;
  }

  lemma {:induction false} PatchedIs(text: string, op: Op, r: string)
    requires ApplyPatch(text, op.section, op.mode, op.content) == Ok(r)
    ensures Patched(text, op) == r
  {}

  lemma {:induction false} Grouped(a: string, x: string, b: string, y: string, c: string)
    ensures a + x + (b + y + c) == a + x + b + y + c
  {}

  lemma {:induction false} InsideIsNew(x: string, mode: Mode, content: string)
    requires Idempotable(mode)
    ensures NewInside(x, Strip(content), NewInner(x, mode, content))
  {
    NewInnerOf(x, mode, content);
  }

  /** Moved sections parse as before. */
  lemma {:induction false} MovedParse(text: string, r: string, u: string, pre: string, y: string, c: string,
          pre': string, d: int)
    requires Parsed(text, u, pre, y, c) && Moved(text, r, u, d) && r == pre' + y + c && |pre'| == |pre| + d
    ensures Parsed(r, u, pre', y, c)
  {}

  /** Rewriting one of the two leaves the other where it is, or moves it along. */
  lemma {:induction false} FirstRewritten(text: string, s: string, u: string, a: string, x: string, b: string,
          y: string, c: string, op: Op)
    requires TwoBlocks(text, s, u, a, x, b, y, c) && Precedes(text, s, u) && SaneName(s) && SaneName(u) && s != u
    requires op.section == s && Idempotable(op.mode) && MarkerFree(Strip(op.content), {s, u})
    ensures var n := NewInner(x, op.mode, op.content);
      Patched(text, op) == a + n + b + y + c && Parsed(a + n + b + y + c, u, a + n + b, y, c)
  {
    var n := NewInner(x, op.mode, op.content);
    PatchParsed(text, s, a, x, b + y + c, op.mode, op.content);
    InsideIsNew(x, op.mode, op.content);
    ParsedContent(text, u, a + x + b, y, c);
    SectionBehindMoves(text, s, a, x, b + y + c, Strip(op.content), n, u);
    Grouped(a, n, b, y, c);
    PatchedIs(text, op, a + n + b + y + c);
    MovedParse(text, a + n + b + y + c, u, a + x + b, y, c, a + n + b, |n| - |x|);
  }

  lemma {:induction false} SecondRewritten(text: string, s: string, u: string, a: string, x: string, b: string,
          y: string, c: string, op: Op)
    requires TwoBlocks(text, s, u, a, x, b, y, c) && Precedes(text, s, u) && SaneName(s) && SaneName(u) && s != u
    requires op.section == u && Idempotable(op.mode) && MarkerFree(Strip(op.content), {s, u})
    ensures var n := NewInner(y, op.mode, op.content);
      Patched(text, op) == a + x + b + n + c && Parsed(a + x + b + n + c, s, a, x, b + n + c)
  {
    var n := NewInner(y, op.mode, op.content);
    PatchParsed(text, u, a + x + b, y, c, op.mode, op.content);
    InsideIsNew(y, op.mode, op.content);
    ParsedContent(text, s, a, x, b + y + c);
    SectionBeforeStays(text, u, a + x + b, y, c, Strip(op.content), n, s);
    PatchedIs(text, op, a + x + b + n + c);
    Grouped(a, x, b, n, c);
    StayedParse(text, a + x + b + n + c, s, a, x, b + y + c, b + n + c);
  }

  lemma {:induction false} StayedParse(text: string, r: string, s: string, a: string, x: string, rest: string,
          rest': string)
    requires Parsed(text, s, a, x, rest) && Moved(text, r, s, 0) && r == a + x + rest'
    ensures Parsed(r, s, a, x, rest')
  {}

  lemma {:induction false} OrderedCommute(text: string, s: string, u: string, p: Op, q: Op)
    requires Placed(text, s) && Placed(text, u) && Precedes(text, s, u) && SaneName(s) && SaneName(u) && s != u
    requires p.section == s && q.section == u && Idempotable(p.mode) && Idempotable(q.mode)
    requires MarkerFree(Strip(p.content), {s, u}) && MarkerFree(Strip(q.content), {s, u})
    ensures Patched(Patched(text, p), q) == Patched(Patched(text, q), p)
  {
    var a, x, b, y, c := CutTwice(text, s, u);
    var m, n := NewInner(x, p.mode, p.content), NewInner(y, q.mode, q.content);
    FirstRewritten(text, s, u, a, x, b, y, c, p);
    SecondRewritten(text, s, u, a, x, b, y, c, q);
    PatchParsed(a + m + b + y + c, u, a + m + b, y, c, q.mode, q.content);
    PatchParsed(a + x + b + n + c, s, a, x, b + n + c, p.mode, p.content);
    PatchedIs(a + m + b + y + c, q, a + m + b + n + c);
    PatchedIs(a + x + b + n + c, p, a + m + (b + n + c));
    Grouped(a, m, b, n, c);
  }

  lemma {:induction false} PatchesCommute(text: string, secs: set<string>, p: Op, q: Op)
    requires Whole(text, secs) && FitFor(p, secs) && FitFor(q, secs) && p.section != q.section
    ensures Patched(Patched(text, p), q) == Patched(Patched(text, q), p)
  {
    if Precedes(text, p.section, q.section) {
      OrderedCommute(text, p.section, q.section, p, q);
    } else {
      OrderedCommute(text, q.section, p.section, q, p);
    }
  }

  // ----- the patches of one section after all the others

  function Own(ops: seq<Op>, s: string): seq<Op> {
    if ops == [] then []
    else if ops[|ops| - 1].section == s then Own(ops[..|ops| - 1], s) + [ops[|ops| - 1]] else Own(ops[..|ops| - 1], s)
  }

  function Others(ops: seq<Op>, s: string): seq<Op> {
    if ops == [] then []
    else if ops[|ops| - 1].section == s then Others(ops[..|ops| - 1], s) else Others(ops[..|ops| - 1], s) + [ops[|ops| - 1]]
  }

  lemma {:induction false} PatchedAllSnoc(text: string, ops: seq<Op>, op: Op)
    ensures PatchedAll(text, ops + [op]) == Patched(PatchedAll(text, ops), op)
  {
    assert (ops + [op])[..|ops|] == ops;
  }

  lemma {:induction false} PartsFit(ops: seq<Op>, s: string, secs: set<string>)
    requires Repeatable(ops, secs)
    ensures Repeatable(Own(ops, s), secs) && Repeatable(Others(ops, s), secs)
    ensures forall i :: 0 <= i < |Own(ops, s)| ==> Own(ops, s)[i].section == s
    ensures |Others(ops, s)| <= |ops| && (ops != [] && ops[|ops| - 1].section == s ==> |Others(ops, s)| < |ops|)
  {
    if ops != [] {
      assert FitFor(ops[|ops| - 1], secs);
      PartsFit(ops[..|ops| - 1], s, secs);
    }
  }

  /** A patch of another section can be made before or after a run of patches of one section. */
  lemma {:induction false} PatchPassesRun(text: string, secs: set<string>, own: seq<Op>, s: string, op: Op)
    requires Whole(text, secs) && Repeatable(own, secs) && FitFor(op, secs) && op.section != s
    requires forall i :: 0 <= i < |own| ==> own[i].section == s
    ensures PatchedAll(Patched(text, op), own) == Patched(PatchedAll(text, own), op)
  {
    if own != [] {
      var init, last := own[..|own| - 1], own[|own| - 1];
      PatchPassesRun(text, secs, init, s, op);
      WholeRun(text, secs, init);
      assert FitFor(last, secs);
      PatchesCommute(PatchedAll(text, init), secs, op, last);
    }
  }

  lemma {:induction false} OwnLast(text: string, secs: set<string>, ops: seq<Op>, s: string)
    requires Whole(text, secs) && Repeatable(ops, secs)
    ensures PatchedAll(text, ops) == PatchedAll(PatchedAll(text, Others(ops, s)), Own(ops, s))
  {
    if ops != [] {
      var init, op := ops[..|ops| - 1], ops[|ops| - 1];
      assert FitFor(op, secs);
      OwnLast(text, secs, init, s);
      PartsFit(init, s, secs);
      var mid := PatchedAll(text, Others(init, s));
      if op.section == s {
        PatchedAllSnoc(mid, Own(init, s), op);
      } else {
        WholeRun(text, secs, Others(init, s));
        PatchPassesRun(mid, secs, Own(init, s), s, op);
        PatchedAllSnoc(text, Others(init, s), op);
      }
    }
  }

  lemma {:induction false} NetSnoc(ops: seq<Op>, op: Op, s: string, x: string)
    ensures Net(ops + [op], s, x) == if op.section == s then NewInner(Net(ops, s, x), op.mode, op.content) else Net(ops, s, x)
  {
    assert (ops + [op])[..|ops|] == ops;
  }

  lemma {:induction false} NetOfOwn(ops: seq<Op>, s: string, x: string)
    ensures Net(Own(ops, s), s, x) == Net(ops, s, x)
  {
    if ops != [] {
      NetOfOwn(ops[..|ops| - 1], s, x);
      NetSnoc(Own(ops[..|ops| - 1], s), ops[|ops| - 1], s, x);
    }
  }

  lemma {:induction false} NetOfOthers(ops: seq<Op>, s: string, u: string, x: string)
    ensures Net(Others(ops, s), u, x) == if u == s then x else Net(ops, u, x)
  {
    if ops != [] {
      NetOfOthers(ops[..|ops| - 1], s, u, x);
      NetSnoc(Others(ops[..|ops| - 1], s), ops[|ops| - 1], u, x);
    }
  }

  /** A run of patches of one section rewrites its inside, and nothing else. */
  lemma {:induction false} OwnRun(text: string, secs: set<string>, own: seq<Op>, s: string, pre: string,
          inner: string, post: string)
    requires Repeatable(own, secs) && SaneName(s) && s in secs && Parsed(text, s, pre, inner, post)
    requires forall i :: 0 <= i < |own| ==> own[i].section == s
    ensures var n := Net(own, s, inner); PatchedAll(text, own) == pre + n + post && Parsed(PatchedAll(text, own), s, pre, n, post)
  {
    if own != [] {
      var init, op := own[..|own| - 1], own[|own| - 1];
      assert FitFor(op, secs);
      OwnRun(text, secs, init, s, pre, inner, post);
      PatchRewrites(PatchedAll(text, init), s, pre, Net(init, s, inner), post, op.mode, op.content);
    }
  }

  /** A text whose sections hold what the patches make of them is left as it is. */
  lemma {:induction false} FixedRunStays(text: string, secs: set<string>, ops: seq<Op>)
    requires Whole(text, secs) && Repeatable(ops, secs)
    requires forall s :: s in secs ==> Net(ops, s, Content(text, s)) == Content(text, s)
    ensures PatchedAll(text, ops) == text
    decreases |ops|
  {
    if ops != [] {
      var s := ops[|ops| - 1].section;
      assert FitFor(ops[|ops| - 1], secs);
      var own, others := Own(ops, s), Others(ops, s);
      PartsFit(ops, s, secs);
      forall u | u in secs ensures Net(others, u, Content(text, u)) == Content(text, u) {
        NetOfOthers(ops, s, u, Content(text, u));
      }
      FixedRunStays(text, secs, others);
      OwnLast(text, secs, ops, s);
      var pre, inner, post := Parse(text, s);
      ParsedContent(text, s, pre, inner, post);
      OwnRun(text, secs, own, s, pre, inner, post);
      NetOfOwn(ops, s, inner);
    }
  }

  /** Applying a work order a second time changes nothing, whatever sections were missing at first and
      however often a section is patched; after it each section holds what its own patches make of it. */
  lemma {:induction false} WorkOrderIdempotent(text: string, ops: seq<Op>)
    requires Tidy(text, Sections(ops)) && Repeatable(ops, Sections(ops))
    ensures var once := Run(text, ops);
      && once.Ok? && Run(once.value, ops) == once
      && forall s :: s in Sections(ops) ==> Placed(once.value, s) && Content(once.value, s) == Net(ops, s, Inside(text, s))
  {
    var secs := Sections(ops);
    var r := RunNets(text, ops, secs);
    forall s | s in secs ensures Placed(r, s) {
      var op :| op in ops && op.section == s;
    }
    assert AllIdempotable(ops) by {
      assert forall i :: 0 <= i < |ops| ==> FitFor(ops[i], secs);
    }
    forall s | s in secs ensures Net(ops, s, Content(r, s)) == Content(r, s) {
      NetTwice(ops, s, Inside(text, s));
    }
    FixedRunStays(r, secs, ops);
    WholeRun(r, secs, ops);
  }
}
