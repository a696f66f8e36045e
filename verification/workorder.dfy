/** Work orders: marker-delimited sections patched into a document, and the version lists. */
module WorkOrders {
  import opened Common
  import opened Text

  function Begin(section: string): string {
    "<!-- AUTOGEN:BEGIN:" + section + " -->"
  }

  function End(section: string): string {
    "<!-- AUTOGEN:END:" + section + " -->"
  }

  datatype Mode = Replace | Upsert | Append | Ensure | Unknown

  /** A document that has the BEGIN marker but no END marker makes `str.index` raise. */
  datatype Failure = MissingEnd

  function Block(section: string, content: string): string {
    "\n\n" + Begin(section) + "\n" + Strip(content) + "\n" + End(section) + "\n"
  }

  /** Python's text[i:j], empty when j is before i. */
  function Slice(text: string, i: int, j: int): string {
    if 0 <= i <= j <= |text| then text[i..j] else ""
  }

  function NewInner(inner: string, mode: Mode, content: string): string {
    match mode
    case Replace => "\n" + Strip(content) + "\n"
    case Upsert => "\n" + Strip(content) + "\n"
    case Append => RStrip(inner) + "\n" + Strip(content) + "\n"
    case Ensure => if Strip(inner) != "" then inner else "\n" + Strip(content) + "\n"
    case Unknown => inner
  }

  function ApplyPatch(current: string, section: string, mode: Mode, content: string): Result<string, Failure> {
    var b, e := Find(current, Begin(section)), Find(current, End(section));
    if b < 0 then Ok(current + Block(section, content))
    else if e < 0 then Err(MissingEnd)
    else
      FindIsFirst(current, Begin(section));
      FindIsFirst(current, End(section));
      var start := b + |Begin(section)|;
      if mode.Unknown? then Ok(current)
      else Ok(current[..start] + NewInner(Slice(current, start, e), mode, content) + current[e..])
  }

  // ----- markers

  /** Section names fit on one line and hold no angle brackets, as inside an HTML comment. */
  predicate SaneName(section: string) {
    '\n' !in section && '<' !in section && '>' !in section
  }

  lemma {:induction false} MarkerShape(section: string)
    ensures '\n' !in section ==> '\n' !in Begin(section) && '\n' !in End(section)
    ensures |Begin(section)| == |section| + 23 && |End(section)| == |section| + 21
    ensures Begin(section)[0] == '<' && Begin(section)[1] == '!' && Begin(section)[2] == '-' && Begin(section)[13] == 'B'
    ensures End(section)[0] == '<' && End(section)[13] == 'E'
    ensures Begin(section)[|Begin(section)| - 1] == '>' && End(section)[|End(section)| - 1] == '>'
  {}

  lemma {:induction false} HeadsOnly(section: string)
    requires '<' !in section
    ensures forall i :: 1 <= i < |Begin(section)| ==> Begin(section)[i] != '<'
    ensures forall i :: 1 <= i < |End(section)| ==> End(section)[i] != '<'
  {
    var b, e := Begin(section), End(section);
    forall i | 1 <= i < |b| ensures b[i] != '<' {
      if 19 <= i < 19 + |section| {
        assert b[i] == section[i - 19];
      }
    }
    forall i | 1 <= i < |e| ensures e[i] != '<' {
      if 17 <= i < 17 + |section| {
        assert e[i] == section[i - 17];
      }
    }
  }

  lemma {:induction false} TailsOnly(section: string)
    requires '>' !in section
    ensures forall i :: 0 <= i < |Begin(section)| - 1 ==> Begin(section)[i] != '>'
    ensures forall i :: 0 <= i < |End(section)| - 1 ==> End(section)[i] != '>'
  {
    var b, e := Begin(section), End(section);
    forall i | 0 <= i < |b| - 1 ensures b[i] != '>' {
      if 19 <= i < 19 + |section| {
        assert b[i] == section[i - 19];
      }
    }
    forall i | 0 <= i < |e| - 1 ensures e[i] != '>' {
      if 17 <= i < 17 + |section| {
        assert e[i] == section[i - 17];
      }
    }
  }

  lemma {:induction false} BeginIsNotEnd(s: string)
    ensures Find(Begin(s), End(s)) == -1
  {
    MarkerShape(s);
    forall i ensures !At(Begin(s), End(s), i) {
      if At(Begin(s), End(s), i) {
        AtMatches(Begin(s), End(s), i);
      }
    }
    FindAbsent(Begin(s), End(s));
  }

  // ----- where markers end up

  /** Both markers are there, END after BEGIN. */
  predicate Placed(text: string, s: string) {
    Find(text, Begin(s)) >= 0 && Find(text, End(s)) >= Find(text, Begin(s)) + |Begin(s)|
  }

  predicate Absent(text: string, s: string) {
    Find(text, Begin(s)) == -1 && Find(text, End(s)) == -1
  }

  /** The text around and inside a section: `pre` ends with BEGIN, `post` begins with END, and these
      are the first of their kind. */
  predicate Parsed(text: string, s: string, pre: string, inner: string, post: string) {
    && text == pre + inner + post
    && Find(text, Begin(s)) >= 0 && Find(text, Begin(s)) + |Begin(s)| == |pre|
    && Find(text, End(s)) == |pre| + |inner|
  }

  lemma {:induction false} Parse(text: string, s: string) returns (pre: string, inner: string, post: string)
    requires Placed(text, s)
    ensures Parsed(text, s, pre, inner, post)
  {
    FindIsFirst(text, Begin(s));
    FindIsFirst(text, End(s));
    var i, j := Find(text, Begin(s)) + |Begin(s)|, Find(text, End(s));
    pre, inner, post := text[..i], text[i..j], text[j..];
  }

  function Lines(pre: string, mid: string, post: string): string {
    pre + ("\n" + mid + "\n") + post
  }

  lemma {:induction false} FindInLines(pre: string, mid: string, post: string, m: string)
    requires m != "" && '\n' !in m
    ensures Find(Lines(pre, mid, post), m)
      == if Find(pre, m) >= 0 then Find(pre, m)
         else if Find(mid, m) >= 0 then |pre| + 1 + Find(mid, m)
         else if Find(post, m) >= 0 then |pre| + |mid| + 2 + Find(post, m)
         else -1
  {
    assert Lines(pre, mid, post) == pre + "\n" + (mid + "\n" + post);
    FindAcrossNewline(mid, post, m);
    FindAcrossNewline(pre, mid + "\n" + post, m);
    FindIsFirst(mid, m);
  }

  /** What the parts of a parsed text hold of its own markers. */
  lemma {:induction false} OwnMarkers(text: string, s: string, pre: string, inner: string, post: string)
    requires Parsed(text, s, pre, inner, post)
    ensures Find(pre, Begin(s)) == Find(text, Begin(s)) && Find(pre, End(s)) == -1 && Find(post, End(s)) == 0
  {
    assert text[..|pre|] == pre && text[|pre| + |inner|..] == post;
    FindInPrefix(text, Begin(s), |pre|);
    FindInPrefix(text, End(s), |pre|);
    FindInSuffix(text, End(s), |pre| + |inner|);
  }

  /** Rewriting the inside of a section leaves its markers first in place. */
  lemma {:induction false} Rewritten(text: string, s: string, pre: string, inner: string, post: string, c: string)
    requires '\n' !in s && Parsed(text, s, pre, inner, post) && Find(c, End(s)) == -1
    ensures Parsed(Lines(pre, c, post), s, pre, "\n" + c + "\n", post)
  {
    MarkerShape(s);
    OwnMarkers(text, s, pre, inner, post);
    FindInLines(pre, c, post, Begin(s));
    FindInLines(pre, c, post, End(s));
  }

  lemma {:induction false} AppendedBegin(text: string, s: string)
    requires '\n' !in s && Find(text, Begin(s)) == -1
    ensures var pre := text + "\n\n" + Begin(s);
      Find(pre, Begin(s)) == |text| + 2 && (Find(pre, End(s)) == -1 <==> Find(text, End(s)) == -1)
  {
    var b, e := Begin(s), End(s);
    MarkerShape(s);
    BeginIsNotEnd(s);
    assert text + "\n\n" + b == Lines(text, "", b);
    FindIsFirst("", b);
    FindIsFirst("", e);
    FindIsFirst(text, e);
    FindHead(b, "");
    assert b + "" == b;
    FindInLines(text, "", b, b);
    FindInLines(text, "", b, e);
  }

  lemma {:induction false} Inserted(text: string, s: string, c: string)
    requires '\n' !in s && Absent(text, s) && Find(c, End(s)) == -1
    ensures var pre := text + "\n\n" + Begin(s);
      Parsed(Lines(pre, c, End(s) + "\n"), s, pre, "\n" + c + "\n", End(s) + "\n")
  {
    MarkerShape(s);
    AppendedBegin(text, s);
    FindHead(End(s), "\n");
    FindInLines(text + "\n\n" + Begin(s), c, End(s) + "\n", Begin(s));
    FindInLines(text + "\n\n" + Begin(s), c, End(s) + "\n", End(s));
  }

  // ----- one patch

  predicate Rewrites(mode: Mode) {
    mode.Replace? || mode.Upsert?
  }

  /** What a mode makes of the inside, by whether it is blank. */
  lemma {:induction false} NewInnerOf(inner: string, mode: Mode, content: string)
    requires Rewrites(mode) || mode.Ensure?
    ensures NewInner(inner, mode, content) == if mode.Ensure? && Strip(inner) != "" then inner else "\n" + Strip(content) + "\n"
  {}

  lemma {:induction false} PatchBetween(r: string, s: string, pre: string, e: int, inner: string, mode: Mode,
          content: string)
    requires pre <= r && Find(r, Begin(s)) >= 0 && Find(r, Begin(s)) + |Begin(s)| == |pre|
    requires 0 <= e <= |r| && e == Find(r, End(s)) && inner == Slice(r, |pre|, e) && !mode.Unknown?
    ensures ApplyPatch(r, s, mode, content) == Ok(pre + NewInner(inner, mode, content) + r[e..])
  {
    assert r[..|pre|] == pre;
  }

  lemma {:induction false} PatchParsed(text: string, s: string, pre: string, inner: string, post: string,
          mode: Mode, content: string)
    requires Parsed(text, s, pre, inner, post)
    ensures ApplyPatch(text, s, mode, content) == Ok(pre + NewInner(inner, mode, content) + post)
  {
    assert text[|pre|..|pre| + |inner|] == inner && text[|pre| + |inner|..] == post;
    if !mode.Unknown? {
      PatchBetween(text, s, pre, |pre| + |inner|, inner, mode, content);
    }
  }

  /** A patch fails exactly on a text that has the BEGIN marker of the section but not its END marker. */
  lemma {:induction false} PatchFailsExactly(text: string, s: string, mode: Mode, content: string)
    ensures ApplyPatch(text, s, mode, content).Err? <==>
            Contains(text, "<!-- AUTOGEN:BEGIN:" + s + " -->") && !Contains(text, "<!-- AUTOGEN:END:" + s + " -->")
  {
    FindIsFirst(text, Begin(s));
    FindIsFirst(text, End(s));
  }

  /** What each mode writes between the first BEGIN and the first END, even one that comes too early. */
  lemma {:induction false} PatchTells(text: string, s: string, mode: Mode, content: string)
    requires Find(text, Begin(s)) >= 0 && Find(text, End(s)) >= 0
    ensures
      var start, end := Find(text, Begin(s)) + |s| + 23, Find(text, End(s));
      && start <= |text| && end <= |text|
      && var pre, post, line := text[..start], text[end..], Strip(content) + "\n";
         var inner := if start <= end then text[start..end] else "";
         match mode
         case Replace => ApplyPatch(text, s, mode, content) == Ok(pre + ("\n" + line) + post)
         case Upsert => ApplyPatch(text, s, mode, content) == Ok(pre + ("\n" + line) + post)
         case Append => ApplyPatch(text, s, mode, content) == Ok(pre + (RStrip(inner) + "\n" + line) + post)
         case Ensure => ApplyPatch(text, s, mode, content) == Ok(pre + (if Strip(inner) != "" then inner else "\n" + line) + post)
         case Unknown => ApplyPatch(text, s, mode, content) == Ok(text)
  {
    FindIsFirst(text, Begin(s));
    FindIsFirst(text, End(s));
    MarkerShape(s);
    var line := Strip(content) + "\n";
    assert "\n" + line == "\n" + Strip(content) + "\n";
    assert forall x: string :: x + "\n" + line == x + "\n" + Strip(content) + "\n";
  }

  /** The block of a section that is not there yet. */
  lemma {:induction false} PatchAppends(text: string, s: string, mode: Mode, content: string)
    requires !Contains(text, Begin(s))
    ensures var begin, end := "<!-- AUTOGEN:BEGIN:" + s + " -->", "<!-- AUTOGEN:END:" + s + " -->";
      ApplyPatch(text, s, mode, content) == Ok(text + ("\n\n" + begin + "\n" + Strip(content) + "\n" + end + "\n"))
  {
    FindIsFirst(text, Begin(s));
  }

  /** On a section with both markers, a patch in mode replace, upsert or ensure rewrites exactly what
      is between them: parsing the result finds the same text before and after. */
  lemma {:induction false} PatchRewrites(text: string, s: string, pre: string, inner: string, post: string,
          mode: Mode, content: string)
    requires '\n' !in s && Parsed(text, s, pre, inner, post) && (Rewrites(mode) || mode.Ensure?)
    requires Find(Strip(content), End(s)) == -1
    ensures var n := NewInner(inner, mode, content);
      ApplyPatch(text, s, mode, content) == Ok(pre + n + post) && Parsed(pre + n + post, s, pre, n, post)
  {
    PatchParsed(text, s, pre, inner, post, mode, content);
    Rewritten(text, s, pre, inner, post, Strip(content));
  }

  /** Mode append keeps what is inside, up to white space at its end, and adds the content on lines of its own. */
  lemma {:induction false} PatchAdds(text: string, s: string, pre: string, inner: string, post: string, content: string)
    requires '\n' !in s && Parsed(text, s, pre, inner, post) && Find(Strip(content), End(s)) == -1
    ensures var n := RStrip(inner) + "\n" + Strip(content) + "\n";
      ApplyPatch(text, s, Append, content) == Ok(pre + n + post) && Parsed(pre + n + post, s, pre, n, post)
  {
    var kept, c := RStrip(inner), Strip(content);
    var r := Lines(pre + kept, c, post);
    PatchParsed(text, s, pre, inner, post, Append, content);
    AddedLines(pre, kept, c, post);
    OwnMarkers(text, s, pre, inner, post);
    RStripEnds(inner);
    KeptPrefix(text, s, pre, inner, post, kept);
    MarkerShape(s);
    FindInLines(pre + kept, c, post, Begin(s));
    FindInLines(pre + kept, c, post, End(s));
  }

  lemma {:induction false} AddedLines(pre: string, kept: string, c: string, post: string)
    ensures pre + (kept + "\n" + c + "\n") + post == Lines(pre + kept, c, post)
  {
    assert pre + (kept + ("\n" + c + "\n")) == pre + kept + ("\n" + c + "\n");
    assert kept + ("\n" + c + "\n") == kept + "\n" + c + "\n";
  }

  lemma {:induction false} KeptPrefix(text: string, s: string, pre: string, inner: string, post: string, kept: string)
    requires Parsed(text, s, pre, inner, post) && kept <= inner
    ensures Find(pre + kept, Begin(s)) == Find(text, Begin(s)) && Find(pre + kept, End(s)) == -1
  {
    var n := |pre| + |kept|;
    assert text[..n] == pre + kept;
    FindInPrefix(text, Begin(s), n);
    FindInPrefix(text, End(s), n);
    MarkerShape(s);
  }

  lemma {:induction false} RStripLine(x: string, c: string)
    requires Trimmed(c) && c != ""
    ensures RStrip(x + "\n" + c + "\n") == x + "\n" + c
  {
    var t := x + "\n" + c;
    assert (t + "\n")[..|t|] == t && IsSpace('\n') && t[|t| - 1] == c[|c| - 1];
  }

  /** Appending twice keeps both contents, one below the other. */
  lemma {:induction false} AppendsAccumulate(text: string, s: string, pre: string, inner: string, post: string,
          first: string, second: string)
    requires '\n' !in s && Parsed(text, s, pre, inner, post) && Strip(first) != ""
    requires Find(Strip(first), End(s)) == -1 && Find(Strip(second), End(s)) == -1
    ensures var once := ApplyPatch(text, s, Append, first);
      && once.Ok?
      && var n := RStrip(inner) + "\n" + Strip(first) + "\n" + Strip(second) + "\n";
         ApplyPatch(once.value, s, Append, second) == Ok(pre + n + post) && Parsed(pre + n + post, s, pre, n, post)
  {
    var n := RStrip(inner) + "\n" + Strip(first) + "\n";
    PatchAdds(text, s, pre, inner, post, first);
    PatchAdds(pre + n + post, s, pre, n, post, second);
    StripIsTrimmed(first);
    RStripLine(RStrip(inner), Strip(first));
  }

  /** A section without markers is appended, in any mode. */
  lemma {:induction false} PatchInserts(text: string, s: string, mode: Mode, content: string)
    requires '\n' !in s && Absent(text, s) && Find(Strip(content), End(s)) == -1
    ensures var pre, n, post := text + "\n\n" + Begin(s), "\n" + Strip(content) + "\n", End(s) + "\n";
      ApplyPatch(text, s, mode, content) == Ok(pre + n + post) && Parsed(pre + n + post, s, pre, n, post)
  {
    Inserted(text, s, Strip(content));
    AppendBlock(text, s, content);
  }

  lemma {:induction false} AppendBlock(text: string, s: string, content: string)
    ensures text + Block(s, content) == Lines(text + "\n\n" + Begin(s), Strip(content), End(s) + "\n")
  {}

  lemma {:induction false} NewInnerSettles(inner: string, mode: Mode, content: string)
    requires Rewrites(mode) || mode.Ensure?
    ensures NewInner(NewInner(inner, mode, content), mode, content) == NewInner(inner, mode, content)
    ensures NewInner("\n" + Strip(content) + "\n", mode, content) == "\n" + Strip(content) + "\n"
  {}

  // ----- exactly when a patch is idempotent

  ghost predicate IdempotentOn(text: string, s: string, mode: Mode, content: string) {
    var once := ApplyPatch(text, s, mode, content);
    once.Ok? && ApplyPatch(once.value, s, mode, content) == once
  }

  /** The section is there and holds more than white space. */
  predicate Filled(text: string, s: string) {
    Placed(text, s) && Strip(Slice(text, Find(text, Begin(s)) + |Begin(s)|, Find(text, End(s)))) != ""
  }

  /** What comes before the content: the text up to its BEGIN, or all of it with a BEGIN appended. */
  function Head(text: string, s: string): string {
    FindIsFirst(text, Begin(s));
    if Find(text, Begin(s)) >= 0 then text[..Find(text, Begin(s)) + |Begin(s)|] else text + "\n\n" + Begin(s)
  }

  /** The first BEGIN of the head is the one at its end.  An appended BEGIN may miss this only for
      names with a line break and both angle brackets. */
  predicate Seamless(text: string, s: string) {
    Find(Head(text, s), Begin(s)) + |Begin(s)| == |Head(text, s)|
  }

  /** The content between its markers. */
  function Frame(s: string, c: string): string {
    Begin(s) + ("\n" + c + "\n") + End(s)
  }

  /** The first END in the frame is the one behind the content; for mode ensure it is enough that
      something other than white space precedes it. */
  predicate Fits(s: string, mode: Mode, c: string) {
    var k := Find(Frame(s, c), End(s));
    k == |Begin(s)| + |c| + 2 || (mode.Ensure? && Strip(Slice(Frame(s, c), |Begin(s)|, k)) != "")
  }

  /** What a caller can check beforehand. */
  predicate Rerunnable(text: string, s: string, mode: Mode, content: string) {
    && (Find(text, Begin(s)) >= 0 ==> Find(text, End(s)) >= 0)
    && Find(Head(text, s), End(s)) == -1
    && (Fits(s, mode, Strip(content)) || (mode.Ensure? && Filled(text, s)))
  }

  /** `pre` ends with its first BEGIN and `post` begins with END. */
  predicate Framed(s: string, pre: string, post: string) {
    Find(pre, Begin(s)) >= 0 && Find(pre, Begin(s)) + |Begin(s)| == |pre| && Find(post, End(s)) == 0
  }

  lemma {:induction false} EndWithin(t: string, s: string)
    ensures Find(t, End(s)) <= |t| && Find(t, End(s)) >= -1
  {
    FindIsFirst(t, End(s));
  }

  lemma {:induction false} HeadOfMarked(text: string, s: string)
    requires Find(text, Begin(s)) >= 0
    ensures Head(text, s) <= text && |Head(text, s)| == Find(text, Begin(s)) + |Begin(s)| && Seamless(text, s)
  {
    var n := Find(text, Begin(s)) + |Begin(s)|;
    FindIsFirst(text, Begin(s));
    FindInPrefix(text, Begin(s), n);
    assert Head(text, s) == text[..n];
  }

  /** A patch that writes puts the content behind the head, in front of an END. */
  lemma {:induction false} FirstPatch(text: string, s: string, mode: Mode, content: string) returns (post: string)
    requires Seamless(text, s) && (Rewrites(mode) || (mode.Ensure? && !Filled(text, s)))
    requires Find(text, Begin(s)) >= 0 ==> Find(text, End(s)) >= 0
    ensures Framed(s, Head(text, s), post)
    ensures ApplyPatch(text, s, mode, content) == Ok(Lines(Head(text, s), Strip(content), post))
  {
    FindIsFirst(Head(text, s), Begin(s));
    if Find(text, Begin(s)) >= 0 {
      HeadOfMarked(text, s);
      EndWithin(text, s);
      var e := Find(text, End(s));
      post := text[e..];
      FindInSuffix(text, End(s), e);
      WrittenBetween(text, s, Head(text, s), post, mode, content);
    } else {
      post := End(s) + "\n";
      FindIsFirst(text, Begin(s));
      AppendBlock(text, s, content);
      FindHead(End(s), "\n");
    }
  }

  lemma {:induction false} NotFilled(text: string, s: string)
    requires Find(text, Begin(s)) >= 0 && Find(text, End(s)) >= 0 && !Filled(text, s)
    ensures Strip(Slice(text, Find(text, Begin(s)) + |Begin(s)|, Find(text, End(s)))) == ""
  {}

  lemma {:induction false} WrittenBetween(text: string, s: string, pre: string, post: string, mode: Mode,
          content: string)
    requires Rewrites(mode) || (mode.Ensure? && !Filled(text, s))
    requires Find(text, Begin(s)) >= 0 && pre <= text && |pre| == Find(text, Begin(s)) + |Begin(s)|
    requires 0 <= Find(text, End(s)) <= |text| && post == text[Find(text, End(s))..]
    ensures ApplyPatch(text, s, mode, content) == Ok(Lines(pre, Strip(content), post))
  {
    var e := Find(text, End(s));
    var inner := Slice(text, |pre|, e);
    PatchBetween(text, s, pre, e, inner, mode, content);
    if mode.Ensure? {
      NotFilled(text, s);
    }
    NewInnerOf(inner, mode, content);
    assert NewInner(inner, mode, content) == "\n" + Strip(content) + "\n";
  }

  /** A second patch that writes the content gives its input back only if the first END stands right
      behind the content. */
  lemma {:induction false} WrittenAgain(pre: string, c: string, post: string, e: nat)
    requires e <= |Lines(pre, c, post)|
    ensures pre + ("\n" + c + "\n") + Lines(pre, c, post)[e..] == Lines(pre, c, post) <==> e == |pre| + |c| + 2
  {
    var r := Lines(pre, c, post);
    assert |pre + ("\n" + c + "\n") + r[e..]| == |pre| + |c| + 2 + |r| - e;
    if e == |pre| + |c| + 2 {
      assert r[e..] == post;
    }
  }

  lemma {:induction false} FrameHoldsEnd(s: string, c: string)
    ensures 0 <= Find(Frame(s, c), End(s)) <= |Begin(s)| + |c| + 2
  {
    var f, n := Frame(s, c), |Begin(s)| + |c| + 2;
    assert f[n..n + |End(s)|] == End(s);
    assert At(f, End(s), n);
    FindIsFirst(f, End(s));
  }

  /** A pattern that does not occur in x + b first occurs in x + (b + y) where it does in b + y. */
  lemma {:induction false} FirstAcross(x: string, b: string, y: string, e: string)
    requires |e| <= |b| && Find(x + b, e) == -1 && Find(b + y, e) >= 0
    ensures Find(x + (b + y), e) == |x| + Find(b + y, e)
  {
    var f := b + y;
    var k := Find(f, e);
    FindIsFirst(f, e);
    AtSuffix(x, f, e, k);
    forall j | 0 <= j < |x| + k ensures !At(x + f, e, j) {
      if j >= |x| {
        AtSuffix(x, f, e, j - |x|);
      } else {
        NoneBefore(x, b, y, e, j);
      }
    }
    FindPinned(x + f, e, |x| + k);
  }

  lemma {:induction false} NoneBefore(x: string, b: string, y: string, e: string, j: nat)
    requires Find(x + b, e) == -1 && j < |x| && |e| <= |b|
    ensures !At(x + (b + y), e, j)
  {
    FindIsFirst(x + b, e);
    assert x + (b + y) == (x + b) + y;
    AtPrefix(x + b, y, e, j);
  }

  /** Whatever surrounds it, the first END of a text whose head has none is that of the frame. */
  lemma {:induction false} FrameDecides(x: string, s: string, c: string, y: string)
    requires Find(x + Begin(s), End(s)) == -1
    ensures Find(x + Frame(s, c) + y, End(s)) == |x| + Find(Frame(s, c), End(s))
  {
    var rest := ("\n" + c + "\n") + End(s);
    FrameHoldsEnd(s, c);
    assert Frame(s, c) == Begin(s) + rest;
    MarkerShape(s);
    FirstAcross(x, Begin(s), rest, End(s));
    FindPrefix(x + Frame(s, c), y, End(s));
  }

  /** A framed text around its frame. */
  lemma {:induction false} AroundFrame(s: string, pre: string, c: string, post: string) returns (x: string, y: string)
    requires Framed(s, pre, post)
    ensures pre == x + Begin(s) && Lines(pre, c, post) == x + Frame(s, c) + y
  {
    FindIsFirst(pre, Begin(s));
    FindIsFirst(post, End(s));
    x, y := pre[..|pre| - |Begin(s)|], post[|End(s)|..];
    assert pre == x + Begin(s) && post == End(s) + y;
    Regrouped(x, Begin(s), "\n" + c + "\n", End(s), y);
  }

  lemma {:induction false} Regrouped(x: string, b: string, m: string, e: string, y: string)
    ensures (x + b) + m + (e + y) == x + (b + m + e) + y
  {}

  /** What the second patch finds between the markers. */
  lemma {:induction false} SecondInner(s: string, pre: string, c: string, post: string) returns (e: int, inner: string)
    requires Framed(s, pre, post)
    ensures var r, k := Lines(pre, c, post), Find(Frame(s, c), End(s));
      && Find(r, Begin(s)) >= 0 && Find(r, Begin(s)) + |Begin(s)| == |pre| && e == Find(r, End(s)) && inner == Slice(r, |pre|, e)
      && if Find(pre, End(s)) >= 0 then 0 <= e < |pre| && inner == ""
         else 0 <= k && 0 <= e <= |r| && e == |pre| - |Begin(s)| + k && inner == Slice(Frame(s, c), |Begin(s)|, k)
  {
    var r := Lines(pre, c, post);
    assert r == pre + (("\n" + c + "\n") + post);
    FindPrefix(pre, ("\n" + c + "\n") + post, Begin(s));
    e := Find(r, End(s));
    inner := Slice(r, |pre|, e);
    MarkerShape(s);
    if Find(pre, End(s)) >= 0 {
      FindPrefix(pre, ("\n" + c + "\n") + post, End(s));
      FindIsFirst(pre, End(s));
    } else {
      FindIsFirst(pre, End(s));
      EndWithin(r, s);
      var x, y := AroundFrame(s, pre, c, post);
      FrameDecides(x, s, c, y);
      FrameHoldsEnd(s, c);
      SliceAround(x, Frame(s, c), y, |Begin(s)|, Find(Frame(s, c), End(s)));
    }
  }

  lemma {:induction false} SliceAround(x: string, f: string, y: string, i: nat, k: nat)
    requires i <= |f| && k <= |f|
    ensures Slice(x + f + y, |x| + i, |x| + k) == Slice(f, i, k)
  {
    if i <= k {
      assert (x + f + y)[|x| + i..|x| + k] == f[i..k];
    }
  }

  lemma {:induction false} Resliced(r: string, pre: string, e: int)
    requires pre <= r && 0 <= e <= |r| && Slice(r, |pre|, e) != ""
    ensures pre + Slice(r, |pre|, e) + r[e..] == r
  {}

  lemma {:induction false} SecondPatch(s: string, pre: string, post: string, mode: Mode, content: string)
    requires Framed(s, pre, post) && (Rewrites(mode) || mode.Ensure?)
    ensures var c := Strip(content);
      var r := Lines(pre, c, post);
      ApplyPatch(r, s, mode, content) == Ok(r) <==> Find(pre, End(s)) == -1 && Fits(s, mode, c)
  {
    var c := Strip(content);
    var r := Lines(pre, c, post);
    var e, inner := SecondInner(s, pre, c, post);
    EndWithin(pre, s);
    EndWithin(r, s);
    PatchBetween(r, s, pre, e, inner, mode, content);
    NewInnerOf(inner, mode, content);
    WrittenAgain(pre, c, post, e);
    if Strip(inner) != "" {
      Resliced(r, pre, e);
    }
  }

  /** A filled section is left alone by mode ensure. */
  lemma {:induction false} FilledStays(text: string, s: string, content: string)
    requires Filled(text, s)
    ensures ApplyPatch(text, s, Ensure, content) == Ok(text) && Find(Head(text, s), End(s)) == -1
  {
    var pre, inner, post := Parse(text, s);
    PatchParsed(text, s, pre, inner, post, Ensure, content);
    NewInnerOf(inner, Ensure, content);
    OwnMarkers(text, s, pre, inner, post);
    HeadOfMarked(text, s);
    assert Head(text, s) == pre;
  }

  /** For every section name: in modes replace, upsert and ensure, applying a patch twice gives what
      applying it once gives exactly when text and content are rerunnable. */
  lemma {:induction false} PatchIdempotentExactly(text: string, s: string, mode: Mode, content: string)
    requires Seamless(text, s) && (Rewrites(mode) || mode.Ensure?)
    ensures IdempotentOn(text, s, mode, content) <==> Rerunnable(text, s, mode, content)
  {
    if mode.Ensure? && Filled(text, s) {
      FilledStays(text, s, content);
    } else if Find(text, Begin(s)) >= 0 ==> Find(text, End(s)) >= 0 {
      var post := FirstPatch(text, s, mode, content);
      SecondPatch(s, Head(text, s), post, mode, content);
    }
  }

  // ----- in plain terms, for plain names

  /** A name that lacks one of the three: a line break, `<`, `>`. */
  predicate PlainName(s: string) {
    '\n' !in s || '<' !in s || '>' !in s
  }

  /** The first END starts behind the first BEGIN, or neither is there. */
  predicate InOrder(text: string, s: string) {
    var b, e := Find(text, Begin(s)), Find(text, End(s));
    (b >= 0 && e > b) || (b == -1 && e == -1)
  }

  /** An END marker within the content spoils replacing, but spoils filling an empty section only
      where the content begins with it. */
  predicate PlainlyRerunnable(text: string, s: string, mode: Mode, content: string) {
    && InOrder(text, s)
    && if mode.Ensure? then Filled(text, s) || Find(Strip(content), End(s)) != 0 else Find(Strip(content), End(s)) == -1
  }

  predicate PlainMarker(m: string) {
    && m != "" && m[0] == '<' && m[|m| - 1] == '>'
    && (|| '\n' !in m
        || (forall i :: 1 <= i < |m| ==> m[i] != '<')
        || (forall i :: 0 <= i < |m| - 1 ==> m[i] != '>'))
  }

  /** Line breaks at g, ..., h - 1, and behind them a text that begins like a marker. */
  predicate Gap(r: string, m: string, g: nat, h: nat) {
    && g < h < |r| && (forall i :: g <= i < h ==> r[i] == '\n') && r[h] == '<'
    && ((forall i :: 0 <= i < |m| - 1 ==> m[i] != '>') ==> forall i :: h <= i < h + |m| - 1 && i < |r| ==> r[i] != '>')
  }

  lemma {:induction false} NoCrossing(r: string, m: string, g: nat, h: nat, j: int)
    requires PlainMarker(m) && Gap(r, m, g, h) && At(r, m, j)
    ensures j + |m| <= g || h <= j
  {
    AtCovers(r, m, j);
    assert r[j] == m[0] && r[j + |m| - 1] == m[|m| - 1];
    assert r[g] == '\n' && r[h] == '<';
  }

  lemma {:induction false} PlainMarkers(s: string)
    requires PlainName(s)
    ensures PlainMarker(Begin(s)) && PlainMarker(End(s))
    ensures (forall i :: 0 <= i < |Begin(s)| - 1 ==> Begin(s)[i] != '>') <==> '>' !in s
    ensures (forall i :: 0 <= i < |End(s)| - 1 ==> End(s)[i] != '>') <==> '>' !in s
  {
    MarkerShape(s);
    if '<' !in s {
      HeadsOnly(s);
    }
    if '>' !in s {
      TailsOnly(s);
    } else {
      var i :| 0 <= i < |s| && s[i] == '>';
      assert Begin(s)[19 + i] == '>' && End(s)[17 + i] == '>';
    }
  }

  /** A marker of the section in front of an appended BEGIN is one of the text. */
  lemma {:induction false} NotAcrossAppended(text: string, s: string, m: string, j: int)
    requires PlainName(s) && (m == Begin(s) || m == End(s)) && At(text + "\n\n" + Begin(s), m, j) && j < |text| + 2
    ensures At(text, m, j)
  {
    var pre := text + "\n\n" + Begin(s);
    PlainMarkers(s);
    MarkerShape(s);
    AppendedChars(text, Begin(s));
    NoCrossing(pre, m, |text|, |text| + 2, j);
    assert pre == text + ("\n\n" + Begin(s));
    AtPrefix(text, "\n\n" + Begin(s), m, j);
  }

  lemma {:induction false} AppendedChars(text: string, b: string)
    requires b != ""
    ensures var pre := text + "\n\n" + b;
      pre[|text|] == '\n' && pre[|text| + 1] == '\n' && forall i :: |text| + 2 <= i < |pre| ==> pre[i] == b[i - (|text| + 2)]
  {}

  /** Appending a block makes no other marker. */
  lemma {:induction false} PlainAppended(text: string, s: string)
    requires PlainName(s) && Find(text, Begin(s)) == -1
    ensures Find(text + "\n\n" + Begin(s), Begin(s)) == |text| + 2
  {
    var pre, b := text + "\n\n" + Begin(s), Begin(s);
    FindIsFirst(text, b);
    assert pre[|text| + 2..] == b;
    forall j | 0 <= j < |text| + 2 ensures !At(pre, b, j) {
      if At(pre, b, j) {
        NotAcrossAppended(text, s, b, j);
      }
    }
    FindPinned(pre, b, |text| + 2);
  }

  lemma {:induction false} EndsAppended(text: string, s: string)
    requires PlainName(s)
    ensures Find(text + "\n\n" + Begin(s), End(s)) == -1 <==> Find(text, End(s)) == -1
  {
    var pre, b, e := text + "\n\n" + Begin(s), Begin(s), End(s);
    assert pre == text + ("\n\n" + b) && pre == (text + "\n\n") + b;
    BeginIsNotEnd(s);
    FindAbsent(b, e);
    FindIsFirst(text, e);
    FindIsFirst(pre, e);
    var j := Find(pre, e);
    if 0 <= j < |text| + 2 {
      NotAcrossAppended(text, s, e, j);
    } else if j >= 0 {
      AtSuffix(text + "\n\n", b, e, j - (|text| + 2));
    }
    AtPrefix(text, "\n\n" + b, e, Find(text, e));
  }

  lemma {:induction false} PlainHead(text: string, s: string)
    requires PlainName(s)
    ensures Seamless(text, s)
    ensures Find(text, Begin(s)) >= 0 && Find(text, End(s)) < 0 ==> !InOrder(text, s)
    ensures (Find(text, Begin(s)) >= 0 ==> Find(text, End(s)) >= 0) ==> (Find(Head(text, s), End(s)) == -1 <==> InOrder(text, s))
  {
    EndWithin(text, s);
    if Find(text, Begin(s)) >= 0 {
      HeadOfMarked(text, s);
      if Find(text, End(s)) >= 0 {
        MarkedInOrder(text, s);
      }
    } else {
      FindIsFirst(text, Begin(s));
      PlainAppended(text, s);
      EndsAppended(text, s);
    }
  }

  lemma {:induction false} MarkedInOrder(text: string, s: string)
    requires Find(text, Begin(s)) >= 0 && Find(text, End(s)) >= 0
    ensures Find(Head(text, s), End(s)) == -1 <==> Find(text, End(s)) > Find(text, Begin(s))
  {
    MarkersApart(text, s);
    HeadOfMarked(text, s);
    assert Head(text, s) == text[..|Head(text, s)|];
    FindInPrefix(text, End(s), |Head(text, s)|);
  }

  lemma {:induction false} MarkersApart(text: string, s: string)
    requires Find(text, Begin(s)) >= 0 && Find(text, End(s)) >= 0
    ensures Find(text, End(s)) > Find(text, Begin(s)) <==> Find(text, End(s)) + |End(s)| > Find(text, Begin(s)) + |Begin(s)|
  {
    FindIsFirst(text, Begin(s));
    FindIsFirst(text, End(s));
    MarkersStartApart(text, s, Find(text, Begin(s)), Find(text, End(s)));
    EndAcrossBegin(text, s, Find(text, Begin(s)), Find(text, End(s)));
  }

  lemma {:induction false} MarkersStartApart(text: string, s: string, b: int, e: int)
    requires At(text, Begin(s), b) && At(text, End(s), e)
    ensures b != e
  {
    MarkerShape(s);
    AtMatches(text, Begin(s), b);
    AtMatches(text, End(s), e);
  }

  lemma {:induction false} EndAcrossBegin(text: string, s: string, b: int, e: int)
    requires At(text, Begin(s), b) && At(text, End(s), e) && b != e
    ensures e > b <==> e + |End(s)| > b + |Begin(s)|
  {
    MarkerShape(s);
    AtMatches(text, Begin(s), b);
    AtMatches(text, End(s), e);
    assert End(s)[0] == text[e + 0];
    assert b <= e < b + |Begin(s)| ==> Begin(s)[e - b] == text[b + (e - b)];
  }

  /** No END starts within the BEGIN of a frame, or right behind it. */
  lemma {:induction false} NoEndAtHead(s: string, c: string, j: int)
    requires PlainName(s) && At(Frame(s, c), End(s), j)
    ensures j >= |Begin(s)| + 1
  {
    var f, b, e := Frame(s, c), Begin(s), End(s);
    PlainMarkers(s);
    assert At(f, b, 0);
    MarkersStartApart(f, s, 0, j);
    EndAcrossBegin(f, s, 0, j);
    AtCovers(f, b, 0);
    AtCovers(f, e, j);
    MarkerShape(s);
    assert f[|b|] == '\n' && f[|b| - 1] == '>' && f[j] == '<';
    if '<' !in s {
      HeadsOnly(s);
    }
  }

  /** For a plain name the first END of the frame is the first one within the content, or the one
      behind it. */
  lemma {:induction false} PlainFrame(s: string, c: string)
    requires PlainName(s)
    ensures Find(Frame(s, c), End(s)) == if Find(c, End(s)) >= 0 then |Begin(s)| + 1 + Find(c, End(s)) else |Begin(s)| + |c| + 2
  {
    var f, e, m := Frame(s, c), End(s), Find(c, End(s));
    var k := if m >= 0 then |Begin(s)| + 1 + m else |Begin(s)| + |c| + 2;
    FindIsFirst(c, e);
    EndIsThere(s, c);
    forall j | 0 <= j < k ensures !At(f, e, j) {
      if At(f, e, j) {
        NoEndAtHead(s, c, j);
        WithinContent(s, c, j);
      }
    }
    FindPinned(f, e, k);
  }

  lemma {:induction false} AtWithin(x: string, c: string, y: string, e: string, i: int)
    requires 0 <= i && i + |e| <= |c|
    ensures At(x + (c + y), e, |x| + i) <==> At(c, e, i)
  {
    AtPrefix(c, y, e, i);
    AtSuffix(x, c + y, e, i);
  }

  lemma {:induction false} FrameParts(s: string, c: string)
    ensures Frame(s, c) == (Begin(s) + "\n") + (c + ("\n" + End(s)))
  {}

  lemma {:induction false} EndIsThere(s: string, c: string)
    ensures At(Frame(s, c), End(s), |Begin(s)| + |c| + 2)
    ensures Find(c, End(s)) >= 0 ==> At(Frame(s, c), End(s), |Begin(s)| + 1 + Find(c, End(s)))
  {
    var f, n := Frame(s, c), |Begin(s)| + |c| + 2;
    assert f[n..n + |End(s)|] == End(s);
    FindIsFirst(c, End(s));
    FrameParts(s, c);
    if Find(c, End(s)) >= 0 {
      AtWithin(Begin(s) + "\n", c, "\n" + End(s), End(s), Find(c, End(s)));
    }
  }

  lemma {:induction false} NotAcrossEnd(f: string, x: string, c: string, e: string, j: int)
    requires f == x + (c + ("\n" + e)) && PlainMarker(e) && Gap(f, e, |x| + |c|, |x| + |c| + 1)
    requires At(f, e, j) && |x| <= j <= |x| + |c|
    ensures At(c, e, j - |x|)
  {
    NoCrossing(f, e, |x| + |c|, |x| + |c| + 1, j);
    AtWithin(x, c, "\n" + e, e, j - |x|);
  }

  lemma {:induction false} WithinContent(s: string, c: string, j: int)
    requires PlainName(s) && At(Frame(s, c), End(s), j) && |Begin(s)| + 1 <= j < |Begin(s)| + |c| + 2
    ensures At(c, End(s), j - |Begin(s)| - 1)
  {
    FrameGap(s, c);
    PlainMarkers(s);
    FrameParts(s, c);
    NotAcrossEnd(Frame(s, c), Begin(s) + "\n", c, End(s), j);
  }

  lemma {:induction false} FrameGap(s: string, c: string)
    ensures Gap(Frame(s, c), End(s), |Begin(s)| + 1 + |c|, |Begin(s)| + 2 + |c|)
  {
    var g := |Begin(s)| + 1 + |c|;
    MarkerShape(s);
    assert forall i :: g + 1 <= i < |Frame(s, c)| ==> Frame(s, c)[i] == End(s)[i - (g + 1)];
  }

  lemma {:induction false} NotBlank(t: string, i: nat)
    requires i < |t| && !IsSpace(t[i])
    ensures Strip(t) != ""
    decreases |t|
  {
    if IsSpace(t[0]) {
      NotBlank(t[1..], i - 1);
    } else {
      NotBlankRight(t, 0);
    }
  }

  lemma {:induction false} NotBlankRight(t: string, i: nat)
    requires i < |t| && !IsSpace(t[i])
    ensures RStrip(t) != ""
  {
    if IsSpace(t[|t| - 1]) {
      NotBlankRight(t[..|t| - 1], i);
    }
  }

  /** Stripped content up to some point is blank only if nothing comes before that point. */
  lemma {:induction false} BlankBefore(s: string, c: string, m: nat)
    requires Trimmed(c) && m <= |c|
    ensures Strip(Slice(Frame(s, c), |Begin(s)|, |Begin(s)| + 1 + m)) == "" <==> m == 0
  {
    var inner := Slice(Frame(s, c), |Begin(s)|, |Begin(s)| + 1 + m);
    assert inner == "\n" + c[..m];
    if m > 0 {
      assert inner[1] == c[0];
      NotBlank(inner, 1);
    } else {
      assert inner == "\n" && LStrip(inner) == LStrip(inner[1..]) == "";
    }
  }

  lemma {:induction false} PlainFits(s: string, mode: Mode, content: string)
    requires PlainName(s)
    ensures var m := Find(Strip(content), End(s)); Fits(s, mode, Strip(content)) <==> if mode.Ensure? then m != 0 else m == -1
  {
    var c := Strip(content);
    StripIsTrimmed(content);
    PlainFrame(s, c);
    EndWithin(c, s);
    if Find(c, End(s)) >= 0 {
      FitsWithin(s, mode, c);
    }
  }

  lemma {:induction false} FitsWithin(s: string, mode: Mode, c: string)
    requires Trimmed(c) && 0 <= Find(c, End(s)) <= |c| && Find(Frame(s, c), End(s)) == |Begin(s)| + 1 + Find(c, End(s))
    ensures Fits(s, mode, c) <==> mode.Ensure? && Find(c, End(s)) != 0
  {
    BlankBefore(s, c, Find(c, End(s)));
  }

  /** For plain names: twice is once exactly when the markers are in order and the content does not
      interfere with them. */
  lemma {:induction false} PlainPatchIdempotentExactly(text: string, s: string, mode: Mode, content: string)
    requires PlainName(s) && (Rewrites(mode) || mode.Ensure?)
    ensures IdempotentOn(text, s, mode, content) <==> PlainlyRerunnable(text, s, mode, content)
  {
    PlainHead(text, s);
    PlainFits(s, mode, content);
    PatchIdempotentExactly(text, s, mode, content);
    if mode.Ensure? && Filled(text, s) {
      FilledStays(text, s, content);
    }
  }
}
