/** The version index and the changelog that a work order extends. */
module VersionLists {
  import opened Text

  datatype Meta = Meta(version: string, date: string, summary: string)

  /** Line boundaries of `str.splitlines`. */
  predicate IsBreak(c: char) {
    var u := c as int;
    0x0A <= u <= 0x0D || 0x1C <= u <= 0x1E || u == 0x85 || u == 0x2028 || u == 0x2029
  }

  function LineEnd(s: string, i: nat): (r: nat)
    requires i <= |s|
    ensures i <= r <= |s| && (r < |s| ==> IsBreak(s[r])) && forall k :: i <= k < r ==> !IsBreak(s[k])
    decreases |s| - i
  {
    if i == |s| || IsBreak(s[i]) then i else LineEnd(s, i + 1)
  }

  /** Where the next line starts: a carriage return and a line feed are one boundary. */
  function NextLine(s: string, n: nat): (r: nat)
    requires n < |s|
    ensures n < r <= |s|
  {
    if s[n] == '\r' && n + 1 < |s| && s[n + 1] == '\n' then n + 2 else n + 1
  }

  function SplitLines(s: string): seq<string>
    decreases |s|
  {
    if s == "" then []
    else
      var n := LineEnd(s, 0);
      if n == |s| then [s] else [s[..n]] + SplitLines(s[NextLine(s, n)..])
  }

  /** `"\n".join(lines) + "\n"` of a non-empty list. */
  function Unlines(ls: seq<string>): string {
    if ls == [] then "" else ls[0] + "\n" + Unlines(ls[1..])
  }

  ghost predicate Mentions(ls: seq<string>, v: string) {
    exists i :: 0 <= i < |ls| && Contains(ls[i], v)
  }

  function TopLine(m: Meta): string {
    "- " + m.version + " — " + m.date + " — " + m.summary
  }

  function Entry(m: Meta): string {
    "## " + m.version + " — " + m.date + "\n- " + m.summary + "\n\n"
  }

  /** Behind a first heading line and the line after it, as far as there are lines. */
  function InsertAt(ls: seq<string>): (r: nat)
    ensures r <= |ls|
  {
    var at := if ls != [] && ls[0] != "" && ls[0][0] == '#' then 1 else 0;
    if at < |ls| then at + 1 else at
  }

  function Inserted(ls: seq<string>, line: string): seq<string> {
    ls[..InsertAt(ls)] + [line] + ls[InsertAt(ls)..]
  }

  ghost function IndexAfter(index: string, m: Meta): string {
    if Mentions(SplitLines(index), m.version) then index else Unlines(Inserted(SplitLines(index), TopLine(m)))
  }

  ghost function ChangelogAfter(changelog: string, m: Meta): string {
    if Contains(changelog, m.version) then changelog
    else (if changelog != "" && changelog[|changelog| - 1] == '\n' then changelog else changelog + "\n") + Entry(m)
  }

  method EnsureIndexAndChangelog(index: string, changelog: string, m: Meta) returns (index': string, changelog': string)
    ensures
      var lines := SplitLines(index);
      var heading := lines != [] && "#" <= lines[0];
      var k := if heading then (if |lines| > 1 then 2 else 1) else if lines != [] then 1 else 0;
      index' == if exists i :: 0 <= i < |lines| && Contains(lines[i], m.version) then index
                else Unlines(lines[..k] + ["- " + m.version + " — " + m.date + " — " + m.summary] + lines[k..])
    ensures
      changelog' == if Contains(changelog, m.version) then changelog
                    else changelog + (if changelog != "" && changelog[|changelog| - 1] == '\n' then "" else "\n")
                         + ("## " + m.version + " — " + m.date + "\n- " + m.summary + "\n\n")
    ensures index' == IndexAfter(index, m) && changelog' == ChangelogAfter(changelog, m)
  {
    index', changelog' := index, changelog;
    var idxLines := SplitLines(index);
    var insertAt := if idxLines != [] && idxLines[0] != "" && idxLines[0][0] == '#' then 1 else 0;
    if insertAt < |idxLines| {
      insertAt := insertAt + 1;
    }
    var mentioned := false;
    for i := 0 to |idxLines|
      invariant mentioned <==> Mentions(idxLines[..i], m.version)
    {
      MentionsSnoc(idxLines, i, m.version);
      FindAbsent(idxLines[i], m.version);
      mentioned := mentioned || Find(idxLines[i], m.version) != -1;
    }
    assert idxLines[..|idxLines|] == idxLines;
    if !mentioned {
      idxLines := idxLines[..insertAt] + [TopLine(m)] + idxLines[insertAt..];
      index' := Unlines(idxLines);
    }
    FindAbsent(changelog, m.version);
    if Find(changelog, m.version) == -1 {
      if changelog == "" || changelog[|changelog| - 1] != '\n' {
        changelog' := changelog' + "\n";
      }
      changelog' := changelog' + Entry(m);
    }
    IndexAfterTells(index, m);
  }

  lemma {:induction false} IndexAfterTells(index: string, m: Meta)
    ensures
      var lines := SplitLines(index);
      var heading := lines != [] && "#" <= lines[0];
      var k := if heading then (if |lines| > 1 then 2 else 1) else if lines != [] then 1 else 0;
      IndexAfter(index, m) == if exists i :: 0 <= i < |lines| && Contains(lines[i], m.version) then index
                              else Unlines(lines[..k] + ["- " + m.version + " — " + m.date + " — " + m.summary] + lines[k..])
  {}

  lemma {:induction false} MentionsSnoc(ls: seq<string>, i: nat, v: string)
    requires i < |ls|
    ensures Mentions(ls[..i + 1], v) <==> Mentions(ls[..i], v) || Contains(ls[i], v)
  {
    var longer, shorter := ls[..i + 1], ls[..i];
    assert longer == shorter + [ls[i]];
    if k :| 0 <= k < |shorter| && Contains(shorter[k], v) {
      assert longer[k] == shorter[k];
    }
    if Contains(ls[i], v) {
      assert longer[i] == ls[i];
    }
    if k :| 0 <= k < |longer| && Contains(longer[k], v) {
      assert k < i ==> shorter[k] == longer[k];
    }
  }

  // ----- lines and their boundaries

  /** The code points that end a line, one by one; each is white space too. */
  lemma {:induction false} BreaksExactly(c: char)
    ensures IsBreak(c) <==> c as int in {10, 11, 12, 13, 28, 29, 30, 0x85, 0x2028, 0x2029}
    ensures IsBreak(c) ==> IsSpace(c)
  {}

  /** A line ends at the first boundary, and "\r\n" is one boundary. */
  lemma {:induction false} SplitAtBreak(l: string, c: char, rest: string)
    requires OneLine(l) && IsBreak(c)
    ensures c != '\r' || !("\n" <= rest) ==> SplitLines(l + [c] + rest) == [l] + SplitLines(rest)
    ensures SplitLines(l + "\r\n" + rest) == [l] + SplitLines(rest)
    ensures SplitLines("") == [] && (l != "" ==> SplitLines(l) == [l])
  {
    var s, t := l + [c] + rest, l + "\r\n" + rest;
    assert s[|l|] == c && s[..|l|] == l && s[|l| + 1..] == rest;
    assert t[|l|] == '\r' && t[|l| + 1] == '\n' && t[..|l|] == l && t[|l| + 2..] == rest;
    FirstBreak(s, |l|);
    FirstBreak(t, |l|);
  }

  lemma {:induction false} FirstBreak(s: string, n: nat)
    requires n < |s| && IsBreak(s[n]) && forall k :: 0 <= k < n ==> !IsBreak(s[k])
    ensures LineEnd(s, 0) == n
  {}

  /** Lines written one below the other are read back. */
  lemma {:induction false} LinesRoundTrip(ls: seq<string>)
    requires forall i :: 0 <= i < |ls| ==> OneLine(ls[i])
    ensures SplitLines(Unlines(ls)) == ls
  {
    if ls != [] {
      LinesRoundTrip(ls[1..]);
      SplitAtBreak(ls[0], '\n', Unlines(ls[1..]));
      assert ls[0] + ['\n'] + Unlines(ls[1..]) == Unlines(ls);
    }
  }

  /** A new version on one line adds one line to the index and leaves the others as they were. */
  lemma {:induction false} IndexGainsOneLine(index: string, m: Meta)
    requires OneLine(m.version) && OneLine(m.date) && OneLine(m.summary)
    ensures
      var before, after := SplitLines(index), SplitLines(IndexAfter(index, m));
      if exists i :: 0 <= i < |before| && Contains(before[i], m.version) then after == before
      else exists k: nat :: k <= |before| && after == before[..k] + [TopLine(m)] + before[k..]
  {
    var before := SplitLines(index);
    if !Mentions(before, m.version) {
      LinesAreOneLine(index);
      TopIsOneLine(m);
      LinesRoundTrip(Inserted(before, TopLine(m)));
      assert SplitLines(IndexAfter(index, m)) == before[..InsertAt(before)] + [TopLine(m)] + before[InsertAt(before)..];
    }
  }

  lemma {:induction false} TopIsOneLine(m: Meta)
    requires OneLine(m.version) && OneLine(m.date) && OneLine(m.summary)
    ensures OneLine(TopLine(m))
  {
    OneLineConcat("- ", m.version);
    OneLineConcat("- " + m.version, " — ");
    OneLineConcat("- " + m.version + " — ", m.date);
    OneLineConcat("- " + m.version + " — " + m.date, " — ");
    OneLineConcat("- " + m.version + " — " + m.date + " — ", m.summary);
  }

  lemma {:induction false} OneLineConcat(a: string, b: string)
    requires OneLine(a) && OneLine(b)
    ensures OneLine(a + b)
  {}

  // ----- a version on one line is found again

  ghost predicate OneLine(v: string) {
    forall k :: 0 <= k < |v| ==> !IsBreak(v[k])
  }

  lemma {:induction false} MentionsFirst(l: string, ls: seq<string>, v: string)
    ensures Contains(l, v) ==> Mentions([l] + ls, v)
    ensures Mentions(ls, v) ==> Mentions([l] + ls, v)
  {
    assert ([l] + ls)[0] == l;
    if i :| 0 <= i < |ls| && Contains(ls[i], v) {
      assert ([l] + ls)[i + 1] == ls[i];
    }
  }

  /** A text without line boundaries that occurs in `s` occurs in one of its lines. */
  lemma {:induction false} OccursInSomeLine(s: string, v: string, p: nat)
    requires OneLine(v) && v != "" && At(s, v, p)
    ensures Mentions(SplitLines(s), v)
    decreases |s|
  {
    var n := LineEnd(s, 0);
    if n == |s| {
      MentionsFirst(s, [], v);
      assert [s] + [] == [s];
    } else {
      var k := NextLine(s, n);
      MentionsFirst(s[..n], SplitLines(s[k..]), v);
      if p + |v| <= n {
        assert s == s[..n] + s[n..];
        AtPrefix(s[..n], s[n..], v, p);
      } else {
        BehindBreak(s, v, p, n);
        assert s == s[..k] + s[k..];
        AtSuffix(s[..k], s[k..], v, p - k);
        OccursInSomeLine(s[k..], v, p - k);
      }
    }
  }

  /** An occurrence that does not end before the break at `n` starts on a later line. */
  lemma {:induction false} BehindBreak(s: string, v: string, p: nat, n: nat)
    requires OneLine(v) && v != "" && At(s, v, p) && n < |s| && IsBreak(s[n]) && p + |v| > n
    ensures p >= NextLine(s, n)
  {
    AtMatches(s, v, p);
    if p == n + 1 {
      assert !IsBreak(v[0]);
    }
  }

  lemma {:induction false} UnlinesContains(ls: seq<string>, i: nat, v: string)
    requires i < |ls| && Contains(ls[i], v)
    ensures Contains(Unlines(ls), v)
  {
    if i == 0 {
      var p :| At(ls[0], v, p);
      assert Unlines(ls) == ls[0] + ("\n" + Unlines(ls[1..]));
      AtPrefix(ls[0], "\n" + Unlines(ls[1..]), v, p);
    } else {
      UnlinesContains(ls[1..], i - 1, v);
      var p :| At(Unlines(ls[1..]), v, p);
      AtSuffix(ls[0] + "\n", Unlines(ls[1..]), v, p);
    }
  }

  lemma {:induction false} TopMentions(m: Meta)
    ensures Contains(TopLine(m), m.version)
  {
    var t := TopLine(m);
    assert t == "- " + (m.version + (" — " + m.date + " — " + m.summary));
    assert t[2..2 + |m.version|] == m.version;
    assert At(t, m.version, 2);
  }

  lemma {:induction false} EntryMentions(m: Meta, before: string)
    ensures Contains(before + Entry(m), m.version)
  {
    var e := Entry(m);
    assert e == "## " + (m.version + (" — " + m.date + "\n- " + m.summary + "\n\n"));
    assert e[3..3 + |m.version|] == m.version;
    AtSuffix(before, e, m.version, 3);
    assert At(before + e, m.version, |before| + 3);
  }

  lemma {:induction false} NonEmptyHasLine(s: string)
    requires s != ""
    ensures SplitLines(s) != []
  {}

  lemma {:induction false} OneLineMentioned(ls: seq<string>, m: Meta)
    requires OneLine(m.version)
    ensures Mentions(SplitLines(Unlines(Inserted(ls, TopLine(m)))), m.version)
  {
    var all := Inserted(ls, TopLine(m));
    assert all[InsertAt(ls)] == TopLine(m);
    TopMentions(m);
    UnlinesContains(all, InsertAt(ls), m.version);
    var s := Unlines(all);
    var p :| At(s, m.version, p);
    if m.version == "" {
      assert s != "";
      NonEmptyHasLine(s);
      assert At(SplitLines(s)[0], "", 0);
    } else {
      OccursInSomeLine(s, m.version, p);
    }
  }

  // ----- a version with a line break never is

  lemma {:induction false} LinesAreOneLine(s: string)
    ensures forall i :: 0 <= i < |SplitLines(s)| ==> OneLine(SplitLines(s)[i])
    decreases |s|
  {
    if s != "" {
      var n := LineEnd(s, 0);
      if n < |s| {
        LinesAreOneLine(s[NextLine(s, n)..]);
      }
    }
  }

  lemma {:induction false} BrokenNeverMentioned(s: string, v: string)
    requires !OneLine(v)
    ensures !Mentions(SplitLines(s), v)
  {
    LinesAreOneLine(s);
    var k :| 0 <= k < |v| && IsBreak(v[k]);
    forall i, p | 0 <= i < |SplitLines(s)| ensures !At(SplitLines(s)[i], v, p) {
      if At(SplitLines(s)[i], v, p) {
        AtMatches(SplitLines(s)[i], v, p);
      }
    }
  }

  lemma {:induction false} OneMoreLine(l: string, rest: string)
    ensures |SplitLines(l + "\n" + rest)| >= 1 + |SplitLines(rest)|
    decreases |l|
  {
    var s := l + "\n" + rest;
    var n := LineEnd(s, 0);
    assert s[|l|] == '\n';
    assert n <= |l|;
    var k := NextLine(s, n);
    if n == |l| || k == |l| + 1 {
      assert s[|l| + 1..] == rest;
      assert k == |l| + 1;
    } else {
      assert k <= |l| && s[k..] == l[k..] + "\n" + rest;
      OneMoreLine(l[k..], rest);
    }
  }

  lemma {:induction false} AtLeastOneLineEach(ls: seq<string>)
    ensures |SplitLines(Unlines(ls))| >= |ls|
  {
    if ls != [] {
      AtLeastOneLineEach(ls[1..]);
      OneMoreLine(ls[0], Unlines(ls[1..]));
    }
  }

  ghost predicate IndexIdempotent(index: string, m: Meta) {
    IndexAfter(IndexAfter(index, m), m) == IndexAfter(index, m)
  }

  /** Extending the index twice is extending it once exactly when the version is on one line: lines
      never hold a line break, so a version with one is inserted again every time. */
  lemma {:induction false} IndexIdempotentExactly(index: string, m: Meta)
    ensures IndexIdempotent(index, m) <==> OneLine(m.version)
  {
    if OneLine(m.version) {
      if !Mentions(SplitLines(index), m.version) {
        OneLineMentioned(SplitLines(index), m);
      }
    } else {
      BrokenNeverMentioned(index, m.version);
      var once := IndexAfter(index, m);
      BrokenNeverMentioned(once, m.version);
      var more := Inserted(SplitLines(once), TopLine(m));
      AtLeastOneLineEach(more);
      assert |SplitLines(IndexAfter(once, m))| >= |more| > |SplitLines(once)|;
    }
  }

  /** Extending the changelog twice is always extending it once. */
  lemma {:induction false} ChangelogIdempotent(changelog: string, m: Meta)
    ensures ChangelogAfter(ChangelogAfter(changelog, m), m) == ChangelogAfter(changelog, m)
    ensures Contains(ChangelogAfter(changelog, m), m.version)
  {
    if !Contains(changelog, m.version) {
      EntryMentions(m, if changelog != "" && changelog[|changelog| - 1] == '\n' then changelog else changelog + "\n");
    }
  }
}
