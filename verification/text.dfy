/** Python's string operations as the components use them, on sequences of code points. */
module Text {

  /** Characters `str.strip` removes. */
  predicate IsSpace(c: char) {
    var u := c as int;
    || 0x09 <= u <= 0x0D || 0x1C <= u <= 0x20 || u == 0x85 || u == 0xA0 || u == 0x1680
    || 0x2000 <= u <= 0x200A || u == 0x2028 || u == 0x2029 || u == 0x202F || u == 0x205F || u == 0x3000
  }

  function LStrip(s: string): string {
    if s != [] && IsSpace(s[0]) then LStrip(s[1..]) else s
  }

  function RStrip(s: string): string {
    if s != [] && IsSpace(s[|s| - 1]) then RStrip(s[..|s| - 1]) else s
  }

  function Strip(s: string): string {
    RStrip(LStrip(s))
  }

  predicate Trimmed(s: string) {
    s != [] ==> !IsSpace(s[0]) && !IsSpace(s[|s| - 1])
  }

  lemma {:induction false} LStripHead(s: string)
    ensures LStrip(s) != [] ==> !IsSpace(LStrip(s)[0])
  {
    if s != [] && IsSpace(s[0]) {
      LStripHead(s[1..]);
    }
  }

  lemma {:induction false} RStripEnds(s: string)
    ensures RStrip(s) <= s && (RStrip(s) != [] ==> !IsSpace(RStrip(s)[|RStrip(s)| - 1]))
  {
    if s != [] && IsSpace(s[|s| - 1]) {
      RStripEnds(s[..|s| - 1]);
    }
  }

  lemma {:induction false} StripIsTrimmed(s: string)
    ensures Trimmed(Strip(s))
  {
    LStripHead(s);
    RStripEnds(LStrip(s));
  }

  /** The code points that count as white space, one by one. */
  lemma {:induction false} SpacesExactly(c: char)
    ensures IsSpace(c) <==> c as int in {
              9, 10, 11, 12, 13, 28, 29, 30, 31, 32, 0x85, 0xA0, 0x1680, 0x2000, 0x2001, 0x2002, 0x2003, 0x2004, 0x2005, 0x2006,
              0x2007, 0x2008, 0x2009, 0x200A, 0x2028, 0x2029, 0x202F, 0x205F, 0x3000}
  {}

  /** What is left of a text without white space at its ends. */
  lemma {:induction false} StripExactly(s: string) returns (i: nat, j: nat)
    ensures i <= j <= |s| && Strip(s) == s[i..j]
    ensures forall k :: 0 <= k < i || j <= k < |s| ==> IsSpace(s[k])
    ensures i < j ==> !IsSpace(s[i]) && !IsSpace(s[j - 1])
  {
    i := LStripExactly(s);
    var n := RStripExactly(LStrip(s));
    j := i + n;
    assert LStrip(s)[..n] == s[i..j];
    assert forall k :: j <= k < |s| ==> s[k] == LStrip(s)[k - i];
    StripIsTrimmed(s);
  }

  lemma {:induction false} LStripExactly(s: string) returns (i: nat)
    ensures i <= |s| && LStrip(s) == s[i..] && forall k :: 0 <= k < i ==> IsSpace(s[k])
  {
    i := 0;
    if s != [] && IsSpace(s[0]) {
      var n := LStripExactly(s[1..]);
      i := n + 1;
      assert forall k :: 1 <= k < i ==> s[k] == s[1..][k - 1];
    }
  }

  lemma {:induction false} RStripExactly(s: string) returns (j: nat)
    ensures j <= |s| && RStrip(s) == s[..j] && forall k :: j <= k < |s| ==> IsSpace(s[k])
    ensures j > 0 ==> !IsSpace(s[j - 1])
  {
    j := |s|;
    if s != [] && IsSpace(s[|s| - 1]) {
      j := RStripExactly(s[..|s| - 1]);
    }
  }

  /** A stripped text survives being written with a final newline and stripped again. */
  lemma {:induction false} StripAfterNewline(t: string)
    requires Trimmed(t)
    ensures Strip(t + "\n") == t && Strip(t) == t
  {
    var s := t + "\n";
    assert IsSpace(s[|t|]) && s[..|t|] == t;
    if t == [] {
      assert s[1..] == [] && s == "\n";
      assert LStrip(s) == LStrip(s[1..]) == [];
    } else {
      assert s[0] == t[0] && LStrip(s) == s && RStrip(s) == RStrip(t);
    }
  }

  // ----- searching

  /** `p` occurs in `s` at position `i`. */
  predicate At(s: string, p: string, i: int) {
    0 <= i && i + |p| <= |s| && s[i..i + |p|] == p
  }

  ghost predicate Contains(s: string, p: string) {
    exists i :: At(s, p, i)
  }

  function FindFrom(s: string, p: string, i: nat): int
    decreases |s| - i
  {
    if i + |p| > |s| then -1 else if s[i..i + |p|] == p then i else FindFrom(s, p, i + 1)
  }

  /** `str.find`: the first position of `p`, or -1. */
  function Find(s: string, p: string): int {
    FindFrom(s, p, 0)
  }

  lemma {:induction false} FindFromIsFirst(s: string, p: string, i: nat)
    ensures var r := FindFrom(s, p, i);
      if r == -1 then forall j :: i <= j ==> !At(s, p, j)
      else i <= r && At(s, p, r) && forall j :: i <= j < r ==> !At(s, p, j)
    decreases |s| - i
  {
    if i + |p| <= |s| && s[i..i + |p|] != p {
      FindFromIsFirst(s, p, i + 1);
    }
  }

  lemma {:induction false} FindIsFirst(s: string, p: string)
    ensures var r := Find(s, p);
      if r == -1 then !Contains(s, p) else r >= 0 && At(s, p, r) && forall j :: 0 <= j < r ==> !At(s, p, j)
  {
    FindFromIsFirst(s, p, 0);
  }

  /** A first occurrence pins down what `Find` returns. */
  lemma {:induction false} FindPinned(s: string, p: string, i: nat)
    requires At(s, p, i) && forall j :: 0 <= j < i ==> !At(s, p, j)
    ensures Find(s, p) == i
  {
    FindIsFirst(s, p);
  }

  lemma {:induction false} FindAbsent(s: string, p: string)
    ensures Find(s, p) == -1 <==> !Contains(s, p)
  {
    FindIsFirst(s, p);
  }

  /** An occurrence in a prefix is an occurrence in the whole. */
  lemma {:induction false} AtPrefix(x: string, y: string, p: string, i: int)
    ensures At(x, p, i) ==> At(x + y, p, i)
    ensures At(x + y, p, i) && i + |p| <= |x| ==> At(x, p, i)
  {
    if 0 <= i && i + |p| <= |x| {
      assert (x + y)[i..i + |p|] == x[i..i + |p|];
    }
  }

  lemma {:induction false} AtSuffix(x: string, y: string, p: string, i: int)
    ensures At(y, p, i) ==> At(x + y, p, |x| + i)
    ensures At(x + y, p, |x| + i) && i >= 0 ==> At(y, p, i)
  {
    if 0 <= i && i + |p| <= |y| {
      assert (x + y)[|x| + i..|x| + i + |p|] == y[i..i + |p|];
    }
  }

  /** What is found in a prefix is found first in the whole. */
  lemma {:induction false} FindPrefix(x: string, y: string, p: string)
    requires Find(x, p) >= 0
    ensures Find(x + y, p) == Find(x, p)
  {
    FindIsFirst(x, p);
    AtPrefix(x, y, p, Find(x, p));
    forall j | 0 <= j < Find(x, p) ensures !At(x + y, p, j) {
      AtPrefix(x, y, p, j);
    }
    FindPinned(x + y, p, Find(x, p));
  }

  /** A first occurrence that ends within a prefix is found there. */
  lemma {:induction false} FindInPrefix(s: string, p: string, n: nat)
    requires n <= |s|
    ensures 0 <= Find(s, p) && Find(s, p) + |p| <= n ==> Find(s[..n], p) == Find(s, p)
    ensures Find(s, p) == -1 || Find(s, p) + |p| > n ==> Find(s[..n], p) == -1
  {
    assert s == s[..n] + s[n..];
    FindIsFirst(s, p);
    FindIsFirst(s[..n], p);
    AtPrefix(s[..n], s[n..], p, Find(s, p));
    AtPrefix(s[..n], s[n..], p, Find(s[..n], p));
    if 0 <= Find(s[..n], p) {
      FindPrefix(s[..n], s[n..], p);
    }
  }

  /** A first occurrence that starts within a suffix is found there. */
  lemma {:induction false} FindInSuffix(s: string, p: string, n: nat)
    requires n <= |s|
    ensures Find(s, p) >= n ==> Find(s[n..], p) == Find(s, p) - n
    ensures Find(s, p) == -1 ==> Find(s[n..], p) == -1
  {
    assert s == s[..n] + s[n..];
    FindIsFirst(s, p);
    FindIsFirst(s[n..], p);
    if Find(s, p) >= n {
      AtSuffix(s[..n], s[n..], p, Find(s, p) - n);
      forall j | 0 <= j < Find(s, p) - n ensures !At(s[n..], p, j) {
        AtSuffix(s[..n], s[n..], p, j);
      }
      FindPinned(s[n..], p, Find(s, p) - n);
    } else if Find(s[n..], p) >= 0 {
      AtSuffix(s[..n], s[n..], p, Find(s[n..], p));
    }
  }

  lemma {:induction false} AtMatches(s: string, p: string, i: int)
    requires At(s, p, i)
    ensures forall k :: 0 <= k < |p| ==> p[k] == s[i + k]
  {
    forall k | 0 <= k < |p| ensures p[k] == s[i + k] {
      assert s[i..i + |p|][k] == s[i + k];
    }
  }

  /** The same, from the positions of `s`. */
  lemma {:induction false} AtCovers(s: string, p: string, i: int)
    requires At(s, p, i)
    ensures forall k :: i <= k < i + |p| ==> s[k] == p[k - i]
  {
    AtMatches(s, p, i);
    forall k | i <= k < i + |p| ensures s[k] == p[k - i] {
      assert p[k - i] == s[i + (k - i)];
    }
  }

  lemma {:induction false} AtAvoids(s: string, p: string, i: int, k: nat)
    requires At(s, p, i) && k < |s| && s[k] !in p
    ensures k < i || i + |p| <= k
  {
    AtMatches(s, p, i);
  }

  lemma {:induction false} AtAcrossNewline(x: string, y: string, p: string, j: int)
    requires '\n' !in p && At(x + "\n" + y, p, j)
    ensures At(x, p, j) || (j >= |x| + 1 && At(y, p, j - |x| - 1))
  {
    var s := x + "\n" + y;
    assert s == x + ("\n" + y) && s == (x + "\n") + y;
    assert s[|x|] == '\n';
    AtAvoids(s, p, j, |x|);
    AtPrefix(x, "\n" + y, p, j);
    AtSuffix(x + "\n", y, p, j - |x| - 1);
  }

  lemma {:induction false} FindBehindNewline(x: string, y: string, p: string)
    requires p != "" && '\n' !in p && Find(x, p) == -1
    ensures Find(x + "\n" + y, p) == if Find(y, p) >= 0 then |x| + 1 + Find(y, p) else -1
  {
    var s := x + "\n" + y;
    FindIsFirst(x, p);
    FindIsFirst(y, p);
    forall j | At(s, p, j) ensures j >= |x| + 1 && At(y, p, j - |x| - 1) {
      AtAcrossNewline(x, y, p, j);
    }
    if Find(y, p) >= 0 {
      AtSuffix(x + "\n", y, p, Find(y, p));
      FindPinned(s, p, |x| + 1 + Find(y, p));
    } else {
      FindAbsent(s, p);
    }
  }

  /** A pattern on one line occurs before or after a line break, never across it. */
  lemma {:induction false} FindAcrossNewline(x: string, y: string, p: string)
    requires p != "" && '\n' !in p
    ensures Find(x + "\n" + y, p)
      == if Find(x, p) >= 0 then Find(x, p) else if Find(y, p) >= 0 then |x| + 1 + Find(y, p) else -1
  {
    FindIsFirst(x, p);
    if Find(x, p) >= 0 {
      assert x + "\n" + y == x + ("\n" + y);
      FindPrefix(x, "\n" + y, p);
    } else {
      FindBehindNewline(x, y, p);
    }
  }

  lemma {:induction false} FindHead(p: string, y: string)
    ensures Find(p + y, p) == 0
  {
    assert (p + y)[0..|p|] == p;
    FindPinned(p + y, p, 0);
  }
}
