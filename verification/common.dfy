/** Small vocabulary shared by the component models. */
module Common {
  datatype Option<+T> = None | Some(value: T) {
    function GetOr(default: T): T {
      if Some? then value else default
    }
  }

  datatype Result<+T, +E> = Ok(value: T) | Err(error: E)

  ghost predicate NoDup<T(!new)>(s: seq<T>) {
    forall i, j :: 0 <= i < j < |s| ==> s[i] != s[j]
  }

  function Elements<T>(s: seq<T>): set<T> {
    set x | x in s
  }

  /** A sequence without repetition is as long as its set of elements. */
  lemma {:induction false} NoDupLength<T(!new)>(s: seq<T>)
    requires NoDup(s)
    ensures |s| == |Elements(s)|
  {
    if s != [] {
      var n := |s| - 1;
      NoDupLength(s[..n]);
      assert Elements(s) == Elements(s[..n]) + {s[n]};
    }
  }

  lemma {:induction false} ElementsOfConcat<T(!new)>(a: seq<T>, b: seq<T>)
    ensures Elements(a + b) == Elements(a) + Elements(b)
    ensures NoDup(a) && NoDup(b) && Elements(a) !! Elements(b) ==> NoDup(a + b)
  {
    var s := a + b;
    assert forall x :: x in s <==> x in a || x in b;
    if NoDup(a) && NoDup(b) && Elements(a) !! Elements(b) {
      forall i, j | 0 <= i < j < |s| ensures s[i] != s[j] {
        if i < |a| <= j {
          assert s[i] in Elements(a) && s[j] in Elements(b);
        }
      }
    }
  }

  lemma {:induction false} NoDupOccursOnce<T(!new)>(s: seq<T>, x: T)
    requires NoDup(s)
    ensures multiset(s)[x] <= 1
  {
    if s != [] {
      var init, last := s[..|s| - 1], s[|s| - 1];
      NoDupOccursOnce(init, x);
      assert s == init + [last];
      assert last !in multiset(init);
    }
  }

  lemma {:induction false} RepeatOccursTwice<T>(s: seq<T>, i: nat, j: nat)
    requires i < j < |s| && s[i] == s[j]
    ensures multiset(s)[s[i]] >= 2
  {
    assert s == s[..j] + [s[j]] + s[j + 1..];
    assert s[..j][i] in multiset(s[..j]);
  }

  lemma {:induction false} PermutationKeepsNoDup<T(!new)>(s: seq<T>, r: seq<T>)
    requires NoDup(s) && multiset(s) == multiset(r)
    ensures NoDup(r)
  {
    forall i, j | 0 <= i < j < |r| ensures r[i] != r[j] {
      NoDupOccursOnce(s, r[i]);
      if r[i] == r[j] {
        RepeatOccursTwice(r, i, j);
      }
    }
  }

  lemma {:induction false} SubsetSize<T>(a: set<T>, b: set<T>)
    requires a <= b
    ensures |a| <= |b|
  {
    assert |b| == |a| + |b - a| by {
      assert b == a + (b - a);
    }
  }
}
