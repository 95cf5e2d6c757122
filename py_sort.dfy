/**
 * Python's `sorted` on a list of byte strings: ascending in the lexicographic order
 * that compares characters by code and ranks a proper prefix first.
 */
module PySort {

  /** `a <= b` on Python strings. */
  predicate LessEq(a: string, b: string)
    decreases |a|
  {
    |a| == 0 || (|b| > 0 && (a[0] < b[0] || (a[0] == b[0] && LessEq(a[1..], b[1..]))))
  }

  lemma {:induction false} LessEqTotal(a: string, b: string)
    ensures LessEq(a, b) || LessEq(b, a)
    decreases |a|
  {
    if |a| > 0 && |b| > 0 && a[0] == b[0] {
      LessEqTotal(a[1..], b[1..]);
    }
  }

  lemma {:induction false} LessEqReflexive(a: string)
    ensures LessEq(a, a)
    decreases |a|
  {
    if |a| > 0 { LessEqReflexive(a[1..]); }
  }

  lemma {:induction false} LessEqAntisymmetric(a: string, b: string)
    requires LessEq(a, b) && LessEq(b, a)
    ensures a == b
    decreases |a|
  {
    if |a| > 0 {
      LessEqAntisymmetric(a[1..], b[1..]);
      assert a == [a[0]] + a[1..] && b == [b[0]] + b[1..];
    }
  }

  lemma {:induction false} LessEqTransitive(a: string, b: string, c: string)
    requires LessEq(a, b) && LessEq(b, c)
    ensures LessEq(a, c)
    decreases |a|
  {
    if |a| > 0 && a[0] == b[0] && b[0] == c[0] {
      LessEqTransitive(a[1..], b[1..], c[1..]);
    }
  }

  predicate Sorted(s: seq<string>)
  {
    forall i, j :: 0 <= i < j < |s| ==> LessEq(s[i], s[j])
  }

  function Insert(x: string, s: seq<string>): (r: seq<string>)
    ensures multiset(r) == multiset(s) + multiset{x}
    ensures Sorted(s) ==> Sorted(r)
  {
    if |s| == 0 then [x]
    else if LessEq(x, s[0]) then
      InsertFrontSorted(x, s);
      [x] + s
    else
      LessEqTotal(x, s[0]);
      var t := Insert(x, s[1..]);
      assert s == [s[0]] + s[1..];
      InsertBehindSorted(x, s, t);
      [s[0]] + t
  }

  lemma InsertFrontSorted(x: string, s: seq<string>)
    requires |s| > 0 && LessEq(x, s[0])
    ensures Sorted(s) ==> Sorted([x] + s)
  {
    if Sorted(s) {
      var r := [x] + s;
      forall i, j | 0 <= i < j < |r| ensures LessEq(r[i], r[j]) {
        if i == 0 && j > 1 { LessEqTransitive(x, s[0], s[j - 1]); }
      }
    }
  }

  lemma InsertBehindSorted(x: string, s: seq<string>, t: seq<string>)
    requires |s| > 0 && LessEq(s[0], x)
    requires multiset(t) == multiset(s[1..]) + multiset{x}
    requires Sorted(s[1..]) ==> Sorted(t)
    ensures Sorted(s) ==> Sorted([s[0]] + t)
  {
    if Sorted(s) {
      forall j | 0 <= j < |t| ensures LessEq(s[0], t[j]) {
        assert t[j] in multiset(t);
        if t[j] != x {
          assert t[j] in multiset(s[1..]);
          var k :| 0 <= k < |s[1..]| && s[1..][k] == t[j];
          assert s[k + 1] == t[j];
        }
      }
    }
  }

  /** `sorted(s)`. */
  function Sort(s: seq<string>): (r: seq<string>)
    ensures multiset(r) == multiset(s)
    ensures Sorted(r)
  {
    if |s| == 0 then []
    else
      assert s == [s[0]] + s[1..];
      Insert(s[0], Sort(s[1..]))
  }

  /** A sorted list is determined by its elements: sorting forgets the input order. */
  lemma {:induction false} SortedUnique(a: seq<string>, b: seq<string>)
    requires Sorted(a) && Sorted(b) && multiset(a) == multiset(b)
    ensures a == b
    decreases |a|
  {
    assert |a| == |multiset(a)| == |multiset(b)| == |b|;
    if |a| > 0 {
      HeadIsLeast(a, b[0]);
      HeadIsLeast(b, a[0]);
      LessEqAntisymmetric(a[0], b[0]);
      TailOfSorted(a);
      TailOfSorted(b);
      SortedUnique(a[1..], b[1..]);
      assert a == [a[0]] + a[1..] && b == [b[0]] + b[1..];
    }
  }

  /** The head of a sorted list is below each of its elements. */
  lemma HeadIsLeast(a: seq<string>, x: string)
    requires Sorted(a) && x in multiset(a)
    ensures LessEq(a[0], x)
  {
    var i :| 0 <= i < |a| && a[i] == x;
    if i == 0 { LessEqReflexive(x); }
  }

  lemma TailOfSorted(a: seq<string>)
    requires Sorted(a) && |a| > 0
    ensures Sorted(a[1..]) && multiset(a[1..]) == multiset(a) - multiset{a[0]}
  {
    assert a == [a[0]] + a[1..];
  }

  lemma SortPermutationInvariant(a: seq<string>, b: seq<string>)
    requires multiset(a) == multiset(b)
    ensures Sort(a) == Sort(b)
  {
    SortedUnique(Sort(a), Sort(b));
  }
}
