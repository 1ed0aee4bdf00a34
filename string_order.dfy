/**
  The order PHP's default `sort` puts file paths in: byte-wise comparison of
  the two strings, a proper prefix coming first. A sort is given as an
  insertion sort on sequences, proved to return a sorted permutation of its
  input, and the sorted permutation is proved unique.
*/
module StringOrder {

  /** `a` sorts no later than `b`. */
  predicate LexLessEq(a: string, b: string)
    decreases |a|
  {
    |a| == 0 || (|b| > 0 && (a[0] < b[0] || (a[0] == b[0] && LexLessEq(a[1..], b[1..]))))
  }

  lemma {:induction false} LexReflexive(a: string)
    ensures LexLessEq(a, a)
    decreases |a|
  {
    if |a| > 0 {
      LexReflexive(a[1..]);
    }
  }

  lemma {:induction false} LexTotal(a: string, b: string)
    ensures LexLessEq(a, b) || LexLessEq(b, a)
    decreases |a|
  {
    if |a| > 0 && |b| > 0 && a[0] == b[0] {
      LexTotal(a[1..], b[1..]);
    }
  }

  lemma {:induction false} LexAntisymmetric(a: string, b: string)
    requires LexLessEq(a, b) && LexLessEq(b, a)
    ensures a == b
    decreases |a|
  {
    if |a| > 0 {
      LexAntisymmetric(a[1..], b[1..]);
      assert a == [a[0]] + a[1..];
      assert b == [b[0]] + b[1..];
    }
  }

  lemma {:induction false} LexTransitive(a: string, b: string, c: string)
    requires LexLessEq(a, b) && LexLessEq(b, c)
    ensures LexLessEq(a, c)
    decreases |a|
  {
    if |a| > 0 && a[0] == b[0] && b[0] == c[0] {
      LexTransitive(a[1..], b[1..], c[1..]);
    }
  }

  /** Every element sorts no later than every element after it. */
  predicate Sorted(s: seq<string>)
  {
    forall i, j :: 0 <= i < j < |s| ==> LexLessEq(s[i], s[j])
  }

  /** Putting an element that sorts no later than all of a sorted sequence in front keeps it sorted. */
  lemma PrependSorted(y: string, t: seq<string>)
    requires Sorted(t)
    requires forall j :: 0 <= j < |t| ==> LexLessEq(y, t[j])
    ensures Sorted([y] + t)
  {
  }

  /** What sorts no later than the head of a sorted sequence sorts no later than all of it. */
  lemma BelowHead(x: string, s: seq<string>)
    requires Sorted(s) && s != [] && LexLessEq(x, s[0])
    ensures forall j :: 0 <= j < |s| ==> LexLessEq(x, s[j])
  {
    forall j | 0 < j < |s| ensures LexLessEq(x, s[j]) {
      LexTransitive(x, s[0], s[j]);
    }
  }

  /** The head of a sorted sequence sorts no later than its tail with `x` inserted, when it sorts no later than `x`. */
  lemma HeadBelowInserted(x: string, s: seq<string>, rest: seq<string>)
    requires Sorted(s) && s != [] && LexLessEq(s[0], x)
    requires multiset(rest) == multiset(s[1..]) + multiset{x}
    ensures forall j :: 0 <= j < |rest| ==> LexLessEq(s[0], rest[j])
  {
    forall j | 0 <= j < |rest| ensures LexLessEq(s[0], rest[j]) {
      assert rest[j] in multiset(rest);
      if rest[j] != x {
        assert rest[j] in multiset(s[1..]);
        var k :| 0 <= k < |s[1..]| && s[1..][k] == rest[j];
        assert s[k + 1] == rest[j];
      }
    }
  }

  /** Puts `x` into the sorted `s` before the first element it does not sort after. */
  function Insert(x: string, s: seq<string>): (r: seq<string>)
    requires Sorted(s)
    ensures Sorted(r)
    ensures multiset(r) == multiset(s) + multiset{x}
  {
    if s == [] then [x]
    else if LexLessEq(x, s[0]) then
      BelowHead(x, s);
      PrependSorted(x, s);
      [x] + s
    else
      LexTotal(x, s[0]);
      var rest := Insert(x, s[1..]);
      HeadBelowInserted(x, s, rest);
      PrependSorted(s[0], rest);
      assert s == [s[0]] + s[1..];
      [s[0]] + rest
  }

  /** PHP `sort` on a list of paths. */
  function SortStrings(s: seq<string>): (r: seq<string>)
    ensures Sorted(r)
    ensures multiset(r) == multiset(s)
  {
    if s == [] then []
    else
      assert s == [s[0]] + s[1..];
      Insert(s[0], SortStrings(s[1..]))
  }

  /** The first element of a sorted sequence sorts no later than any of its elements. */
  lemma SortedHeadIsLeast(a: seq<string>, x: string)
    requires Sorted(a) && x in a
    ensures LexLessEq(a[0], x)
  {
    var i :| 0 <= i < |a| && a[i] == x;
    if i == 0 {
      LexReflexive(x);
    }
  }

  /** Removing the head of a sequence removes one occurrence of it from the multiset. */
  lemma MultisetOfTail(a: seq<string>)
    requires a != []
    ensures multiset(a[1..]) == multiset(a) - multiset{a[0]}
  {
    assert a == [a[0]] + a[1..];
  }

  /** Two sorted arrangements of the same elements are the same sequence. */
  lemma {:induction false} SortedPermutationUnique(a: seq<string>, b: seq<string>)
    requires Sorted(a) && Sorted(b)
    requires multiset(a) == multiset(b)
    ensures a == b
    decreases |a|
  {
    assert |a| == |multiset(a)| == |multiset(b)| == |b|;
    if a != [] {
      assert a[0] in multiset(b) && b[0] in multiset(a);
      SortedHeadIsLeast(b, a[0]);
      SortedHeadIsLeast(a, b[0]);
      LexAntisymmetric(a[0], b[0]);
      MultisetOfTail(a);
      MultisetOfTail(b);
      SortedPermutationUnique(a[1..], b[1..]);
      assert a == [a[0]] + a[1..];
      assert b == [b[0]] + b[1..];
    }
  }

  /** Whatever order the paths arrive in, sorting them gives one result. */
  lemma SortIsOrderIndependent(s: seq<string>, t: seq<string>)
    requires multiset(s) == multiset(t)
    ensures SortStrings(s) == SortStrings(t)
  {
    SortedPermutationUnique(SortStrings(s), SortStrings(t));
  }
}
