/** Orderings and duplicate-free sorting, as used by Python's `sorted` over the
    distinct values of a column. */
module Ordering {

  /** `less` is a strict total order: irreflexive, transitive and connected. */
  ghost predicate StrictTotalOrder<T(!new)>(less: (T, T) -> bool) {
    && (forall x :: !less(x, x))
    && (forall x, y, z :: less(x, y) && less(y, z) ==> less(x, z))
    && (forall x, y :: x != y ==> less(x, y) || less(y, x))
  }

  /** Every earlier element is strictly below every later one, so in
      particular no value occurs twice. */
  ghost predicate StrictlySorted<T>(s: seq<T>, less: (T, T) -> bool) {
    forall i, j :: 0 <= i < j < |s| ==> less(s[i], s[j])
  }

  /** Python's comparison of two `str` values: code point by code point, a
      proper prefix coming first. */
  predicate LexLess(a: string, b: string)
    decreases |a|
  {
    if |a| == 0 then |b| > 0
    else |b| > 0 && (a[0] < b[0] || (a[0] == b[0] && LexLess(a[1..], b[1..])))
  }

  predicate IntLess(a: int, b: int) {
    a < b
  }

  lemma {:induction false} LexLessIrreflexive(a: string)
    ensures !LexLess(a, a)
    decreases |a|
  {
    if |a| > 0 {
      LexLessIrreflexive(a[1..]);
    }
  }

  lemma {:induction false} LexLessTransitive(a: string, b: string, c: string)
    requires LexLess(a, b) && LexLess(b, c)
    ensures LexLess(a, c)
    decreases |a|
  {
    if |a| > 0 && a[0] == b[0] && b[0] == c[0] {
      LexLessTransitive(a[1..], b[1..], c[1..]);
    }
  }

  lemma {:induction false} LexLessConnected(a: string, b: string)
    requires a != b
    ensures LexLess(a, b) || LexLess(b, a)
    decreases |a|
  {
    if |a| > 0 && |b| > 0 && a[0] == b[0] {
      assert a == [a[0]] + a[1..] && b == [b[0]] + b[1..];
      LexLessConnected(a[1..], b[1..]);
    }
  }

  /** Python's `str` ordering is a strict total order on strings. */
  /** `a` is a proper prefix of `b`. */
  ghost predicate ProperPrefix(a: string, b: string) {
    |a| < |b| && a == b[..|a|]
  }

  /** `a` and `b` agree before position `k` and `a` has the smaller code
      point at `k`. */
  ghost predicate FirstBelowAt(a: string, b: string, k: int) {
    0 <= k < |a| && k < |b| && a[..k] == b[..k] && a[k] < b[k]
  }

  lemma ShiftPrefix(a: string, b: string)
    requires |a| > 0 && |b| > 0
    ensures ProperPrefix(a, b) <==> a[0] == b[0] && ProperPrefix(a[1..], b[1..])
  {
    if ProperPrefix(a, b) {
      assert a[0] == b[..|a|][0];
      assert a[1..] == b[..|a|][1..];
    }
    if a[0] == b[0] && ProperPrefix(a[1..], b[1..]) {
      assert a == [a[0]] + a[1..];
      assert b[..|a|] == [b[0]] + b[1..][..|a| - 1];
    }
  }

  lemma ShiftFirstBelow(a: string, b: string, k: int)
    requires |a| > 0 && |b| > 0 && k >= 0
    ensures FirstBelowAt(a, b, k + 1) <==> a[0] == b[0] && FirstBelowAt(a[1..], b[1..], k)
  {
    if FirstBelowAt(a, b, k + 1) {
      assert a[0] == a[..k + 1][0] && b[0] == b[..k + 1][0];
      assert a[1..][..k] == a[..k + 1][1..] && b[1..][..k] == b[..k + 1][1..];
    }
    if a[0] == b[0] && FirstBelowAt(a[1..], b[1..], k) {
      assert a[..k + 1] == [a[0]] + a[1..][..k];
      assert b[..k + 1] == [b[0]] + b[1..][..k];
    }
  }

  /** Python's string order, stated without recursion: `a` sorts before `b`
      exactly when `a` is a proper prefix of `b`, or at the first position
      where they differ `a` has the smaller code point. */
  lemma {:induction false} LexLessFirstDifference(a: string, b: string)
    ensures LexLess(a, b) <==> ProperPrefix(a, b) || exists k :: FirstBelowAt(a, b, k)
    decreases |a|
  {
    if |a| == 0 {
      assert |b| > 0 ==> a == b[..0];
    } else if |b| > 0 {
      LexLessFirstDifference(a[1..], b[1..]);
      ShiftPrefix(a, b);
      if a[0] < b[0] {
        assert FirstBelowAt(a, b, 0);
      } else {
        forall k | FirstBelowAt(a, b, k)
          ensures k > 0 && a[0] == b[0] && FirstBelowAt(a[1..], b[1..], k - 1)
        {
          if k > 0 {
            ShiftFirstBelow(a, b, k - 1);
          }
        }
        if a[0] == b[0] {
          forall k | FirstBelowAt(a[1..], b[1..], k) ensures FirstBelowAt(a, b, k + 1) {
            ShiftFirstBelow(a, b, k);
          }
        }
      }
    }
  }

  lemma LexLessIsStrictTotalOrder()
    ensures StrictTotalOrder(LexLess)
  {
    forall x: string ensures !LexLess(x, x) {
      LexLessIrreflexive(x);
    }
    forall x: string, y: string, z: string | LexLess(x, y) && LexLess(y, z)
      ensures LexLess(x, z)
    {
      LexLessTransitive(x, y, z);
    }
    forall x: string, y: string | x != y
      ensures LexLess(x, y) || LexLess(y, x)
    {
      LexLessConnected(x, y);
    }
  }

  lemma IntLessIsStrictTotalOrder()
    ensures StrictTotalOrder(IntLess)
  {
  }

  /** Inserts `x` into the strictly sorted `s`, leaving `s` alone when `x` is
      already there. */
  function Insert<T(==,!new)>(x: T, s: seq<T>, less: (T, T) -> bool): (r: seq<T>)
    requires StrictTotalOrder(less)
    requires StrictlySorted(s, less)
    ensures StrictlySorted(r, less)
    ensures forall y :: y in r <==> y in s || y == x
  {
    if |s| == 0 then [x]
    else if x == s[0] then s
    else if less(x, s[0]) then [x] + s
    else
      var rest := Insert(x, s[1..], less);
      assert forall y :: y in rest ==> less(s[0], y);
      [s[0]] + rest
  }

  /** The duplicate-free, ascending list of the values occurring in `xs`:
      `sorted(set(xs))`. */
  function SortedUnique<T(==,!new)>(xs: seq<T>, less: (T, T) -> bool): (r: seq<T>)
    requires StrictTotalOrder(less)
    ensures StrictlySorted(r, less)
    ensures forall y :: y in r <==> y in xs
    decreases |xs|
  {
    if |xs| == 0 then []
    else Insert(xs[|xs| - 1], SortedUnique(xs[..|xs| - 1], less), less)
  }

  /** The head of a strictly sorted list is below every other element. */
  lemma HeadIsLeast<T(!new)>(s: seq<T>, less: (T, T) -> bool)
    requires StrictlySorted(s, less)
    requires |s| > 0
    ensures forall y :: y in s ==> y == s[0] || less(s[0], y)
  {
  }

  lemma SameMembersSameEmptiness<T>(a: seq<T>, b: seq<T>)
    requires forall y :: y in a <==> y in b
    ensures |a| == 0 <==> |b| == 0
  {
    if |a| > 0 {
      assert a[0] in b;
    }
    if |b| > 0 {
      assert b[0] in a;
    }
  }

  /** Two strictly sorted lists with the same elements are equal: the sorted
      option list is determined by the set of values alone. */
  lemma {:induction false} StrictlySortedUnique<T(!new)>(a: seq<T>, b: seq<T>, less: (T, T) -> bool)
    requires StrictTotalOrder(less)
    requires StrictlySorted(a, less) && StrictlySorted(b, less)
    requires forall y :: y in a <==> y in b
    ensures a == b
    decreases |a|
  {
    SameMembersSameEmptiness(a, b);
    if |a| > 0 {
      HeadIsLeast(a, less);
      HeadIsLeast(b, less);
      assert a[0] in b && b[0] in a;
      assert a[0] == b[0];
      forall y ensures y in a[1..] <==> y in b[1..] {
        if y in a[1..] {
          var i :| 1 <= i < |a| && a[i] == y;
          assert less(a[0], y);
          assert y in a;
          assert y in b;
          var k :| 0 <= k < |b| && b[k] == y;
          assert k != 0;
          assert b[1..][k - 1] == y;
        }
        if y in b[1..] {
          var j :| 1 <= j < |b| && b[j] == y;
          assert less(b[0], y);
          assert y in b;
          assert y in a;
          var k :| 0 <= k < |a| && a[k] == y;
          assert k != 0;
          assert a[1..][k - 1] == y;
        }
      }
      StrictlySortedUnique(a[1..], b[1..], less);
      assert a == [a[0]] + a[1..] && b == [b[0]] + b[1..];
    }
  }
}
