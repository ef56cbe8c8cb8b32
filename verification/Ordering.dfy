/** ORDER BY, LIMIT and OFFSET. */
module Ordering {
  import opened Common

  ghost predicate TotalPreorder<T(!new)>(le: (T, T) -> bool) {
    && (forall a, b :: le(a, b) || le(b, a))
    && (forall a, b, c :: le(a, b) && le(b, c) ==> le(a, c))
  }

  /** Lexicographic order on lists of sort values. */
  predicate LexLeq(x: seq<int>, y: seq<int>) {
    x == [] || y == [] || x[0] < y[0] || (x[0] == y[0] && LexLeq(x[1..], y[1..]))
  }

  lemma {:induction false} LexIsPreorder(x: seq<int>, y: seq<int>, z: seq<int>)
    requires |x| == |y| == |z|
    ensures LexLeq(x, y) || LexLeq(y, x)
    ensures LexLeq(x, y) && LexLeq(y, z) ==> LexLeq(x, z)
  {
    if x != [] {
      LexIsPreorder(x[1..], y[1..], z[1..]);
    }
  }

  /** x may come before y: wherever y has the smaller value, x has the smaller one at an earlier
      place. */
  lemma {:induction false} LexLeqExactlyWhen(x: seq<int>, y: seq<int>)
    requires |x| == |y|
    ensures LexLeq(x, y) <==> forall k :: 0 <= k < |x| && y[k] < x[k] ==> SmallerBefore(x, y, k)
  {
    if x != [] {
      var x', y' := x[1..], y[1..];
      LexLeqExactlyWhen(x', y');
      if x[0] == y[0] {
        forall k | 0 <= k < |x'| ensures SmallerBefore(x', y', k) <==> SmallerBefore(x, y, k + 1) {
          SmallerBeforeInTail(x, y, k);
        }
        forall k | 0 <= k < |x| && y[k] < x[k] ensures 0 < k && y'[k - 1] < x'[k - 1] {
        }
        forall k | 0 <= k < |x'| && y'[k] < x'[k] ensures y[k + 1] < x[k + 1] {
        }
      }
    }
  }

  ghost predicate SmallerBefore(x: seq<int>, y: seq<int>, k: int)
    requires |x| == |y| && k <= |x|
  {
    exists j :: 0 <= j < k && x[j] < y[j]
  }

  lemma SmallerBeforeInTail(x: seq<int>, y: seq<int>, k: nat)
    requires |x| == |y| && k < |x| - 1 && x[0] == y[0]
    ensures SmallerBefore(x[1..], y[1..], k) <==> SmallerBefore(x, y, k + 1)
  {
    if SmallerBefore(x, y, k + 1) {
      var j :| 0 <= j < k + 1 && x[j] < y[j];
      assert x[1..][j - 1] < y[1..][j - 1];
    }
    if SmallerBefore(x[1..], y[1..], k) {
      var j :| 0 <= j < k && x[1..][j] < y[1..][j];
      assert x[j + 1] < y[j + 1];
    }
  }

  /** Every element exactly once, in some order. */
  ghost predicate Enumerates<T(!new)>(all: seq<T>, s: set<T>) {
    |all| == |s| && forall x :: x in all <==> x in s
  }

  ghost predicate Sorted<T>(all: seq<T>, le: (T, T) -> bool) {
    forall i, j :: 0 <= i < j < |all| ==> le(all[i], all[j])
  }

  /** A possible result of ORDER BY: ties may come out in any order. */
  ghost predicate IsOrdering<T(!new)>(all: seq<T>, s: set<T>, le: (T, T) -> bool) {
    Enumerates(all, s) && Sorted(all, le)
  }

  function Window<T>(all: seq<T>, limit: int, offset: int): seq<T> {
    var rest := if offset > 0 then all[Min(offset, |all|)..] else all;
    if limit > 0 then rest[..Min(limit, |rest|)] else rest
  }

  /** The part of a list that LIMIT and OFFSET ask for: a positive offset skips so many elements,
      and of the rest a positive limit keeps at most so many. */
  ghost predicate IsPageOf<T>(page: seq<T>, all: seq<T>, limit: int, offset: int) {
    var skipped := if offset <= 0 then 0 else if offset <= |all| then offset else |all|;
    && |page| == (if 0 < limit < |all| - skipped then limit else |all| - skipped)
    && forall i :: 0 <= i < |page| ==> page[i] == all[skipped + i]
  }

  lemma WindowIsPage<T>(page: seq<T>, all: seq<T>, limit: int, offset: int)
    ensures IsPageOf(page, all, limit, offset) <==> page == Window(all, limit, offset)
  {
    var skipped := if offset <= 0 then 0 else if offset <= |all| then offset else |all|;
    var rest := all[skipped..];
    assert offset <= 0 ==> rest == all;
    var w := Window(all, limit, offset);
    assert w == rest[..if 0 < limit < |rest| then limit else |rest|];
    assert forall i :: 0 <= i < |w| ==> w[i] == all[skipped + i];
  }

  /** Without a limit and an offset the page is the whole list. */
  lemma WholePage<T>(page: seq<T>, all: seq<T>, limit: int, offset: int)
    requires limit <= 0 && offset <= 0 && IsPageOf(page, all, limit, offset)
    ensures page == all
  {
  }

  /** A page continues the list where the previous one stopped, and is empty only at its end. */
  lemma WindowContinues<T>(all: seq<T>, limit: int, k: nat)
    requires limit > 0 && k <= |all|
    ensures k + |Window(all, limit, k)| <= |all|
    ensures all[..k] + Window(all, limit, k) == all[..k + |Window(all, limit, k)|]
    ensures k < |all| ==> Window(all, limit, k) != []
  {
    if k == 0 {
      assert all[..0] == [];
    }
  }

  method Least<T(==,!new)>(s: set<T>, le: (T, T) -> bool) returns (m: T)
    requires s != {} && TotalPreorder(le)
    ensures m in s && forall x :: x in s ==> le(m, x)
  {
    m :| m in s;
    assert le(m, m);
    var rest := s - {m};
    while rest != {}
      invariant rest <= s && m in s
      invariant forall x :: x in s && x !in rest ==> le(m, x)
      decreases |rest|
    {
      var x :| x in rest;
      assert le(x, x) && (le(x, m) || le(m, x));
      if le(x, m) {
        forall y | y in s && y !in rest ensures le(x, y) {
          assert le(m, y);
        }
        m := x;
      }
      rest := rest - {x};
    }
  }

  /** The elements taken so far, sorted and before all that are left. */
  ghost predicate SortedSoFar<T(!new)>(all: seq<T>, taken: set<T>, rest: set<T>, le: (T, T) -> bool) {
    && taken !! rest && Enumerates(all, taken) && Sorted(all, le)
    && forall y, x :: y in taken && x in rest ==> le(y, x)
  }

  lemma OneMoreSorted<T(!new)>(all: seq<T>, taken: set<T>, rest: set<T>, le: (T, T) -> bool, m: T)
    requires SortedSoFar(all, taken, rest, le) && m in rest && forall x :: x in rest ==> le(m, x)
    ensures SortedSoFar(all + [m], taken + {m}, rest - {m}, le)
  {
    EnumeratesMore(all, taken, m);
    forall i | 0 <= i < |all| ensures le(all[i], m) {
      assert all[i] in taken;
    }
  }

  /** The database's sort. */
  method Order<T(==,!new)>(s: set<T>, le: (T, T) -> bool) returns (all: seq<T>)
    requires TotalPreorder(le)
    ensures IsOrdering(all, s, le)
  {
    all := [];
    var rest := s;
    ghost var taken: set<T> := {};
    while rest != {}
      invariant taken + rest == s && SortedSoFar(all, taken, rest, le)
      decreases |rest|
    {
      var m := Least(rest, le);
      OneMoreSorted(all, taken, rest, le, m);
      all := all + [m];
      rest := rest - {m};
      taken := taken + {m};
    }
    assert taken == s;
  }

  lemma EnumeratesMore<T(!new)>(all: seq<T>, s: set<T>, m: T)
    requires Enumerates(all, s) && m !in s
    ensures Enumerates(all + [m], s + {m})
  {
  }

  lemma {:induction false} EnumerationIsDistinct<T(!new)>(all: seq<T>, s: set<T>)
    requires Enumerates(all, s)
    ensures forall i, j :: 0 <= i < j < |all| ==> all[i] != all[j]
  {
    if i, j :| 0 <= i < j < |all| && all[i] == all[j] {
      var shorter := all[..j] + all[j + 1..];
      assert forall x :: x in all <==> x in shorter by {
        forall x | x in all ensures x in shorter {
          var k :| 0 <= k < |all| && all[k] == x;
          assert x == shorter[if k == j then i else if k < j then k else k - 1];
        }
      }
      assert s == set x | x in shorter;
      SetOfSeqSize(shorter);
    }
  }

  lemma {:induction false} SetOfSeqSize<T(!new)>(all: seq<T>)
    ensures |set x | x in all| <= |all|
  {
    if all == [] {
      assert (set x | x in all) == {};
    } else {
      SetOfSeqSize(all[1..]);
      assert (set x | x in all) == {all[0]} + set x | x in all[1..];
    }
  }

  /** Without ties there is only one ordering. */
  lemma {:induction false} OrderingIsUnique<T(!new)>(a: seq<T>, b: seq<T>, s: set<T>, le: (T, T) -> bool)
    requires IsOrdering(a, s, le) && IsOrdering(b, s, le)
    requires forall x, y :: x in s && y in s && le(x, y) && le(y, x) ==> x == y
    ensures a == b
  {
    if a != [] {
      EnumerationIsDistinct(a, s);
      EnumerationIsDistinct(b, s);
      assert a[0] in s && b[0] in s;
      var i :| 0 <= i < |b| && b[i] == a[0];
      var j :| 0 <= j < |a| && a[j] == b[0];
      assert a[0] == b[0];
      TailEnumerates(a, s);
      TailEnumerates(b, s);
      OrderingIsUnique(a[1..], b[1..], s - {a[0]}, le);
      assert a == [a[0]] + a[1..] && b == [b[0]] + b[1..];
    }
  }

  lemma TailEnumerates<T(!new)>(a: seq<T>, s: set<T>)
    requires Enumerates(a, s) && a != []
    ensures Enumerates(a[1..], s - {a[0]})
  {
    EnumerationIsDistinct(a, s);
    assert a[0] in s;
    forall x ensures x in a[1..] <==> x in s - {a[0]} {
      assert a == [a[0]] + a[1..];
      if x in a[1..] {
        var k :| 0 <= k < |a[1..]| && a[1..][k] == x;
        assert a[k + 1] == x;
      }
    }
  }
}
