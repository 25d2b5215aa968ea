/**
 * Deterministic ordering of table rows. A SQL `ORDER BY` turns a table (a set of rows)
 * into a list sorted by some key; `SortSet` is that operation for a strict total order.
 */
module Ordering {

  /** `lt` is a strict total order on the elements of `s`. */
  ghost predicate StrictTotalOn<T>(s: set<T>, lt: (T, T) -> bool) {
    && (forall a :: a in s ==> !lt(a, a))
    && (forall a, b, c :: a in s && b in s && c in s && lt(a, b) && lt(b, c) ==> lt(a, c))
    && (forall a, b :: a in s && b in s && a != b ==> lt(a, b) || lt(b, a))
  }

  predicate IsLeast<T(==)>(m: T, s: set<T>, lt: (T, T) -> bool) {
    m in s && forall y :: y in s && y != m ==> lt(m, y)
  }

  lemma StrictTotalOnSubset<T>(s: set<T>, t: set<T>, lt: (T, T) -> bool)
    requires StrictTotalOn(s, lt) && t <= s
    ensures StrictTotalOn(t, lt)
  {
  }

  /** Every finite non-empty set has a least element under a strict total order. */
  lemma {:induction false} LeastExists<T>(s: set<T>, lt: (T, T) -> bool)
    requires s != {} && StrictTotalOn(s, lt)
    ensures exists m :: IsLeast(m, s, lt)
    decreases s
  {
    var x :| x in s;
    if s != {x} {
      StrictTotalOnSubset(s, s - {x}, lt);
      LeastExists(s - {x}, lt);
      var m :| IsLeast(m, s - {x}, lt);
      if lt(x, m) {
        assert IsLeast(x, s, lt);
      } else {
        assert IsLeast(m, s, lt);
      }
    } else {
      assert IsLeast(x, s, lt);
    }
  }

  /** The elements of `s` listed in increasing `lt` order: each exactly once. */
  function SortSet<T(==,!new)>(s: set<T>, lt: (T, T) -> bool): (r: seq<T>)
    requires StrictTotalOn(s, lt)
    ensures |r| == |s|
    ensures forall x :: x in r <==> x in s
    ensures forall i, j :: 0 <= i < j < |r| ==> lt(r[i], r[j])
    decreases s
  {
    if s == {} then []
    else
      LeastExists(s, lt);
      var m :| IsLeast(m, s, lt);
      StrictTotalOnSubset(s, s - {m}, lt);
      [m] + SortSet(s - {m}, lt)
  }

  // ----- SQL MAX over a non-empty group -----

  lemma {:induction false} MaxExists(s: set<int>)
    requires s != {}
    ensures exists m :: m in s && forall y :: y in s ==> y <= m
    decreases s
  {
    var x := PickOne(s);
    var rest := s - {x};
    if rest == {} {
      forall y | y in s ensures y <= x {
        assert y !in rest;
      }
    } else {
      MaxExists(rest);
      var m :| m in rest && forall y :: y in rest ==> y <= m;
      var big := if x > m then x else m;
      assert forall y :: y in s ==> y == x || y in rest;
      assert big in s && forall y :: y in s ==> y <= big;
    }
  }

  lemma PickOne<T>(s: set<T>) returns (x: T)
    requires s != {}
    ensures x in s
  {
    x :| x in s;
  }

  /** `MAX(...)`: the largest element of a non-empty set of integers. */
  function MaxOf(s: set<int>): (m: int)
    requires s != {}
    ensures m in s && forall y :: y in s ==> y <= m
  {
    MaxExists(s);
    var m :| m in s && forall y :: y in s ==> y <= m;
    m
  }

  // ----- strings: SQLite's BINARY collation, i.e. code-point order -----

  /** `a` sorts strictly before `b`: a proper prefix, or smaller at the first difference. */
  predicate StrLess(a: string, b: string) {
    if |a| == 0 then |b| > 0
    else if |b| == 0 then false
    else if a[0] == b[0] then StrLess(a[1..], b[1..])
    else a[0] < b[0]
  }

  lemma {:induction false} StrLessIrreflexive(a: string)
    ensures !StrLess(a, a)
  {
    if |a| > 0 {
      StrLessIrreflexive(a[1..]);
    }
  }

  lemma {:induction false} StrLessTransitive(a: string, b: string, c: string)
    requires StrLess(a, b) && StrLess(b, c)
    ensures StrLess(a, c)
  {
    if |a| > 0 && |b| > 0 && |c| > 0 && a[0] == b[0] && b[0] == c[0] {
      StrLessTransitive(a[1..], b[1..], c[1..]);
    }
  }

  lemma {:induction false} StrLessConnected(a: string, b: string)
    requires a != b
    ensures StrLess(a, b) || StrLess(b, a)
  {
    if |a| > 0 && |b| > 0 && a[0] == b[0] {
      assert a == [a[0]] + a[1..] && b == [b[0]] + b[1..];
      StrLessConnected(a[1..], b[1..]);
    }
  }

  /** The three facts above for all strings at once, ready for the quantifiers of `StrictTotalOn`. */
  lemma StrLessIsStrictTotal()
    ensures forall a :: !StrLess(a, a)
    ensures forall a, b, c :: StrLess(a, b) && StrLess(b, c) ==> StrLess(a, c)
    ensures forall a, b :: a != b ==> StrLess(a, b) || StrLess(b, a)
  {
    forall a ensures !StrLess(a, a) {
      StrLessIrreflexive(a);
    }
    forall a, b, c | StrLess(a, b) && StrLess(b, c) ensures StrLess(a, c) {
      StrLessTransitive(a, b, c);
    }
    forall a, b | a != b ensures StrLess(a, b) || StrLess(b, a) {
      StrLessConnected(a, b);
    }
  }
}
