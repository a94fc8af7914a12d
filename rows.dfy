/**
  * The table operations that Spring Data derives for every repository of the
  * application, over the rows of one table kept in insertion order: a WHERE
  * filter, a lookup of the first matching row, a save over the matching row, a
  * COUNT and a bulk DELETE.
  */
module Rows {
  import opened Common

  /** SELECT ... WHERE keep(row), in table order. */
  function Filter<T(!new)>(s: seq<T>, keep: T -> bool): (r: seq<T>)
    ensures |r| <= |s|
    ensures forall x :: x in r <==> x in s && keep(x)
  {
    if s == [] then []
    else
      var rest := Filter(s[1..], keep);
      assert s == [s[0]] + s[1..];
      if keep(s[0]) then [s[0]] + rest else rest
  }

  /** The filter keeps every copy of a kept row and no copy of a dropped one. */
  lemma {:induction false} FilterMultiplicity<T(!new)>(s: seq<T>, keep: T -> bool, x: T)
    ensures multiset(Filter(s, keep))[x] == if keep(x) then multiset(s)[x] else 0
  {
    if s != [] {
      FilterMultiplicity(s[1..], keep, x);
      assert s == [s[0]] + s[1..];
      assert multiset(s) == multiset{s[0]} + multiset(s[1..]);
    }
  }

  /** The first row that satisfies `p`, if any (findBy... returning Optional). */
  function FindFirst<T>(s: seq<T>, p: T -> bool): (o: Option<T>)
    ensures o.Some? ==> o.value in s && p(o.value)
    ensures o.None? <==> forall k :: 0 <= k < |s| ==> !p(s[k])
  {
    if s == [] then None
    else if p(s[0]) then Some(s[0])
    else
      var o := FindFirst(s[1..], p);
      assert forall k :: 1 <= k < |s| ==> s[k] == s[1..][k - 1];
      o
  }

  /** SELECT COUNT(*) ... WHERE p(row). */
  function CountWhere<T(!new)>(s: seq<T>, p: T -> bool): (n: nat)
    ensures n == |Filter(s, p)|
    ensures n <= |s|
  {
    if s == [] then 0
    else (if p(s[0]) then 1 else 0) + CountWhere(s[1..], p)
  }

  /** save(x) over the rows that `p` identifies as the same entity. */
  function ReplaceWhere<T>(s: seq<T>, p: T -> bool, x: T): (r: seq<T>)
    ensures |r| == |s|
    ensures forall k :: 0 <= k < |s| ==> r[k] == if p(s[k]) then x else s[k]
  {
    if s == [] then []
    else [if p(s[0]) then x else s[0]] + ReplaceWhere(s[1..], p, x)
  }

  /** At most one row satisfies `p`. */
  ghost predicate AtMostOne<T>(s: seq<T>, p: T -> bool) {
    forall i, j :: 0 <= i < |s| && 0 <= j < |s| && p(s[i]) && p(s[j]) ==> i == j
  }

  /** When row k is the only match, the first match is row k. */
  lemma {:induction false} FindFirstOnly<T>(s: seq<T>, p: T -> bool, k: nat)
    requires k < |s| && p(s[k]) && AtMostOne(s, p)
    ensures FindFirst(s, p) == Some(s[k])
  {
    if k > 0 {
      assert !p(s[0]);
      var t := s[1..];
      assert t[k - 1] == s[k];
      assert AtMostOne(t, p) by {
        forall i, j | 0 <= i < |t| && 0 <= j < |t| && p(t[i]) && p(t[j]) ensures i == j {
          assert t[i] == s[i + 1] && t[j] == s[j + 1];
        }
      }
      FindFirstOnly(t, p, k - 1);
    }
  }

  /** When row k is the only match, saving over the match replaces row k and nothing else. */
  lemma ReplaceOnly<T>(s: seq<T>, p: T -> bool, x: T, k: nat)
    requires k < |s| && p(s[k]) && AtMostOne(s, p)
    ensures ReplaceWhere(s, p, x) == s[k := x]
  {
  }

  /** Overwriting row k brings in x and otherwise only rows that were there. */
  lemma ReplaceMembers<T>(s: seq<T>, k: nat, x: T)
    requires k < |s|
    ensures forall y :: y in s[k := x] ==> y == x || y in s
  {
    forall y | y in s[k := x] ensures y == x || y in s {
      var i :| 0 <= i < |s| && s[k := x][i] == y;
      assert i != k ==> y == s[i];
    }
  }

  /** When row k is the only row the filter drops, the result is the table without row k. */
  lemma {:induction false} FilterDropsOnly<T(!new)>(s: seq<T>, keep: T -> bool, k: nat)
    requires k < |s| && !keep(s[k])
    requires forall j :: 0 <= j < |s| && j != k ==> keep(s[j])
    ensures Filter(s, keep) == s[..k] + s[k + 1..]
  {
    var t := s[1..];
    if k == 0 {
      FilterKeepsAll(t, keep);
      assert s[..0] + s[1..] == t;
    } else {
      assert keep(s[0]);
      assert forall j :: 0 <= j < |t| && j != k - 1 ==> t[j] == s[j + 1];
      FilterDropsOnly(t, keep, k - 1);
      assert s[..k] == [s[0]] + t[..k - 1];
      assert s[k + 1..] == t[k..];
    }
  }

  /** A filter that every row passes returns the table unchanged. */
  lemma {:induction false} FilterKeepsAll<T(!new)>(s: seq<T>, keep: T -> bool)
    requires forall k :: 0 <= k < |s| ==> keep(s[k])
    ensures Filter(s, keep) == s
  {
    if s != [] {
      FilterKeepsAll(s[1..], keep);
    }
  }

  /** A filter that no row passes returns the empty table. */
  lemma {:induction false} FilterDropsAll<T(!new)>(s: seq<T>, keep: T -> bool)
    requires forall k :: 0 <= k < |s| ==> !keep(s[k])
    ensures Filter(s, keep) == []
  {
    if s != [] {
      FilterDropsAll(s[1..], keep);
    }
  }

  /** Filtering distributes over concatenation of tables. */
  lemma {:induction false} FilterConcat<T(!new)>(a: seq<T>, b: seq<T>, keep: T -> bool)
    ensures Filter(a + b, keep) == Filter(a, keep) + Filter(b, keep)
  {
    if a != [] {
      assert (a + b)[1..] == a[1..] + b;
      assert (a + b)[0] == a[0];
      FilterConcat(a[1..], b, keep);
    } else {
      assert a + b == b;
    }
  }
}
