/** What the database does to a queryset beyond filtering: enumerating rows,
    ordering them by `-pub_date`, and averaging a column. */
module Queries {
  import opened Wrappers

  /** Every finite non-empty set of keys has a least element. */
  lemma {:induction false} MinimumExists(s: set<nat>)
    requires s != {}
    ensures exists m :: m in s && IsLeast(m, s)
  {
    var y :| y in s;
    var rest := s - {y};
    if rest == {} {
      forall x | x in s ensures y <= x {
        assert x == y || x in rest;
      }
      assert y in s && IsLeast(y, s);
    } else {
      MinimumExists(rest);
      var m :| m in rest && IsLeast(m, rest);
      var least := if y < m then y else m;
      forall x | x in s ensures least <= x {
        if x != y { assert x in rest; }
      }
      assert least in s && IsLeast(least, s);
    }
  }

  predicate IsLeast(m: nat, s: set<nat>)
  {
    forall x :: x in s ==> m <= x
  }

  /** The least key of a non-empty set. */
  function Least(s: set<nat>): (m: nat)
    requires s != {}
    ensures m in s && IsLeast(m, s)
  {
    MinimumExists(s);
    var m :| m in s && IsLeast(m, s); m
  }

  /** The keys of a set in ascending order, each once. A query without
      `ORDER BY` promises no order at all; key order is this model's choice
      for the rows that the newest-first sort then orders. */
  function Ascending(s: set<nat>): (r: seq<nat>)
    ensures |r| == |s|
    ensures forall x :: x in r <==> x in s
    ensures forall i, j :: 0 <= i < j < |r| ==> r[i] < r[j]
    decreases s
  {
    if s == {} then []
    else
      var m := Least(s);
      var rest := Ascending(s - {m});
      assert forall x :: x in rest ==> m < x;
      [m] + rest
  }

  /** Every key has a date. */
  predicate Dated(ids: seq<nat>, dates: map<nat, int>)
  {
    forall i :: 0 <= i < |ids| ==> ids[i] in dates
  }

  /** `ordering = ["-pub_date"]`: no row is followed by a newer one. */
  predicate NewestFirst(ids: seq<nat>, dates: map<nat, int>)
  {
    && Dated(ids, dates)
    && forall i, j :: 0 <= i < j < |ids| ==> dates[ids[i]] >= dates[ids[j]]
  }

  /** The first key of a newest-first sequence is not older than any key in it. */
  lemma HeadIsNewest(s: seq<nat>, dates: map<nat, int>)
    requires NewestFirst(s, dates) && s != []
    ensures forall y :: y in s ==> dates[y] <= dates[s[0]]
  {
    forall y | y in s ensures dates[y] <= dates[s[0]] {
      var i :| 0 <= i < |s| && s[i] == y;
      if i > 0 { assert dates[s[0]] >= dates[s[i]]; }
    }
  }

  /** A key not older than every key of a newest-first sequence may go in front of it. */
  lemma PrependNewest(h: nat, s: seq<nat>, dates: map<nat, int>)
    requires h in dates && NewestFirst(s, dates)
    requires forall y :: y in s ==> dates[y] <= dates[h]
    ensures NewestFirst([h] + s, dates)
  {
    var r := [h] + s;
    forall i, j | 0 <= i < j < |r| ensures dates[r[i]] >= dates[r[j]] {
      assert r[j] == s[j - 1];
      if i > 0 { assert r[i] == s[i - 1]; } else { assert s[j - 1] in s; }
    }
  }

  /** A key not older than the head of a newest-first sequence may go in front of it. */
  lemma PrependNotOlder(h: nat, s: seq<nat>, dates: map<nat, int>)
    requires h in dates && NewestFirst(s, dates)
    requires s == [] || dates[s[0]] <= dates[h]
    ensures NewestFirst([h] + s, dates)
  {
    if s != [] { HeadIsNewest(s, dates); }
    PrependNewest(h, s, dates);
  }

  /** Places `x` in front of the first key that is not newer than it. */
  function InsertNewestFirst(x: nat, s: seq<nat>, dates: map<nat, int>): (r: seq<nat>)
    requires x in dates && NewestFirst(s, dates)
    ensures NewestFirst(r, dates)
    ensures multiset(r) == multiset(s) + multiset{x}
    ensures forall y :: y in r ==> y == x || y in s
  {
    if s == [] || dates[s[0]] <= dates[x] then
      PrependNotOlder(x, s, dates);
      [x] + s
    else
      var rest := InsertNewestFirst(x, s[1..], dates);
      HeadIsNewest(s, dates);
      assert forall y :: y in s[1..] ==> y in s;
      PrependNewest(s[0], rest, dates);
      assert s == [s[0]] + s[1..];
      [s[0]] + rest
  }

  /** The rows ordered newest first; the database leaves the order of equal dates open
      and this model keeps rows of equal date in their input order. */
  function SortNewestFirst(ids: seq<nat>, dates: map<nat, int>): (r: seq<nat>)
    requires Dated(ids, dates)
    ensures NewestFirst(r, dates)
    ensures multiset(r) == multiset(ids)
  {
    if ids == [] then []
    else
      assert ids == [ids[0]] + ids[1..];
      InsertNewestFirst(ids[0], SortNewestFirst(ids[1..], dates), dates)
  }

  function Sum(s: seq<int>): int
  {
    if s == [] then 0 else s[0] + Sum(s[1..])
  }

  /** `Avg` over a column with the fractional part dropped; no rows give `None`
      (SQL `NULL`). */
  function Mean(s: seq<int>): (r: Option<int>)
    ensures r.None? <==> s == []
  {
    if s == [] then None else Some(Sum(s) / |s|)
  }

  /** Values that all lie in [lo, hi] add up to between lo and hi times their number. */
  lemma {:induction false} SumBounds(s: seq<int>, lo: int, hi: int)
    requires forall i :: 0 <= i < |s| ==> lo <= s[i] <= hi
    ensures lo * |s| <= Sum(s) <= hi * |s|
  {
    if s != [] {
      SumBounds(s[1..], lo, hi);
      assert lo * |s| == lo + lo * |s[1..]|;
      assert hi * |s| == hi + hi * |s[1..]|;
    }
  }

  /** The mean of values in [lo, hi] lies in [lo, hi]. */
  lemma MeanBounds(s: seq<int>, lo: int, hi: int)
    requires forall i :: 0 <= i < |s| ==> lo <= s[i] <= hi
    ensures Mean(s).Some? ==> lo <= Mean(s).value <= hi
  {
    if s != [] {
      SumBounds(s, lo, hi);
      DivisionBounds(Sum(s), |s|, lo, hi);
    }
  }

  lemma DivisionBounds(a: int, n: int, lo: int, hi: int)
    requires n > 0 && lo * n <= a <= hi * n
    ensures lo <= a / n <= hi
  {
    var q, r := a / n, a % n;
    assert a == q * n + r && 0 <= r < n;
    assert (lo - q) * n < n by { assert (lo - q) * n == lo * n - q * n; }
    assert (q - hi) * n <= 0 by { assert (q - hi) * n == q * n - hi * n; }
    ProductSign(lo - q, n);
    ProductSign(q - hi, n);
  }

  lemma ProductSign(x: int, n: int)
    requires n > 0
    ensures x * n < n ==> x < 1
    ensures x * n <= 0 ==> x <= 0
  {
    if x >= 1 {
      assert x * n == n + (x - 1) * n;
    }
  }
}
