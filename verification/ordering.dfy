/**
 Ordering and paging of query results: the `ORDER BY`, `LIMIT` and `OFFSET`
 parts of the stores' listings, stated once and shared by every listing.
 */
module Ordering {

  /** Code-point lexicographic order on text (the `ORDER BY` on a name column). */
  predicate TextLe(a: string, b: string)
    decreases |a|
  {
    |a| == 0 || (|b| > 0 && (a[0] < b[0] || (a[0] == b[0] && TextLe(a[1..], b[1..]))))
  }

  lemma {:induction false} TextLeTotal(a: string, b: string)
    ensures TextLe(a, b) || TextLe(b, a)
    decreases |a|
  {
    if |a| > 0 && |b| > 0 && a[0] == b[0] {
      TextLeTotal(a[1..], b[1..]);
    }
  }

  lemma {:induction false} TextLeTransitive(a: string, b: string, c: string)
    requires TextLe(a, b) && TextLe(b, c)
    ensures TextLe(a, c)
    decreases |a|
  {
    if |a| > 0 && a[0] == b[0] && b[0] == c[0] {
      TextLeTransitive(a[1..], b[1..], c[1..]);
    }
  }

  ghost predicate TotalPreorder<T(!new)>(le: (T, T) -> bool) {
    && (forall a, b :: le(a, b) || le(b, a))
    && (forall a, b, c :: le(a, b) && le(b, c) ==> le(a, c))
  }

  predicate Sorted<T>(s: seq<T>, le: (T, T) -> bool) {
    forall i, j :: 0 <= i < j < |s| ==> le(s[i], s[j])
  }

  /** Rows ordered by a text key, ascending. */
  function ByText<T>(key: T -> string): (T, T) -> bool {
    (a: T, b: T) => TextLe(key(a), key(b))
  }

  /** Rows ordered by a time stamp, newest first (`ORDER BY ... DESC`). */
  function NewestFirst<T>(stamp: T -> int): (T, T) -> bool {
    (a: T, b: T) => stamp(a) >= stamp(b)
  }

  lemma ByTextIsTotalPreorder<T(!new)>(key: T -> string)
    ensures TotalPreorder(ByText(key))
  {
    forall a: T, b: T
      ensures ByText(key)(a, b) || ByText(key)(b, a)
    {
      TextLeTotal(key(a), key(b));
    }
    forall a: T, b: T, c: T | ByText(key)(a, b) && ByText(key)(b, c)
      ensures ByText(key)(a, c)
    {
      TextLeTransitive(key(a), key(b), key(c));
    }
  }

  lemma NewestFirstIsTotalPreorder<T(!new)>(stamp: T -> int)
    ensures TotalPreorder(NewestFirst(stamp))
  {
  }

  /** Inserts `x` into the sorted `s` before the first element it precedes. */
  function Insert<T(!new)>(x: T, s: seq<T>, le: (T, T) -> bool): (r: seq<T>)
    requires TotalPreorder(le) && Sorted(s, le)
    ensures Sorted(r, le)
    ensures multiset(r) == multiset(s) + multiset{x}
    decreases |s|
  {
    if |s| == 0 then [x]
    else if le(x, s[0]) then [x] + s
    else
      var t := Insert(x, s[1..], le);
      assert s == [s[0]] + s[1..];
      forall k | 0 <= k < |t|
        ensures le(s[0], t[k])
      {
        assert t[k] in multiset(s[1..]) + multiset{x};
        if t[k] != x {
          var j :| 0 <= j < |s[1..]| && s[1..][j] == t[k];
          assert s[j + 1] == t[k];
        }
      }
      SortedCons(s[0], t, le);
      [s[0]] + t
  }

  /** An element no greater than any of a sorted sequence's elements may go in front of it. */
  lemma SortedCons<T>(a: T, t: seq<T>, le: (T, T) -> bool)
    requires Sorted(t, le)
    requires forall k :: 0 <= k < |t| ==> le(a, t[k])
    ensures Sorted([a] + t, le)
  {
    var r := [a] + t;
    forall i, j | 0 <= i < j < |r|
      ensures le(r[i], r[j])
    {
      assert r[j] == t[j - 1];
      if i > 0 {
        assert r[i] == t[i - 1];
      }
    }
  }

  /** Insertion sort; stable, so rows with equal keys keep their input order. */
  function Sort<T(!new)>(s: seq<T>, le: (T, T) -> bool): (r: seq<T>)
    requires TotalPreorder(le)
    ensures Sorted(r, le)
    ensures multiset(r) == multiset(s)
    decreases |s|
  {
    if |s| == 0 then []
    else
      assert s == [s[0]] + s[1..];
      Insert(s[0], Sort(s[1..], le), le)
  }

  predicate Distinct<T(==)>(s: seq<T>) {
    forall i, j :: 0 <= i < j < |s| ==> s[i] != s[j]
  }

  lemma {:induction false} DistinctIffSingleCounts<T>(s: seq<T>)
    ensures Distinct(s) <==> forall x :: multiset(s)[x] <= 1
    decreases |s|
  {
    if |s| > 0 {
      var t := s[1..];
      assert s == [s[0]] + t;
      DistinctIffSingleCounts(t);
      if Distinct(s) {
        assert Distinct(t) by {
          forall i, j | 0 <= i < j < |t| ensures t[i] != t[j] {
            assert t[i] == s[i + 1] && t[j] == s[j + 1];
          }
        }
        assert s[0] !in t by {
          forall k | 0 <= k < |t| ensures t[k] != s[0] {
            assert t[k] == s[k + 1];
          }
        }
      } else {
        var i, j :| 0 <= i < j < |s| && s[i] == s[j];
        if i == 0 {
          assert s[j] == t[j - 1];
          assert multiset(s)[s[0]] >= 2;
        } else {
          assert t[i - 1] == t[j - 1];
          assert !Distinct(t);
          var x :| multiset(t)[x] > 1;
          assert multiset(s)[x] > 1;
        }
      }
    }
  }

  /** Reordering a duplicate-free listing keeps it duplicate-free. */
  lemma SortKeepsDistinct<T(!new)>(s: seq<T>, le: (T, T) -> bool)
    requires TotalPreorder(le)
    ensures Distinct(s) ==> Distinct(Sort(s, le))
  {
    DistinctIffSingleCounts(s);
    DistinctIffSingleCounts(Sort(s, le));
  }

  lemma MinimumExists(s: set<nat>)
    requires s != {}
    ensures exists m :: m in s && forall y :: y in s ==> m <= y
    decreases s
  {
    var x :| x in s;
    if s != {x} {
      MinimumExists(s - {x});
      var m :| m in s - {x} && forall y :: y in s - {x} ==> m <= y;
      assert forall y :: y in s ==> y == x || y in s - {x};
      if x < m {
        assert forall y :: y in s ==> x <= y;
      } else {
        assert forall y :: y in s ==> m <= y;
      }
    }
  }

  /** The least identifier of a non-empty set. */
  function Minimum(s: set<nat>): (m: nat)
    requires s != {}
    ensures m in s && forall y :: y in s ==> m <= y
  {
    MinimumExists(s);
    var m :| m in s && forall y :: y in s ==> m <= y;
    m
  }

  /** The identifiers of `s` in increasing order: the primary-key order rows are read in. */
  function Ascending(s: set<nat>): (r: seq<nat>)
    ensures forall x :: x in r <==> x in s
    ensures forall i, j :: 0 <= i < j < |r| ==> r[i] < r[j]
    ensures |r| == |s|
    decreases s
  {
    if s == {} then []
    else
      var m := Minimum(s);
      var t := Ascending(s - {m});
      assert forall k :: 0 <= k < |t| ==> m < t[k];
      [m] + t
  }

  /**
   The listing of `rows` in `le` order: the same rows, each as often as
   before, so a duplicate-free input gives a duplicate-free listing.
   */
  function OrderBy<T(!new)>(rows: seq<T>, le: (T, T) -> bool): (r: seq<T>)
    requires TotalPreorder(le)
    ensures Sorted(r, le)
    ensures forall x :: x in r <==> x in rows
    ensures Distinct(rows) ==> Distinct(r)
    ensures |r| == |rows|
  {
    var r := Sort(rows, le);
    assert forall x :: x in r <==> x in multiset(r);
    assert forall x :: x in rows <==> x in multiset(rows);
    assert |r| == |multiset(r)| == |multiset(rows)| == |rows|;
    SortKeepsDistinct(rows, le);
    r
  }

  /** The rows `f` builds from the entries of `m` at `ids`, in the order of `ids`. */
  function RowsAt<V(!new), R(!new)>(m: map<nat, V>, ids: seq<nat>, f: (nat, V) -> R, key: R -> nat): (r: seq<R>)
    requires forall i :: 0 <= i < |ids| ==> ids[i] in m
    requires forall i, j :: 0 <= i < j < |ids| ==> ids[i] < ids[j]
    requires forall id, v :: key(f(id, v)) == id
    ensures forall x :: x in r <==> key(x) in ids && x == f(key(x), m[key(x)])
    ensures Distinct(r)
    ensures |r| == |ids|
    decreases |ids|
  {
    if |ids| == 0 then []
    else
      var t := RowsAt(m, ids[1..], f, key);
      assert forall x :: x in t ==> key(x) != ids[0];
      [f(ids[0], m[ids[0]])] + t
  }

  /**
   A query over one table: the rows `f` builds from the entries of `m` whose
   key is in `keep`, each exactly once, in `le` order. `key` recovers the
   entry's key from a row.
   */
  function Select<V(!new), R(!new)>(m: map<nat, V>, keep: set<nat>, f: (nat, V) -> R, key: R -> nat, le: (R, R) -> bool)
    : (r: seq<R>)
    requires TotalPreorder(le)
    requires forall id, v :: key(f(id, v)) == id
    ensures forall x :: x in r <==> key(x) in keep && key(x) in m && x == f(key(x), m[key(x)])
    ensures Distinct(r)
    ensures Sorted(r, le)
    ensures |r| == |keep * m.Keys|
  {
    var keys := keep * m.Keys;
    var ids := Ascending(keys);
    assert forall i :: 0 <= i < |ids| ==> ids[i] in keys;
    OrderBy(RowsAt(m, ids, f, key), le)
  }

  /** The rows `LIMIT limit OFFSET offset` keeps. */
  function Page<T>(rows: seq<T>, offset: nat, limit: nat): (r: seq<T>)
    ensures |r| <= limit
    ensures |r| == if offset >= |rows| then 0 else Min(limit, |rows| - offset)
    ensures forall i :: 0 <= i < |r| ==> offset + i < |rows| && r[i] == rows[offset + i]
  {
    if offset >= |rows| then [] else rows[offset..offset + Min(limit, |rows| - offset)]
  }

  function Min(a: int, b: int): int {
    if a <= b then a else b
  }

  /** The offset of page `page` (counted from 1) of `limit` rows. */
  function PageOffset(page: nat, limit: nat): nat
    requires page >= 1
  {
    (page - 1) * limit
  }

  /**
   Pages partition a listing: row `i` is on page `i / limit + 1`, at position
   `i % limit`, whatever the total.
   */
  lemma {:induction false} EveryRowOnItsPage<T>(rows: seq<T>, limit: nat, i: nat)
    requires limit >= 1 && i < |rows|
    ensures PageNumber(i, limit) >= 1
    ensures var p := Page(rows, PageOffset(PageNumber(i, limit), limit), limit);
            Slot(i, limit) < |p| && p[Slot(i, limit)] == rows[i]
  {
    var o := PageOffset(i / limit + 1, limit);
    assert o == (i / limit) * limit;
    assert o + i % limit == i;
  }

  /** The page (counted from 1) row `i` falls on. */
  function PageNumber(i: nat, limit: nat): nat
    requires limit >= 1
  {
    i / limit + 1
  }

  /** The position of row `i` on its page. */
  function Slot(i: nat, limit: nat): nat
    requires limit >= 1
  {
    i % limit
  }
}
