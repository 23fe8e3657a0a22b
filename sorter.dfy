/** `sort_items` (src/main.rs:192-210) and the `--limit` truncation that
    `main` applies to the sorted rows (src/main.rs:66-72). */
module Sorter {
  import opened Items
  import opened Ordering

  /** Every row may precede every later row. */
  ghost predicate Sorted(sort: SortBy, s: seq<ItemStat>) {
    forall i, j :: 0 <= i < j < |s| ==> Precedes(sort, s[i], s[j])
  }

  /** Rows with the same path are the same row, as for the children of
      one directory. */
  ghost predicate OneRowPerPath(s: seq<ItemStat>) {
    forall x, y :: x in s && y in s && x.path == y.path ==> x == y
  }

  /** `sort_items`: reorders the slice in place under the comparator of the
      chosen mode (insertion by adjacent swaps, which like Rust's `sort_by`
      never moves a row past one it compares equal to). */
  method SortItems(a: array<ItemStat>, sort: SortBy)
    modifies a
    ensures Sorted(sort, a[..])
    ensures multiset(a[..]) == multiset(old(a[..]))
  {
    var i := 0;
    while i < a.Length
      invariant 0 <= i <= a.Length
      invariant forall k, l :: 0 <= k < l < i ==> Precedes(sort, a[k], a[l])
      invariant multiset(a[..]) == multiset(old(a[..]))
    {
      Insert(a, sort, i);
      i := i + 1;
    }
    assert a[..] == a[..a.Length];
  }

  /** One step of the sort: moves a[i] left into the sorted prefix a[..i]. */
  method Insert(a: array<ItemStat>, sort: SortBy, i: nat)
    requires i < a.Length
    requires forall k, l :: 0 <= k < l < i ==> Precedes(sort, a[k], a[l])
    modifies a
    ensures forall k, l :: 0 <= k < l <= i ==> Precedes(sort, a[k], a[l])
    ensures multiset(a[..]) == multiset(old(a[..]))
  {
    var j := i;
    while j > 0 && !Precedes(sort, a[j - 1], a[j])
      invariant 0 <= j <= i
      invariant forall k, l :: 0 <= k < l < j ==> Precedes(sort, a[k], a[l])
      invariant forall k, l :: j <= k < l <= i ==> Precedes(sort, a[k], a[l])
      invariant forall k, l :: 0 <= k < j < l <= i ==> Precedes(sort, a[k], a[l])
      invariant multiset(a[..]) == multiset(old(a[..]))
    {
      PrecedesTotal(sort, a[j - 1], a[j]);
      Swap(a, j - 1);
      j := j - 1;
    }
    forall k | 0 <= k < j - 1
      ensures Precedes(sort, a[k], a[j])
    {
      PrecedesTransitive(sort, a[k], a[j - 1], a[j]);
    }
  }

  /** Exchanges a[k] and a[k + 1]. */
  method Swap(a: array<ItemStat>, k: nat)
    requires k + 1 < a.Length
    modifies a
    ensures a[k] == old(a[k + 1]) && a[k + 1] == old(a[k])
    ensures forall m :: 0 <= m < a.Length && m != k && m != k + 1 ==> a[m] == old(a[m])
    ensures multiset(a[..]) == multiset(old(a[..]))
  {
    a[k], a[k + 1] := a[k + 1], a[k];
  }

  /** Sorting and then keeping the first `limit` rows (the limit block of
      `main`, lines 68-72): the result is the sorted permutation of the
      input, cut to `limit` rows only when it is longer than that. */
  method SortAndLimit(items: seq<ItemStat>, sort: SortBy, limit: Option<nat>)
    returns (r: seq<ItemStat>, ghost sorted: seq<ItemStat>)
    ensures Sorted(sort, sorted) && multiset(sorted) == multiset(items) && |sorted| == |items|
    ensures r == if limit.Some? && |items| > limit.value then sorted[..limit.value] else sorted
    ensures Sorted(sort, r)
    ensures |r| == if limit.Some? && |items| > limit.value then limit.value else |items|
    ensures multiset(r) <= multiset(items)
    ensures forall x, y :: y in r && x in multiset(items) - multiset(r) ==> Precedes(sort, y, x)
  {
    var a := new ItemStat[|items|](k requires 0 <= k < |items| => items[k]);
    assert a[..] == items;
    SortItems(a, sort);
    r := a[..];
    sorted := r;
    assert |sorted| == |items| by {
      assert |multiset(sorted)| == |multiset(items)|;
    }
    if limit.Some? {
      if |r| > limit.value {
        r := r[..limit.value];
      }
    }
    LimitKeepsLeading(sort, sorted, |r|);
    assert r == sorted[..|r|];
  }

  /** Cutting a sorted list after n rows keeps rows that precede every row
      it drops, and no row appears in both parts more often than in the whole. */
  lemma {:induction false} LimitKeepsLeading(sort: SortBy, s: seq<ItemStat>, n: nat)
    requires Sorted(sort, s) && n <= |s|
    ensures Sorted(sort, s[..n])
    ensures multiset(s[..n]) <= multiset(s)
    ensures forall x, y :: y in s[..n] && x in multiset(s) - multiset(s[..n]) ==> Precedes(sort, y, x)
  {
    assert s == s[..n] + s[n..];
    assert multiset(s) == multiset(s[..n]) + multiset(s[n..]);
    forall x, y | y in s[..n] && x in multiset(s) - multiset(s[..n])
      ensures Precedes(sort, y, x)
    {
      assert x in s[n..];
      var p :| 0 <= p < n && s[..n][p] == y;
      var q :| 0 <= q < |s| - n && s[n..][q] == x;
      assert s[p] == y && s[n + q] == x;
    }
  }

  /** With one row per path the comparator leaves no ties, so there is exactly
      one sorted arrangement of a collection: the report order is determined
      by the set of rows alone. */
  lemma {:induction false} SortedUnique(sort: SortBy, s: seq<ItemStat>, t: seq<ItemStat>)
    requires Sorted(sort, s) && Sorted(sort, t)
    requires multiset(s) == multiset(t)
    requires OneRowPerPath(s)
    ensures s == t
  {
    assert |t| == |multiset(t)| == |multiset(s)| == |s|;
    if s != [] {
      SameFirst(sort, s, t);
      SameTails(s, t);
      SortedTail(sort, s);
      SortedTail(sort, t);
      SortedUnique(sort, s[1..], t[1..]);
    }
  }

  lemma SameTails(s: seq<ItemStat>, t: seq<ItemStat>)
    requires s != [] && t != [] && s[0] == t[0] && multiset(s) == multiset(t)
    ensures multiset(s[1..]) == multiset(t[1..])
  {
    assert s == [s[0]] + s[1..] && t == [t[0]] + t[1..];
    assert multiset(s[1..]) == multiset(s) - multiset{s[0]};
    assert multiset(t[1..]) == multiset(t) - multiset{t[0]};
  }

  lemma SortedTail(sort: SortBy, s: seq<ItemStat>)
    requires s != [] && Sorted(sort, s)
    ensures Sorted(sort, s[1..])
    ensures OneRowPerPath(s) ==> OneRowPerPath(s[1..])
  {
    assert forall x :: x in s[1..] ==> x in s;
  }

  /** Two sorted arrangements of the same rows, without ties, start alike. */
  lemma SameFirst(sort: SortBy, s: seq<ItemStat>, t: seq<ItemStat>)
    requires Sorted(sort, s) && Sorted(sort, t)
    requires multiset(s) == multiset(t) && s != [] && |t| == |s|
    requires OneRowPerPath(s)
    ensures s[0] == t[0]
  {
    assert t[0] in multiset(s) && s[0] in multiset(t);
    var m :| 0 <= m < |s| && s[m] == t[0];
    var n :| 0 <= n < |t| && t[n] == s[0];
    CmpEqual(sort, s[0], s[0]);
    CmpEqual(sort, t[0], t[0]);
    assert Precedes(sort, s[0], s[m]);
    assert Precedes(sort, s[m], s[0]);
    CmpFlip(sort, s[0], s[m]);
    CmpEqual(sort, s[0], s[m]);
  }

  /** Sorted by size, in the source's terms: sizes never increase, and rows
      of equal size have ascending paths. */
  lemma SortedBySize(s: seq<ItemStat>)
    ensures Sorted(Size, s) <==> forall i, j :: 0 <= i < j < |s| ==>
      s[i].size > s[j].size ||
      (s[i].size == s[j].size && (s[i].path == s[j].path || LexLess(s[i].path, s[j].path)))
  {
    forall i, j | 0 <= i < j < |s| {
      SizeOrder(s[i], s[j]);
    }
  }

  /** Sorted by name, in the source's terms: paths never decrease, and rows
      with equal paths have descending sizes. */
  lemma SortedByName(s: seq<ItemStat>)
    ensures Sorted(Name, s) <==> forall i, j :: 0 <= i < j < |s| ==>
      LexLess(s[i].path, s[j].path) || (s[i].path == s[j].path && s[i].size >= s[j].size)
  {
    forall i, j | 0 <= i < j < |s| {
      NameOrder(s[i], s[j]);
    }
  }
}
