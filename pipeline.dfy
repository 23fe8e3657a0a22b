/** `main` from the scan to the rows it prints (src/main.rs:51-72): scan
    the target, give up with exit status 1 if the scan failed, otherwise
    sort the rows and cut them to the limit. */
module Pipeline {
  import opened Items
  import opened Ordering
  import opened Sorter
  import opened Walker
  import opened Scanner

  /** The rows `main` hands to `print_table`, or the error it reports
      before exiting with status 1. */
  method Run(t: Target, sort: SortBy, limit: Option<nat>, pb: ProgressBar)
    returns (r: Result<seq<ItemStat>>)
    modifies pb
    ensures pb.pos == old(pb.pos) + ScanTicks(t)
    ensures Scan(t).Err? ==> r == Err(Scan(t).error)
    ensures Scan(t).Ok? ==> r.Ok?
    ensures r.Ok? ==>
      var all := Scan(t).value;
      && Sorted(sort, r.value)
      && multiset(r.value) <= multiset(all)
      && |r.value| == (if limit.Some? && |all| > limit.value then limit.value else |all|)
      && forall x, y :: y in r.value && x in multiset(all) - multiset(r.value) ==> Precedes(sort, y, x)
  {
    var scanned := CollectStats(t, pb);
    if scanned.Err? {
      return Err(scanned.error);
    }
    var rows, sorted := SortAndLimit(scanned.value, sort, limit);
    return Ok(rows);
  }

  /** A directory lists each name once. */
  ghost predicate OneChildPerPath(ls: seq<Result<Child>>) {
    forall c, d :: Ok(c) in ls && Ok(d) in ls && c.path == d.path ==> c == d
  }

  /** Scanning the same directory twice gives the same report, even when
      `read_dir` lists the children in another order, the walks under the
      children visit their entries in another order, and the workers
      finish in another order: sorting leaves nothing to chance. The second
      listing is a reordering of entries that match the first one by one. */
  lemma SameTreeSameReport(t1: Target, t2: Target, sort: SortBy, rows1: seq<ItemStat>, rows2: seq<ItemStat>)
    requires t1.meta == Ok(OtherMeta) && t2.meta == Ok(OtherMeta)
    requires t1.listing.Ok? && t2.listing.Ok?
    requires exists ms: seq<Result<Child>> ::
      && |ms| == |t1.listing.value|
      && (forall i :: 0 <= i < |ms| ==> SameEntry(t1.listing.value[i], ms[i]))
      && multiset(ms) == multiset(t2.listing.value)
    requires OneChildPerPath(t1.listing.value)
    requires Sorted(sort, rows1) && multiset(rows1) == multiset(Scan(t1).value)
    requires Sorted(sort, rows2) && multiset(rows2) == multiset(Scan(t2).value)
    ensures rows1 == rows2
  {
    var ls1, ls2 := t1.listing.value, t2.listing.value;
    var ms: seq<Result<Child>> :| |ms| == |ls1|
      && (forall i :: 0 <= i < |ms| ==> SameEntry(ls1[i], ms[i]))
      && multiset(ms) == multiset(ls2);
    SameEntriesSameRows(ls1, ms);
    ListedOrderIrrelevant(ms, ls2);
    KeptOrderIrrelevant(Listed(ms), Listed(ls2));
    RowsOnePerPath(ls1);
    OneRowPerPathPermutation(Kept(Listed(ls1)), rows1);
    SortedUnique(sort, rows1, rows2);
  }

  /** Distinct children give rows with distinct paths. */
  lemma RowsOnePerPath(ls: seq<Result<Child>>)
    requires OneChildPerPath(ls)
    ensures OneRowPerPath(Kept(Listed(ls)))
  {
    KeptRows(Listed(ls));
    ListedEntries(ls);
    forall x, y | x in Kept(Listed(ls)) && y in Kept(Listed(ls)) && x.path == y.path
      ensures x == y
    {
      var c :| c in Listed(ls) && StatOf(c) == Ok(x);
      var d :| d in Listed(ls) && StatOf(d) == Ok(y);
      assert Ok(c) in ls && Ok(d) in ls;
    }
  }

  lemma OneRowPerPathPermutation(a: seq<ItemStat>, b: seq<ItemStat>)
    requires multiset(a) == multiset(b) && OneRowPerPath(a)
    ensures OneRowPerPath(b)
  {
    forall x | x in b ensures x in a {
      assert x in multiset(b);
    }
  }

  function ExampleRows(): seq<ItemStat> {
    [ItemStat("a", 100, false), ItemStat("b", 100, false), ItemStat("c", 50, false)]
  }

  /** A worked example: (a,100), (b,100), (c,50) is the one
      order under both modes, whatever order the rows arrive in. */
  lemma ExampleOrder(sort: SortBy, rows: seq<ItemStat>)
    requires multiset(rows) == multiset(ExampleRows())
    requires Sorted(sort, rows)
    ensures rows == ExampleRows()
  {
    var e := ExampleRows();
    assert CmpStr("a", "b") == Less && CmpStr("b", "c") == Less && CmpStr("a", "c") == Less;
    assert Sorted(sort, e);
    SortedUnique(sort, e, rows);
  }
}
