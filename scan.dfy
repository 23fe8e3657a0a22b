/** `collect_stats` and `stat_path` (src/main.rs:77-142): classify the
    target, list a directory's immediate children, classify each child and
    keep the rows that could be produced. The filesystem is given as data:
    what `fs::metadata`, `fs::read_dir` and `WalkDir` would return. */
module Scanner {
  import opened Items
  import opened Walker

  /** What `fs::metadata` tells the scanner: a regular file and its length,
      or anything else (a directory, or a special file), which is walked. */
  datatype Meta = FileMeta(len: u64) | OtherMeta

  /** One child as the filesystem presents it: its path, the result of
      `fs::metadata` on it, and the items `WalkDir` would yield under it. */
  datatype Child = Child(path: string, meta: Result<Meta>, walk: seq<WalkEvent>)

  /** The scan target: its path, its metadata, and the outcome of
      `fs::read_dir` on it, each entry of which may itself have failed. */
  datatype Target = Target(path: string, meta: Result<Meta>, listing: Result<seq<Result<Child>>>)

  /** The row `stat_path` builds for a child, or the error it returns. */
  function StatOf(c: Child): Result<ItemStat> {
    match c.meta
    case Err(e) => Err(e)
    case Ok(FileMeta(len)) => Ok(ItemStat(c.path, len, false))
    case Ok(OtherMeta) => Ok(ItemStat(c.path, Total(c.walk), true))
  }

  /** The progress increments `stat_path` makes for a child. */
  function StatTicks(c: Child): nat {
    match c.meta
    case Err(_) => 0
    case Ok(FileMeta(_)) => 1
    case Ok(OtherMeta) => FilesSeen(c.walk)
  }

  /** `stat_path`: a regular file gives a file row of its length (one
      increment); anything else gives a directory row whose size is the
      walk's total; a metadata failure is returned as the error. */
  method StatPath(c: Child, pb: ProgressBar) returns (r: Result<ItemStat>)
    modifies pb
    ensures r == StatOf(c)
    ensures pb.pos == old(pb.pos) + StatTicks(c)
  {
    match c.meta {
      case Err(e) =>
        r := Err(e);
      case Ok(FileMeta(len)) =>
        pb.Inc();
        r := Ok(ItemStat(c.path, len, false));
      case Ok(OtherMeta) =>
        var size := WalkSize(c.walk, pb);
        r := Ok(ItemStat(c.path, size, true));
    }
  }

  /** The `read_dir` entries that could be read, in listing order
      (the `filter_map` over the directory iterator). */
  function Listed(listing: seq<Result<Child>>): seq<Child> {
    if listing == [] then []
    else
      var n := |listing| - 1;
      Listed(listing[..n]) + (if listing[n].Ok? then [listing[n].value] else [])
  }

  /** Exactly the entries that were read without error are listed. */
  lemma {:induction false} ListedEntries(listing: seq<Result<Child>>)
    ensures |Listed(listing)| <= |listing|
    ensures forall c :: c in Listed(listing) <==> Ok(c) in listing
  {
    if listing != [] {
      var n := |listing| - 1;
      ListedEntries(listing[..n]);
      assert forall r :: r in listing <==> r in listing[..n] || r == listing[n];
    }
  }

  /** The row a child contributes: its row if `stat_path` succeeded,
      nothing if it failed. */
  function Row(c: Child): seq<ItemStat> {
    if StatOf(c).Ok? then [StatOf(c).value] else []
  }

  /** The rows of the children whose `stat_path` succeeded (the
      `map(...).flatten()` over the children). */
  function Kept(entries: seq<Child>): seq<ItemStat> {
    if entries == [] then [] else Kept(entries[..|entries| - 1]) + Row(entries[|entries| - 1])
  }

  /** Each kept row is the row of some child, and every child whose
      `stat_path` succeeded contributes its row. */
  lemma {:induction false} KeptRows(entries: seq<Child>)
    ensures |Kept(entries)| <= |entries|
    ensures forall x :: x in Kept(entries) <==> exists c :: c in entries && StatOf(c) == Ok(x)
  {
    if entries != [] {
      var n := |entries| - 1;
      KeptRows(entries[..n]);
      assert forall c :: c in entries <==> c in entries[..n] || c == entries[n];
    }
  }

  function KeptTicks(entries: seq<Child>): nat {
    if entries == [] then 0
    else KeptTicks(entries[..|entries| - 1]) + StatTicks(entries[|entries| - 1])
  }

  /** What `collect_stats` returns for the target. Only the target's own
      metadata and its directory listing can fail the whole scan. */
  function Scan(t: Target): Result<seq<ItemStat>> {
    match t.meta
    case Err(e) => Err(e)
    case Ok(FileMeta(len)) => Ok([ItemStat(t.path, len, false)])
    case Ok(OtherMeta) =>
      match t.listing
      case Err(e) => Err(e)
      case Ok(ls) => Ok(Kept(Listed(ls)))
  }

  /** The progress increments of the whole scan. */
  function ScanTicks(t: Target): nat {
    match t.meta
    case Err(_) => 0
    case Ok(FileMeta(_)) => 1
    case Ok(OtherMeta) =>
      match t.listing
      case Err(_) => 0
      case Ok(ls) => KeptTicks(Listed(ls))
  }

  /** `collect_stats`, with the parallel map over the children run one
      child after another. */
  method CollectStats(t: Target, pb: ProgressBar) returns (r: Result<seq<ItemStat>>)
    modifies pb
    ensures r == Scan(t)
    ensures pb.pos == old(pb.pos) + ScanTicks(t)
  {
    match t.meta {
      case Err(e) =>
        return Err(e);
      case Ok(FileMeta(len)) =>
        pb.Inc();
        return Ok([ItemStat(t.path, len, false)]);
      case Ok(OtherMeta) =>
    }
    if t.listing.Err? {
      return Err(t.listing.error);
    }
    var entries := Listed(t.listing.value);
    var stats: seq<ItemStat> := [];
    for i := 0 to |entries|
      invariant stats == Kept(entries[..i])
      invariant pb.pos == old(pb.pos) + KeptTicks(entries[..i])
    {
      assert entries[..i + 1][..i] == entries[..i];
      var res := StatPath(entries[i], pb);
      if res.Ok? {
        stats := stats + [res.value];
      }
    }
    assert entries[..|entries|] == entries;
    return Ok(stats);
  }

  /** A file target gives exactly one row: a file row of the file's length,
      after one increment. */
  lemma ScanFileTarget(t: Target, len: u64)
    requires t.meta == Ok(FileMeta(len))
    ensures Scan(t).Ok? && |Scan(t).value| == 1
    ensures Scan(t).value[0] == ItemStat(t.path, len, false)
    ensures ScanTicks(t) == 1
  {
  }

  /** The listing entries that survive both `read_dir` and `stat_path`. */
  ghost function Survivors(ls: seq<Result<Child>>): set<nat> {
    set i: nat | i < |ls| && ls[i].Ok? && StatOf(ls[i].value).Ok?
  }

  /** A directory target gives one row per child that could be both
      listed and classified, and no other rows: each row is the row of
      such a child, and there are as many rows as such children. */
  lemma DirectoryRows(t: Target, ls: seq<Result<Child>>)
    requires t.meta == Ok(OtherMeta) && t.listing == Ok(ls)
    ensures Scan(t).Ok?
    ensures forall x :: x in Scan(t).value <==>
      exists c :: Ok(c) in ls && StatOf(c) == Ok(x)
    ensures |Scan(t).value| == |Survivors(ls)|
    ensures forall x :: multiset(Scan(t).value)[x] == |RowSources(ls, x)|
  {
    KeptRows(Listed(ls));
    ListedEntries(ls);
    SurvivorCount(ls);
    forall x {
      RowMultiplicity(ls, x);
    }
  }

  /** The listing entries that survive and produce the row x. */
  ghost function RowSources(ls: seq<Result<Child>>, x: ItemStat): set<nat> {
    set i: nat | i < |ls| && ls[i].Ok? && StatOf(ls[i].value) == Ok(x)
  }

  lemma SourcesStep(ls: seq<Result<Child>>, x: ItemStat, produces: bool)
    requires ls != []
    requires produces <==> ls[|ls| - 1].Ok? && StatOf(ls[|ls| - 1].value) == Ok(x)
    ensures |RowSources(ls, x)| == |RowSources(ls[..|ls| - 1], x)| + (if produces then 1 else 0)
  {
    var n := |ls| - 1;
    if produces {
      assert RowSources(ls, x) == RowSources(ls[..n], x) + {n};
    } else {
      assert RowSources(ls, x) == RowSources(ls[..n], x);
    }
  }

  /** Each row occurs exactly as often as surviving entries produce it. */
  lemma {:induction false} RowMultiplicity(ls: seq<Result<Child>>, x: ItemStat)
    ensures multiset(Kept(Listed(ls)))[x] == |RowSources(ls, x)|
  {
    if ls != [] {
      var n := |ls| - 1;
      var init := ls[..n];
      RowMultiplicity(init, x);
      KeptListedStep(ls);
      var tail := if ls[n].Ok? then Row(ls[n].value) else [];
      var before := Kept(Listed(init));
      assert Kept(Listed(ls)) == before + tail;
      assert multiset(before + tail) == multiset(before) + multiset(tail);
      if ls[n].Ok? && StatOf(ls[n].value) == Ok(x) {
        assert multiset(tail)[x] == 1;
        SourcesStep(ls, x, true);
      } else {
        assert multiset(tail)[x] == 0;
        SourcesStep(ls, x, false);
      }
    }
  }

  lemma {:induction false} SurvivorCount(ls: seq<Result<Child>>)
    ensures |Kept(Listed(ls))| == |Survivors(ls)|
  {
    if ls != [] {
      var n := |ls| - 1;
      var init := ls[..n];
      SurvivorCount(init);
      KeptListedStep(ls);
      if ls[n].Ok? && StatOf(ls[n].value).Ok? {
        assert Survivors(ls) == Survivors(init) + {n};
      } else {
        assert Survivors(ls) == Survivors(init);
      }
    }
  }

  lemma {:induction false} KeptListedStep(ls: seq<Result<Child>>)
    requires ls != []
    ensures Kept(Listed(ls)) ==
      Kept(Listed(ls[..|ls| - 1])) + (if ls[|ls| - 1].Ok? then Row(ls[|ls| - 1].value) else [])
  {
    var n := |ls| - 1;
    if ls[n].Ok? {
      var v := ls[n].value;
      assert Listed(ls) == Listed(ls[..n]) + [v];
      KeptAppend(Listed(ls[..n]), [v]);
      assert [v][..0] == [];
      assert Kept([v]) == Row(v);
    } else {
      assert Listed(ls) == Listed(ls[..n]) + [] == Listed(ls[..n]);
    }
  }

  lemma {:induction false} KeptAppend(es: seq<Child>, fs: seq<Child>)
    ensures Kept(es + fs) == Kept(es) + Kept(fs)
  {
    if fs == [] {
      assert es + fs == es;
    } else {
      var n := |fs| - 1;
      KeptAppend(es, fs[..n]);
      assert (es + fs)[..|es + fs| - 1] == es + fs[..n];
      assert (es + fs)[|es + fs| - 1] == fs[n];
    }
  }

  /** `read_dir` yields children in no particular order and the workers
      finish in any order: whichever order the children come in, the same
      rows come out (as a multiset, before sorting). */
  lemma {:induction false} KeptOrderIrrelevant(es: seq<Child>, fs: seq<Child>)
    requires multiset(es) == multiset(fs)
    ensures multiset(Kept(es)) == multiset(Kept(fs))
    decreases |es|
  {
    if es == [] {
      assert |fs| == |multiset(fs)| == 0;
    } else {
      var n := |es| - 1;
      var e := es[n];
      assert e in multiset(fs);
      var k :| 0 <= k < |fs| && fs[k] == e;
      var rest := fs[..k] + fs[k + 1..];
      RemoveOne(es, fs, k);
      KeptOrderIrrelevant(es[..n], rest);
      KeptWithout(fs, k);
    }
  }

  /** Taking the k-th child out of a list takes out exactly its row. */
  lemma {:induction false} KeptWithout(fs: seq<Child>, k: nat)
    requires k < |fs|
    ensures multiset(Kept(fs)) == multiset(Kept(fs[..k] + fs[k + 1..])) + multiset(Row(fs[k]))
  {
    var a, x, b := fs[..k], fs[k], fs[k + 1..];
    assert fs == (a + [x]) + b;
    KeptAppend(a + [x], b);
    KeptAppend(a, [x]);
    KeptAppend(a, b);
    KeptSingle(x);
    var ka, kb := Kept(a), Kept(b);
    assert Kept(fs) == ka + Row(x) + kb;
    assert multiset(Kept(fs)) == multiset(ka) + multiset(Row(x)) + multiset(kb);
    assert multiset(Kept(a + b)) == multiset(ka) + multiset(kb);
  }

  lemma KeptSingle(x: Child)
    ensures Kept([x]) == Row(x)
  {
    assert [x][..0] == [];
  }

  lemma {:induction false} ListedAppend(ls: seq<Result<Child>>, ms: seq<Result<Child>>)
    ensures Listed(ls + ms) == Listed(ls) + Listed(ms)
  {
    if ms == [] {
      assert ls + ms == ls;
    } else {
      var n := |ms| - 1;
      ListedAppend(ls, ms[..n]);
      assert (ls + ms)[..|ls + ms| - 1] == ls + ms[..n];
      assert (ls + ms)[|ls + ms| - 1] == ms[n];
    }
  }

  /** Whichever order `read_dir` yields the entries in, the same children
      are listed (as a multiset). */
  lemma {:induction false} ListedOrderIrrelevant(ls: seq<Result<Child>>, ms: seq<Result<Child>>)
    requires multiset(ls) == multiset(ms)
    ensures multiset(Listed(ls)) == multiset(Listed(ms))
    decreases |ls|
  {
    if ls == [] {
      assert |ms| == |multiset(ms)| == 0;
    } else {
      var n := |ls| - 1;
      var e := ls[n];
      assert e in multiset(ms);
      var k :| 0 <= k < |ms| && ms[k] == e;
      RemoveOne(ls, ms, k);
      ListedOrderIrrelevant(ls[..n], ms[..k] + ms[k + 1..]);
      var a, b := ms[..k], ms[k + 1..];
      assert ms == (a + [e]) + b;
      ListedAppend(a + [e], b);
      ListedAppend(a, [e]);
      ListedAppend(a, b);
      assert [e][..0] == [];
      var la, lb := Listed(a), Listed(b);
      assert multiset(Listed(ms)) == multiset(la) + multiset(Listed([e])) + multiset(lb);
      assert multiset(Listed(a + b)) == multiset(la) + multiset(lb);
    }
  }

  /** The same child seen by two scans: the same path and metadata, and
      the same walk items, in any order. */
  ghost predicate SameChild(c: Child, d: Child) {
    c.path == d.path && c.meta == d.meta && multiset(c.walk) == multiset(d.walk)
  }

  /** The same `read_dir` entry seen by two scans (failures may differ in
      their cause, since a failed entry is dropped either way). */
  ghost predicate SameEntry(r: Result<Child>, q: Result<Child>) {
    (r.Err? && q.Err?) || (r.Ok? && q.Ok? && SameChild(r.value, q.value))
  }

  /** A child walked in another order gives the same row. */
  lemma SameChildSameRow(c: Child, d: Child)
    requires SameChild(c, d)
    ensures StatOf(c) == StatOf(d)
  {
    TotalPerm(c.walk, d.walk);
  }

  /** Entries that are the same one by one, walks in any order, give the
      same rows in the same order. */
  lemma {:induction false} SameEntriesSameRows(ls: seq<Result<Child>>, ms: seq<Result<Child>>)
    requires |ls| == |ms|
    requires forall i :: 0 <= i < |ls| ==> SameEntry(ls[i], ms[i])
    ensures Kept(Listed(ls)) == Kept(Listed(ms))
  {
    if ls != [] {
      var n := |ls| - 1;
      SameEntriesSameRows(ls[..n], ms[..n]);
      KeptListedStep(ls);
      KeptListedStep(ms);
      if ls[n].Ok? {
        SameChildSameRow(ls[n].value, ms[n].value);
      }
    }
  }
}
