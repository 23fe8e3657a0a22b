/** `walk_size` (src/main.rs:144-190): the best-effort, saturating sum of
    the file sizes under one directory, and the shared progress counter
    it bumps once per file. */
module Walker {
  import opened Items

  /** One item of the recursive listing (`WalkDir::new(path)` without
      following links). The directory walked is itself the first item,
      as a `NotAFile`. A failure's cause only selects a warning, so it is
      not kept. */
  datatype WalkEvent =
    | WalkFailed          // the iterator yielded an error
    | NotAFile            // a directory, symlink or special file
    | FileUnreadable      // a regular file whose metadata failed
    | FileRead(len: u64)  // a regular file and its length
  {
    /** `entry.file_type().is_file()`. */
    predicate IsFile() {
      FileUnreadable? || FileRead?
    }
  }

  /** The progress bar, reduced to its position: the one piece of shared
      mutable state of a scan. */
  class ProgressBar {
    var pos: nat

    constructor ()
      ensures pos == 0
    {
      pos := 0;
    }

    /** `pb.inc(1)`. */
    method Inc()
      modifies this
      ensures pos == old(pos) + 1
    {
      pos := pos + 1;
    }
  }

  function Min(a: int, b: int): int {
    if a <= b then a else b
  }

  /** `u64::saturating_add`. */
  function SatAdd(a: u64, b: u64): (r: u64)
    ensures r as int == Min(a as int + b as int, U64_MAX)
  {
    if a as int + b as int > U64_MAX then U64_MAX as u64 else a + b
  }

  /** The bytes one item adds: its length if it is a readable file, else 0. */
  function Bytes(e: WalkEvent): u64 {
    if e.FileRead? then e.len else 0
  }

  /** The running total after the given items, folded left to right as the
      loop does. */
  function Total(es: seq<WalkEvent>): u64 {
    if es == [] then 0 else SatAdd(Total(es[..|es| - 1]), Bytes(es[|es| - 1]))
  }

  /** The exact, unbounded sum of the readable file lengths. */
  function RawSum(es: seq<WalkEvent>): nat {
    if es == [] then 0 else Bytes(es[0]) as nat + RawSum(es[1..])
  }

  /** The number of progress increments over the given items. */
  function FilesSeen(es: seq<WalkEvent>): nat {
    if es == [] then 0 else FilesSeen(es[..|es| - 1]) + (if es[|es| - 1].IsFile() then 1 else 0)
  }

  /** `walk_size`: folds the walk into a saturating total and bumps the
      progress counter once per regular file, whether or not its
      metadata could be read. */
  method WalkSize(events: seq<WalkEvent>, pb: ProgressBar) returns (total: u64)
    modifies pb
    ensures total == Total(events)
    ensures pb.pos == old(pb.pos) + FilesSeen(events)
  {
    total := 0;
    for i := 0 to |events|
      invariant total == Total(events[..i])
      invariant pb.pos == old(pb.pos) + FilesSeen(events[..i])
    {
      assert events[..i + 1][..i] == events[..i];
      match events[i]
      case WalkFailed =>
      case NotAFile =>
      case FileUnreadable =>
        pb.Inc();
      case FileRead(len) =>
        pb.Inc();
        total := SatAdd(total, len);
    }
    assert events[..|events|] == events;
  }

  lemma {:induction false} RawSumAppend(es: seq<WalkEvent>, e: WalkEvent)
    ensures RawSum(es + [e]) == RawSum(es) + Bytes(e) as nat
  {
    if es != [] {
      assert (es + [e])[1..] == es[1..] + [e];
      RawSumAppend(es[1..], e);
    }
  }

  /** The total is the exact sum of the readable file lengths, cut off at
      `u64::MAX`: it never wraps. */
  lemma {:induction false} TotalIsClampedSum(es: seq<WalkEvent>)
    ensures Total(es) as int == Min(RawSum(es), U64_MAX)
  {
    if es != [] {
      var init := es[..|es| - 1];
      TotalIsClampedSum(init);
      assert es == init + [es[|es| - 1]];
      RawSumAppend(init, es[|es| - 1]);
    }
  }

  /** Without overflow, the total is exactly the sum of the readable
      file lengths. */
  lemma TotalExact(es: seq<WalkEvent>)
    requires RawSum(es) <= U64_MAX
    ensures Total(es) as int == RawSum(es)
  {
    TotalIsClampedSum(es);
  }

  /** Walking further never lowers the total. */
  lemma {:induction false} TotalMonotone(es: seq<WalkEvent>, more: seq<WalkEvent>)
    ensures Total(es) <= Total(es + more)
  {
    if more != [] {
      var init := more[..|more| - 1];
      TotalMonotone(es, init);
      assert (es + more)[..|es + more| - 1] == es + init;
    } else {
      assert es + more == es;
    }
  }

  /** Failures, unreadable files and everything that is not a regular file
      add nothing: only the successfully read files decide the total. */
  lemma {:induction false} OnlyReadFilesCount(es: seq<WalkEvent>, e: WalkEvent, more: seq<WalkEvent>)
    requires !e.FileRead?
    ensures Total(es + [e] + more) == Total(es + more)
  {
    TotalIsClampedSum(es + [e] + more);
    TotalIsClampedSum(es + more);
    RawSumSplit(es + [e], more);
    RawSumSplit(es, more);
    RawSumAppend(es, e);
  }

  lemma {:induction false} RawSumSplit(es: seq<WalkEvent>, more: seq<WalkEvent>)
    ensures RawSum(es + more) == RawSum(es) + RawSum(more)
  {
    if es != [] {
      assert (es + more)[1..] == es[1..] + more;
      RawSumSplit(es[1..], more);
    } else {
      assert es + more == more;
    }
  }

  /** The indices of the regular-file items. */
  ghost function FileIndices(es: seq<WalkEvent>): set<nat> {
    set i: nat | i < |es| && es[i].IsFile()
  }

  /** The counter moves once for every regular file and for nothing else. */
  lemma {:induction false} FilesSeenCountsFiles(es: seq<WalkEvent>)
    ensures FilesSeen(es) == |FileIndices(es)|
  {
    if es != [] {
      var n := |es| - 1;
      var init := es[..n];
      FilesSeenCountsFiles(init);
      if es[n].IsFile() {
        assert FileIndices(es) == FileIndices(init) + {n};
      } else {
        assert FileIndices(es) == FileIndices(init);
      }
    }
  }

  /** Taking out the element that ends one list from a permutation of it
      leaves permutations. */
  lemma {:induction false} RemoveOne<T>(es: seq<T>, fs: seq<T>, k: nat)
    requires multiset(es) == multiset(fs) && es != [] && k < |fs| && fs[k] == es[|es| - 1]
    ensures multiset(es[..|es| - 1]) == multiset(fs[..k] + fs[k + 1..])
  {
    var n := |es| - 1;
    var init, x := es[..n], es[n];
    var a, b := fs[..k], fs[k + 1..];
    assert es == init + [x];
    assert fs == a + [x] + b;
    assert multiset(fs) == multiset(a) + multiset{x} + multiset(b);
    assert multiset(es) == multiset(init) + multiset{x};
    assert multiset(a + b) == multiset(a) + multiset(b);
    assert multiset(init) == multiset(es) - multiset{x};
    assert multiset(a + b) == multiset(fs) - multiset{x};
  }

  /** `WalkDir` visits entries in no particular order: any order of the
      same items gives the same total. */
  lemma {:induction false} TotalPerm(es: seq<WalkEvent>, fs: seq<WalkEvent>)
    requires multiset(es) == multiset(fs)
    ensures Total(es) == Total(fs)
  {
    RawSumPerm(es, fs);
    TotalIsClampedSum(es);
    TotalIsClampedSum(fs);
  }

  lemma {:induction false} RawSumPerm(es: seq<WalkEvent>, fs: seq<WalkEvent>)
    requires multiset(es) == multiset(fs)
    ensures RawSum(es) == RawSum(fs)
    decreases |es|
  {
    if es == [] {
      assert |fs| == |multiset(fs)| == 0;
    } else {
      var n := |es| - 1;
      var e := es[n];
      assert e in multiset(fs);
      var k :| 0 <= k < |fs| && fs[k] == e;
      var a, b := fs[..k], fs[k + 1..];
      RemoveOne(es, fs, k);
      RawSumPerm(es[..n], a + b);
      assert es == es[..n] + [e];
      RawSumAppend(es[..n], e);
      assert fs == (a + [e]) + b;
      RawSumSplit(a + [e], b);
      RawSumAppend(a, e);
      RawSumSplit(a, b);
    }
  }
}
