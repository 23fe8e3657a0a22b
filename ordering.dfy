/** The comparators of `sort_items` (src/main.rs:192-210): a three-way
    comparison of unsigned sizes, a lexicographic comparison of paths, and
    their combination with `then_with` for each sort mode. */
module Ordering {
  import opened Items

  /** `std::cmp::Ordering`. */
  datatype Ord = Less | Equal | Greater {
    function Flip(): Ord {
      match this
      case Less => Greater
      case Equal => Equal
      case Greater => Less
    }

    /** `Ordering::then_with`: the second comparison decides only ties. */
    function Then(next: Ord): Ord {
      if this == Equal then next else this
    }
  }

  /** `Ord::cmp` on integers. */
  function CmpInt(a: int, b: int): (r: Ord)
    ensures r == Less <==> a < b
    ensures r == Greater <==> a > b
  {
    if a < b then Less else if a > b then Greater else Equal
  }

  /** `Ord::cmp` on strings: lexicographic, element by element (on
      code points, which orders the same as the UTF-8 bytes Rust compares). */
  function CmpStr(a: string, b: string): Ord
  {
    if a == [] then (if b == [] then Equal else Less)
    else if b == [] then Greater
    else if a[0] < b[0] then Less
    else if b[0] < a[0] then Greater
    else CmpStr(a[1..], b[1..])
  }

  /** The textbook definition of "a comes strictly before b" in
      lexicographic order: a is a proper prefix of b, or the two agree up to
      a position where a has the smaller character. */
  ghost predicate LexLess(a: string, b: string) {
    || (|a| < |b| && a == b[..|a|])
    || exists k :: 0 <= k < |a| && k < |b| && a[..k] == b[..k] && a[k] < b[k]
  }

  lemma {:induction false} CmpStrEqual(a: string, b: string)
    ensures CmpStr(a, b) == Equal <==> a == b
  {
    if a != [] && b != [] && a[0] == b[0] {
      CmpStrEqual(a[1..], b[1..]);
      assert a == [a[0]] + a[1..] && b == [b[0]] + b[1..];
    }
  }

  lemma {:induction false} CmpStrFlip(a: string, b: string)
    ensures CmpStr(b, a) == CmpStr(a, b).Flip()
  {
    if a != [] && b != [] && a[0] == b[0] {
      CmpStrFlip(a[1..], b[1..]);
    }
  }

  lemma {:induction false} CmpStrTransitive(a: string, b: string, c: string)
    requires CmpStr(a, b) != Greater && CmpStr(b, c) != Greater
    ensures CmpStr(a, c) != Greater
  {
    if a != [] && b != [] && c != [] && a[0] == b[0] == c[0] {
      CmpStrTransitive(a[1..], b[1..], c[1..]);
    }
  }

  /** `CmpStr` answers `Less` exactly when the textbook order says so. */
  lemma {:induction false} CmpStrIsLexicographic(a: string, b: string)
    ensures CmpStr(a, b) == Less <==> LexLess(a, b)
  {
    if a == [] {
      assert b != [] ==> a == b[..|a|];
    } else if b == [] {
    } else if a[0] < b[0] {
      assert a[..0] == b[..0];
    } else if b[0] < a[0] {
    } else {
      CmpStrIsLexicographic(a[1..], b[1..]);
      var a', b' := a[1..], b[1..];
      if LexLess(a, b) {
        if |a| < |b| && a == b[..|a|] {
          assert a' == b'[..|a'|];
        } else {
          var k :| 0 <= k < |a| && k < |b| && a[..k] == b[..k] && a[k] < b[k];
          assert k != 0;
          assert a'[..k-1] == a[1..k] == b[1..k] == b'[..k-1];
          assert a'[k-1] == a[k];
        }
      }
      if LexLess(a', b') {
        if |a'| < |b'| && a' == b'[..|a'|] {
          assert a == [a[0]] + a' && b[..|a|] == [b[0]] + b'[..|a'|];
        } else {
          var k :| 0 <= k < |a'| && k < |b'| && a'[..k] == b'[..k] && a'[k] < b'[k];
          assert a[..k+1] == [a[0]] + a'[..k] && b[..k+1] == [b[0]] + b'[..k];
          assert a[k+1] == a'[k] && b[k+1] == b'[k];
        }
      }
    }
  }

  /** The comparator closure `sort_items` passes to `sort_by` for each mode. */
  function Cmp(sort: SortBy, x: ItemStat, y: ItemStat): Ord {
    match sort
    case Size => CmpInt(y.size as int, x.size as int).Then(CmpStr(x.path, y.path))
    case Name => CmpStr(x.path, y.path).Then(CmpInt(y.size as int, x.size as int))
  }

  /** x may stand before y in a list sorted under `sort`. */
  predicate Precedes(sort: SortBy, x: ItemStat, y: ItemStat) {
    Cmp(sort, x, y) != Greater
  }

  /** Two rows compare equal exactly when they have the same path and the
      same size: both comparators are total orders on (path, size). */
  lemma CmpEqual(sort: SortBy, x: ItemStat, y: ItemStat)
    ensures Cmp(sort, x, y) == Equal <==> x.path == y.path && x.size == y.size
  {
    CmpStrEqual(x.path, y.path);
  }

  lemma CmpFlip(sort: SortBy, x: ItemStat, y: ItemStat)
    ensures Cmp(sort, y, x) == Cmp(sort, x, y).Flip()
  {
    CmpStrFlip(x.path, y.path);
  }

  /** Either row may precede the other (the order is total). */
  lemma PrecedesTotal(sort: SortBy, x: ItemStat, y: ItemStat)
    ensures Precedes(sort, x, y) || Precedes(sort, y, x)
  {
    CmpFlip(sort, x, y);
  }

  lemma PrecedesTransitive(sort: SortBy, x: ItemStat, y: ItemStat, z: ItemStat)
    requires Precedes(sort, x, y) && Precedes(sort, y, z)
    ensures Precedes(sort, x, z)
  {
    CmpStrEqual(x.path, y.path);
    CmpStrEqual(y.path, z.path);
    CmpStrEqual(x.path, z.path);
    CmpStrFlip(x.path, z.path);
    match sort
    case Size =>
      if x.size == y.size == z.size {
        CmpStrTransitive(x.path, y.path, z.path);
      }
    case Name =>
      CmpStrTransitive(x.path, y.path, z.path);
      if CmpStr(x.path, z.path) == Equal {
        CmpStrFlip(x.path, y.path);
      }
  }

  /** By size: larger first, equal sizes by path ascending. */
  lemma SizeOrder(x: ItemStat, y: ItemStat)
    ensures Precedes(Size, x, y) <==>
      x.size > y.size || (x.size == y.size && (x.path == y.path || LexLess(x.path, y.path)))
  {
    CmpStrEqual(x.path, y.path);
    CmpStrIsLexicographic(x.path, y.path);
  }

  /** By name: path ascending, equal paths by size descending. */
  lemma NameOrder(x: ItemStat, y: ItemStat)
    ensures Precedes(Name, x, y) <==>
      LexLess(x.path, y.path) || (x.path == y.path && x.size >= y.size)
  {
    CmpStrEqual(x.path, y.path);
    CmpStrIsLexicographic(x.path, y.path);
  }
}
