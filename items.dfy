/** The values every stage of the scanner shares: byte counts, report rows,
    the sort mode and the I/O failures the filesystem can report. */
module Items {

  const U64_MAX: int := 0xFFFF_FFFF_FFFF_FFFF

  /** Rust's `u64`: every byte count in the scanner has this width. */
  newtype u64 = x: int | 0 <= x <= U64_MAX

  /** One row of the report (`ItemStat`): a path, its size in bytes and
      whether it was classified as a directory (that is, not a regular file). */
  datatype ItemStat = ItemStat(path: string, size: u64, isDir: bool)

  /** The two orders the report can be printed in (`SortBy`). */
  datatype SortBy = Size | Name

  /** An `io::Error`, told apart only as the source does. Whether it is a
      permission failure decides only whether a warning is printed, so no
      result of the model depends on which one it is. */
  datatype IoError = PermissionDenied | OtherError

  datatype Option<+T> = None | Some(value: T)

  /** `io::Result<T>`. */
  datatype Result<+T> = Ok(value: T) | Err(error: IoError)
}
