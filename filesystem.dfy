/**
 * The directory tree the catalog scans, in place of the real filesystem
 * calls `is_dir`, `read_dir` and `DirEntry::path`.
 */
module FileSystem {

  /**
   * What lives at a path. `Dir` is a path for which `is_dir()` holds; every
   * other path (a regular file, a missing path, a socket ...) is a `File`.
   */
  datatype Node = File(name: string) | Dir(name: string, listing: Listing)

  /** The outcome of `read_dir` on a directory: it fails, or it lists entries in the operating system's order. */
  datatype Listing = Unreadable | Entries(entries: seq<Entry>)

  /** One item yielded by the `read_dir` iterator: an entry, or an I/O error. */
  datatype Entry = Good(node: Node) | Bad

  /** No item of any listing in the tree is an I/O error (an unreadable directory is still allowed). */
  predicate NoEntryErrors(node: Node)
    decreases node
  {
    match node
    case File(_) => true
    case Dir(_, Unreadable) => true
    case Dir(_, Entries(es)) =>
      forall i :: 0 <= i < |es| ==> es[i].Good? && NoEntryErrors(es[i].node)
  }
}
