# static-video-server: the video catalog

This project models the video catalog of static-video-server in Dafny: the
`VideoPlayerState` of `src/lib.rs` and the operations that fill it. The model
proves what the catalog promises.

- **Extension filter.** A file is a video when the extension of its path is
  one of the 13 entries of `VIDEO_EXTENSIONS`, exactly as written. The
  extension follows `Path::extension`: the text after the last `.` of the
  file name, and no extension when there is no `.` or only a leading one.
- **Identifiers.** `load_video` mints the key `"<n>.<ext>"` from the counter
  `next_index`, advances the counter and inserts key → path. The class
  invariant `Valid()` holds after every public operation (`new`,
  `load_video`, `visit_dirs`, `load_videos`, `build`, `reload`). It says:
  - every key's number is below the counter;
  - no two keys carry the same number;
  - there are exactly as many keys as the counter says.

  So a load never overwrites an entry.
- **Recursive scan.** `visit_dirs` walks the tree depth-first in listing
  order. It recurses into directories and loads every recognised file. An
  entry error, or an error from a nested scan, ends the walk with `Err`, and
  what was loaded before it stays loaded. A path that is not a directory, or
  a directory that cannot be listed, loads nothing and gives `Ok`.
- **Rebuild.** `reload` resets the counter and clears the map in place, then
  scans the root again. `build` creates the state and scans once. After
  either one, on a tree whose listings yield no error, the map holds one
  entry per recognised file. The `i`-th file in depth-first listing order
  sits under the key minted from `i`, and the keys' numbers are exactly
  `0 .. k-1`.

The model has six files:

- `optional.dfy`: `Option`.
- `decimal.dfy`: module `Numerals`, the decimal rendering of the counter and its reading back.
- `paths.dfy`: module `Paths`, the Unix rules of `Path::file_name`, `Path::extension` and `Path::join`.
- `filesystem.dfy`: module `FileSystem`, the directory tree a scan walks.
- `index.dfy`: module `Index`, the value-level specification: the extension table, keys, the map a sequence of loads produces, the recursive scan and the files it should find.
- `state.dfy`: module `VideoState`, the class `VideoPlayerState`, whose methods update `videos` and `nextIndex` in place and are proved against the functions of `Index`.

The filesystem calls `is_dir`, `read_dir` and `DirEntry::path` are replaced by
a `Node` tree passed in as a parameter:

- a `Dir` carries either `Unreadable` (`read_dir` fails) or its entries in the operating system's order;
- each entry is `Good(node)` or `Bad` (the iterator yields an I/O error);
- a `File` is anything for which `is_dir` is false.

Neither the code nor the model sorts the entries. A sorted walk, and a rebuild
that swaps in a finished catalog atomically, would make the identifiers
independent of listing order and hide the empty map from readers. The code
does neither: it walks the entries in listing order, and `reload` clears the
shared map before rescanning. The model follows the code. Its `Reload`
contract depends on the scanned tree alone, so two rebuilds over the same
listing give the same assignment.

## Model

| member | source | states |
|---|---|---|
| Numerals.Decimal | src/lib.rs:92-96 | `format!("{}", n)` of the counter is a non-empty string of digits, with no leading zero unless `n` is 0 |
| Numerals.ValueOfDecimal | src/lib.rs:92-96 | reading the digits of an identifier's number gives back the counter value it was printed from |
| Numerals.DecimalInjective | src/lib.rs:92-96 | different counter values print differently |
| Paths.LastIndexOfSpec | src/lib.rs:76 | the position found is an occurrence of the character, none follows it, and there is none at all exactly when no position is found |
| Paths.FileNameIsEntryName | src/lib.rs:76 | a file name is a normal component: not empty, not `.` or `..`, no separator |
| Paths.NameExtensionSpec | src/lib.rs:76-77 | a name has an extension exactly when it has a `.` after its first character; the extension is then the dot-free text after the last `.` |
| Paths.FileNameOfJoin | src/lib.rs:108 | the path of a directory entry has the entry's name as its file name, whatever the directory path |
| Paths.ExtensionOfJoin | src/lib.rs:108-111 | the extension of an entry's path is the extension of the entry's own name |
| Index.ExtensionTableSize | src/lib.rs:39-53 | the table lists 13 distinct extensions, so the set `new()` builds from it has 13 members |
| Index.IsVideoOfEntry | src/lib.rs:75-82 | an entry is recognised exactly when its name has an extension in the set; this holds in any directory, and such a name has a `.` after its first character |
| Index.IsVideoNameExamples | src/lib.rs:39-53 | `clip.mp4` and `show.s01.webm` are recognised |
| Index.NotVideoNameExamples | src/lib.rs:75-82 | `clip.MP4` (case differs), `.mp4` (leading dot only), `mp4` (no dot) and `clip.mp4.txt` (last extension not in the table) are not recognised |
| Index.LeadingDigitsSpec | src/lib.rs:92-96 | the digit count of a key is its run of leading digits, ended by the end of the string or a non-digit |
| Index.KeyIndexOfKeyFor | src/lib.rs:92-96 | the key `"<n>.<ext>"` carries back the counter value `n` it was minted from |
| Index.KeyForInjective | src/lib.rs:92-96 | keys minted from different counter values differ, whatever the paths |
| Index.NumberedStep | src/lib.rs:98-99 | adding a key that carries the current counter value finds no such key present, and moves the invariant on to the next counter value |
| Index.LoadOne | src/lib.rs:89-100 | the key one `load_video` mints is new, and the invariant holds after it with the counter advanced by one |
| Index.InsertAppend | src/lib.rs:106-113 | loading `a + b` is loading `a`, then `b` with the counter advanced by the length of `a` |
| Index.InsertSnoc | src/lib.rs:98-99 | loading one more path is one `load_video` on the map loaded so far |
| Index.InsertKeepsNumbering | src/lib.rs:98-99 | loading a sequence of paths keeps the invariant, with the counter advanced by their number, and changes no key that was there |
| Index.InsertThen | src/lib.rs:106-113 | loads from where earlier loads left off add up to loading both sequences in a row |
| Index.StoreStores | src/lib.rs:98-99 | the `i`-th loaded path sits under the key minted from the counter value plus `i` |
| Index.StoreOnlyAdds | src/lib.rs:98-99 | loading adds no key other than those minted for the loaded paths |
| Index.CatalogNumbered | src/lib.rs:130-132 | after a rebuild the map satisfies the invariant, with one key per loaded path |
| Index.CatalogStores | src/lib.rs:130-132 | after a rebuild the `i`-th loaded path sits under the key minted from `i` |
| Index.CatalogKeys | src/lib.rs:130-132 | after a rebuild a key is present exactly when it was minted for one of the loaded paths |
| Index.CatalogIndices | src/lib.rs:130-132 | after a rebuild the keys' numbers are exactly `0 .. k-1`, for `k` loaded paths |
| Index.ThenConcatenates | src/lib.rs:107-110 | a scan in two parts loads both parts' paths in order when the first completes, only the first part's otherwise, and completes when both do |
| Index.ThenAssociative | src/lib.rs:106-114 | how the entries of a walk are grouped does not change what it loads |
| Index.ScanFromStep | src/lib.rs:106-114 | one pass of the loop: the entry's own paths are loaded, and the entries after it carry on unless it stopped the walk |
| Index.FilterAppend | src/lib.rs:111 | filtering a concatenation filters each part |
| Index.FilterSpec | src/lib.rs:111 | the filter keeps exactly the recognised paths, and everything it keeps is recognised |
| Index.ThenApproximates | src/lib.rs:106-114 | two walks in a row, each loading a prefix of a list, load a prefix of the two lists in a row, all of it when both complete |
| Index.ScanMatchesFiles | src/lib.rs:103-118 | a scan loads a prefix of the recognised files in depth-first listing order, all of them when it completes, and it completes exactly when no listing, at any depth, yields an error |
| Index.ScanCompleteOnlyWithoutErrors | src/lib.rs:107-110 | a scan that completes met no entry error anywhere below the root: an error in any listing, however deep, ends the walk with `Err` |
| Index.EntryScanOfFile | src/lib.rs:108-112 | in a tree whose entry names are ones `read_dir` can yield, a file entry is loaded, under its joined path, exactly when its own name is recognised |
| Index.ScanLoadsVideos | src/lib.rs:109-113 | every loaded path is a file under the root and has a recognised extension |
| Index.RebuildCatalog | src/lib.rs:106-113 | on a tree without entry errors a rebuild completes and holds one entry per recognised file, the `i`-th under the key minted from `i`, and nothing else |
| VideoState.VideoPlayerState.constructor | src/lib.rs:59-66 | `new()` gives an empty map, counter 0, no root, and the extension set of the table; the invariant holds |
| VideoState.VideoPlayerState.AdvanceIndex | src/lib.rs:69-72 | the counter goes up by exactly one |
| VideoState.VideoPlayerState.LoadVideo | src/lib.rs:89-100 | the key minted from the old counter and the path's extension was absent and now maps to the path, no other key changes, the counter goes up by one, and the invariant holds |
| VideoState.VideoPlayerState.VisitDirs | src/lib.rs:103-118 | the map becomes the old map plus the scan's paths, loaded in order from the old counter; the counter goes up by their number; the result is `Ok` exactly when the scan completes; what was loaded before an error stays |
| VideoState.VideoPlayerState.VisitEntry | src/lib.rs:107-113 | one entry: an error loads nothing and gives `Err`, a directory is scanned in full, and any other entry is loaded exactly when recognised |
| VideoState.VideoPlayerState.LoadVideos | src/lib.rs:84-86 | the same as the scan of the root |
| VideoState.VideoPlayerState.Reload | src/lib.rs:129-133 | afterwards the map is the catalog of the root's scan, built from counter 0, however the map looked before; the counter equals the number of loaded paths |
| VideoState.VideoPlayerState.Build | src/lib.rs:121-126 | a fresh state whose root is the configured one and whose extension set is the table's, holding the catalog of one scan of that root |

## Left out

- The HTTP server of `src/main.rs` is not part of this model. That covers routing, templates, streaming, the command-line bootstrap and the lookup by key.
- `Arc<Mutex<_>>` sharing and the memory orderings of the atomic counter: the model is sequential, and the counter is a plain field.
- VideoState.VideoPlayerState.AdvanceIndex: the counter is an unbounded `nat`, so the wrap-around of `fetch_add` on a 64-bit `usize` is not modelled; it would need 2^64 loads.
- The filesystem is a finite tree passed in as a parameter. A directory that changes during a scan, and symbolic links that form a cycle, cannot be expressed.
- `to_str().unwrap()`: every name is a string, so the panic on a non-UTF-8 path is not modelled.
- VideoState.VideoPlayerState.LoadVideo: the panic of `extension().unwrap()` on a path without an extension is a precondition; the scan only loads recognised paths, which always have one.
- VideoState.VideoPlayerState.Build: returns the scan's `IoResult` instead of panicking on `Err` with `unwrap()`; the contract states the state in both cases.
- VideoState.VideoPlayerState.Reload: returns the scan's `IoResult` instead of panicking on `Err`. The unset root, on which `unwrap()` panics, is a precondition. Poisoning of the mutex after such a panic is not modelled.
- `VideoState.VideoPlayerState.IsVideoFile` has no contract of its own: it is `Index.IsVideo` on the state's extension set, and `Index.IsVideoOfEntry` states what that means.
- Paths follow Unix rules: `/` is the only separator, and there are no Windows prefixes.
- `Index.KeyFor` writes an empty extension for a path without one; the model never mints such a key, because `LoadVideo` demands an extension.
- The `info!` logging and the clap defaults of `VideoPlayerConfig` are not modelled. The configuration keeps its three fields.
