/**
 * The logic of the video index, stated over values: the extension table,
 * the identifiers `"<n>.<ext>"`, the map a sequence of loads produces, and
 * the sequence of files a recursive scan loads.
 */
module Index {
  import opened Optional
  import opened Numerals
  import opened Paths
  import opened FileSystem

  /** `VIDEO_EXTENSIONS`, in the order of the table. */
  const VideoExtensions: seq<string> :=
    ["mp4", "av1", "avi", "flv", "heic", "mkv", "mov", "mpg", "mpeg", "m4v", "webm", "wmv", "3gp"]

  /** The set of extensions `new()` builds from the table. */
  const VideoExtensionSet: set<string> := set e | e in VideoExtensions

  /** `is_video_file`: the path has an extension and it is, exactly as written, one of `exts`. */
  predicate IsVideo(path: string, exts: set<string>) {
    Extension(path).Some? && Extension(path).value in exts
  }

  predicate AllVideos(paths: seq<string>, exts: set<string>) {
    forall i :: 0 <= i < |paths| ==> IsVideo(paths[i], exts)
  }

  /** An entry name whose extension, exactly as written, is one of `exts`. */
  predicate IsVideoName(name: string, exts: set<string>) {
    NameExtension(name).Some? && NameExtension(name).value in exts
  }

  /**
   * Whether an entry is recognised depends on its own name only, not on the
   * directory it sits in; a recognised name has a `.` after its first
   * character.
   */
  lemma IsVideoOfEntry(dir: string, name: string, exts: set<string>)
    requires IsEntryName(name)
    ensures IsVideo(Join(dir, name), exts) <==> IsVideoName(name, exts)
    ensures IsVideoName(name, exts) ==> exists i :: 0 < i < |name| && name[i] == '.'
  {
    ExtensionOfJoin(dir, name);
    NameExtensionSpec(name);
  }

  /** A sequence without repetitions has as many members as its set. */
  lemma {:induction false} DistinctSetSize(s: seq<string>)
    requires forall i, j :: 0 <= i < j < |s| ==> s[i] != s[j]
    ensures |set e | e in s| == |s|
    decreases |s|
  {
    if s != [] {
      var rest := s[..|s| - 1];
      DistinctSetSize(rest);
      assert (set e | e in s) == (set e | e in rest) + {s[|s| - 1]};
      assert s[|s| - 1] !in rest;
    }
  }

  /** The table lists 13 distinct extensions, so the set `new()` builds has 13 members. */
  lemma ExtensionTableSize()
    ensures |VideoExtensionSet| == |VideoExtensions| == 13
  {
    DistinctSetSize(VideoExtensions);
  }

  /**
   * The rule on sample names: the text after the last `.` is looked up as
   * written.
   */
  lemma IsVideoNameExamples()
    ensures IsVideoName("clip.mp4", VideoExtensionSet)
    ensures IsVideoName("show.s01.webm", VideoExtensionSet)
  {
    LastIndexOfAt("clip.mp4", '.', 4);
    assert "clip.mp4"[5..] == "mp4";
    LastIndexOfAt("show.s01.webm", '.', 8);
    assert "show.s01.webm"[9..] == "webm";
  }

  /**
   * Names the rule turns away: a different case, a dot that only starts the
   * name, no dot at all, and a recognised extension that is not the last one.
   */
  lemma NotVideoNameExamples()
    ensures !IsVideoName("clip.MP4", VideoExtensionSet)
    ensures !IsVideoName(".mp4", VideoExtensionSet)
    ensures !IsVideoName("mp4", VideoExtensionSet)
    ensures !IsVideoName("clip.mp4.txt", VideoExtensionSet)
  {
    LastIndexOfAt("clip.MP4", '.', 4);
    assert "clip.MP4"[5..] == "MP4";
    LastIndexOfAt(".mp4", '.', 0);
    LastIndexOfSpec("mp4", '.');
    LastIndexOfAt("clip.mp4.txt", '.', 8);
    assert "clip.mp4.txt"[9..] == "txt";
  }

  // ----- Identifiers -----

  /**
   * The identifier `load_video` mints for `path` when the counter reads `n`:
   * `format!("{}.{}", n, ext)`. It is only ever applied to paths that have an
   * extension; the empty text stands in for a missing one.
   */
  function KeyFor(n: nat, path: string): string {
    Decimal(n) + "." + ExtensionText(path)
  }

  function ExtensionText(path: string): string {
    match Extension(path)
    case Some(ext) => ext
    case None => ""
  }

  /** The number of decimal digits `s` starts with. */
  function LeadingDigits(s: string): nat
    decreases |s|
  {
    if s != [] && IsDigit(s[0]) then 1 + LeadingDigits(s[1..]) else 0
  }

  /** `s` starts with `LeadingDigits(s)` digits, followed by the end of `s` or by a non-digit. */
  lemma {:induction false} LeadingDigitsSpec(s: string)
    ensures LeadingDigits(s) <= |s| && AllDigits(s[..LeadingDigits(s)])
    ensures LeadingDigits(s) < |s| ==> !IsDigit(s[LeadingDigits(s)])
    decreases |s|
  {
    if s != [] && IsDigit(s[0]) {
      LeadingDigitsSpec(s[1..]);
      var r := LeadingDigits(s);
      assert s[..r] == [s[0]] + s[1..][..r - 1];
    }
  }

  /** The counter value an identifier was minted from: the digits before its first `.`. */
  function KeyIndex(key: string): Option<nat> {
    var d := LeadingDigits(key);
    if 0 < d < |key| && key[d] == '.' then Some(Value(key[..d])) else None
  }

  /** An identifier gives back the counter value it was minted from. */
  lemma KeyIndexOfKeyFor(n: nat, path: string)
    ensures KeyIndex(KeyFor(n, path)) == Some(n)
  {
    var key := KeyFor(n, path);
    var s := Decimal(n);
    assert key[..|s|] == s;
    assert key[|s|] == '.';
    LeadingDigitsSpec(key);
    assert LeadingDigits(key) == |s|;
    ValueOfDecimal(n);
  }

  /** Identifiers minted from different counter values differ, whatever the paths. */
  lemma KeyForInjective(a: nat, p: string, b: nat, q: string)
    ensures KeyFor(a, p) == KeyFor(b, q) ==> a == b
  {
    KeyIndexOfKeyFor(a, p);
    KeyIndexOfKeyFor(b, q);
  }

  // ----- The map of loaded videos -----

  /**
   * The numbering facts are stated for any `index` that reads a counter value
   * off an identifier, so that their proofs never look inside one; the model
   * uses them with `KeyIndex`.
   */

  /** Every identifier in `m` carries a counter value below `n`. */
  ghost predicate BelowBy(index: string -> Option<nat>, m: map<string, string>, n: nat) {
    forall k {:trigger index(k)} :: k in m ==> index(k).Some? && index(k).value < n
  }

  /** No two identifiers in `m` carry the same counter value. */
  ghost predicate DistinctBy(index: string -> Option<nat>, m: map<string, string>) {
    forall k, k' {:trigger index(k), index(k')} :: k in m && k' in m && index(k) == index(k') ==> k == k'
  }

  ghost predicate NumberedBy(index: string -> Option<nat>, m: map<string, string>, n: nat) {
    BelowBy(index, m, n) && DistinctBy(index, m) && |m| == n
  }

  /**
   * The invariant of `videos` against `next_index`: every identifier carries
   * a counter value below `n`, no two identifiers carry the same one, and
   * there are exactly `n` of them.
   */
  ghost predicate Numbered(m: map<string, string>, n: nat) {
    NumberedBy(KeyIndex, m, n)
  }

  /** Adding an identifier that carries counter value `n` moves the invariant on to `n + 1`. */
  lemma NumberedStep(index: string -> Option<nat>, m: map<string, string>, n: nat, k: string, v: string)
    requires NumberedBy(index, m, n) && index(k) == Some(n)
    ensures k !in m
    ensures NumberedBy(index, m[k := v], n + 1)
  {
    var m' := m[k := v];
    assert k !in m;
    assert |m'| == n + 1;
    assert BelowBy(index, m', n + 1) by {
      forall k' | k' in m' ensures index(k').Some? && index(k').value < n + 1 {
        if k' != k {
          assert k' in m;
        }
      }
    }
    assert DistinctBy(index, m') by {
      forall k1, k2 | k1 in m' && k2 in m' && index(k1) == index(k2) ensures k1 == k2 {
        if k1 != k && k2 != k {
          assert k1 in m && k2 in m;
        }
      }
    }
  }

  /** One `load_video` step: the new identifier is not yet present, and the invariant moves on to `n + 1`. */
  lemma LoadOne(m: map<string, string>, n: nat, path: string)
    requires Numbered(m, n)
    ensures KeyFor(n, path) !in m
    ensures Numbered(m[KeyFor(n, path) := path], n + 1)
  {
    KeyIndexOfKeyFor(n, path);
    NumberedStep(KeyIndex, m, n, KeyFor(n, path), path);
  }

  /**
   * Storing `paths` one after the other, the `i`-th under `key(n + i, paths[i])`.
   * The map facts below hold for any `key` whose identifiers give back the
   * counter value they were minted from, so their proofs never look inside
   * an identifier.
   */
  function Store(key: (nat, string) -> string, m: map<string, string>, n: nat, paths: seq<string>): map<string, string>
    decreases |paths|
  {
    if paths == [] then m else Store(key, m[key(n, paths[0]) := paths[0]], n + 1, paths[1..])
  }

  /** Every identifier `key` mints gives back, through `index`, the counter value it was minted from. */
  ghost predicate Mints(key: (nat, string) -> string, index: string -> Option<nat>) {
    forall i: nat, p: string :: index(key(i, p)) == Some(i)
  }

  lemma KeyForMints()
    ensures Mints(KeyFor, KeyIndex)
  {
    forall i: nat, p: string ensures KeyIndex(KeyFor(i, p)) == Some(i) {
      KeyIndexOfKeyFor(i, p);
    }
  }

  /** The map after loading `paths` one after the other with `load_video`, from map `m` and counter `n`. */
  function Insert(m: map<string, string>, n: nat, paths: seq<string>): map<string, string> {
    Store(KeyFor, m, n, paths)
  }

  /** Storing `a + b` is storing `a`, then `b` with the counter advanced by `|a|`. */
  lemma {:induction false} StoreAppend(key: (nat, string) -> string, m: map<string, string>, n: nat, a: seq<string>, b: seq<string>)
    ensures Store(key, m, n, a + b) == Store(key, Store(key, m, n, a), n + |a|, b)
    decreases |a|
  {
    if a != [] {
      var m' := m[key(n, a[0]) := a[0]];
      assert (a + b)[0] == a[0];
      assert (a + b)[1..] == a[1..] + b;
      StoreAppend(key, m', n + 1, a[1..], b);
      assert Store(key, m, n, a) == Store(key, m', n + 1, a[1..]);
      assert n + 1 + |a[1..]| == n + |a|;
    } else {
      assert a + b == b;
    }
  }

  /** Loading `a + b` is loading `a`, then `b` with the counter advanced by `|a|`. */
  lemma InsertAppend(m: map<string, string>, n: nat, a: seq<string>, b: seq<string>)
    ensures Insert(m, n, a + b) == Insert(Insert(m, n, a), n + |a|, b)
  {
    StoreAppend(KeyFor, m, n, a, b);
  }

  /** Loading one more path is one `load_video`. */
  lemma InsertSnoc(m: map<string, string>, n: nat, a: seq<string>, p: string)
    ensures Insert(m, n, a + [p]) == Insert(m, n, a)[KeyFor(n + |a|, p) := p]
  {
    StoreAppend(KeyFor, m, n, a, [p]);
    assert [p][1..] == [];
  }

  /** Storing keeps the invariant, with the counter advanced by the number of paths. */
  lemma {:induction false} StoreNumbered(key: (nat, string) -> string, index: string -> Option<nat>,
                                         m: map<string, string>, n: nat, paths: seq<string>)
    requires Mints(key, index) && NumberedBy(index, m, n)
    ensures NumberedBy(index, Store(key, m, n, paths), n + |paths|)
    decreases |paths|
  {
    if paths != [] {
      var k := key(n, paths[0]);
      var m' := m[k := paths[0]];
      assert index(k) == Some(n);
      NumberedStep(index, m, n, k, paths[0]);
      StoreNumbered(key, index, m', n + 1, paths[1..]);
      assert Store(key, m, n, paths) == Store(key, m', n + 1, paths[1..]);
      assert n + 1 + |paths[1..]| == n + |paths|;
    }
  }

  /** Storing overwrites no identifier that was already there. */
  lemma {:induction false} StoreKeepsOld(key: (nat, string) -> string, index: string -> Option<nat>,
                                         m: map<string, string>, n: nat, paths: seq<string>)
    requires Mints(key, index) && BelowBy(index, m, n)
    ensures forall k :: k in m ==> k in Store(key, m, n, paths) && Store(key, m, n, paths)[k] == m[k]
    decreases |paths|
  {
    if paths != [] {
      var k := key(n, paths[0]);
      assert index(k) == Some(n);
      assert k !in m;
      StoreKeepsOld(key, index, m[k := paths[0]], n + 1, paths[1..]);
    }
  }

  /** Storing puts the `i`-th path under the identifier minted from `n + i`. */
  lemma {:induction false} StoreStores(key: (nat, string) -> string, index: string -> Option<nat>,
                                       m: map<string, string>, n: nat, paths: seq<string>)
    requires Mints(key, index) && BelowBy(index, m, n)
    ensures forall i :: 0 <= i < |paths| ==>
              key(n + i, paths[i]) in Store(key, m, n, paths) && Store(key, m, n, paths)[key(n + i, paths[i])] == paths[i]
    decreases |paths|
  {
    if paths != [] {
      var k := key(n, paths[0]);
      var m' := m[k := paths[0]];
      var rest := paths[1..];
      assert index(k) == Some(n);
      assert BelowBy(index, m', n + 1);
      StoreKeepsOld(key, index, m', n + 1, rest);
      StoreStores(key, index, m', n + 1, rest);
      forall i | 0 < i < |paths|
        ensures key(n + i, paths[i]) in Store(key, m', n + 1, rest)
        ensures Store(key, m', n + 1, rest)[key(n + i, paths[i])] == paths[i]
      {
        assert rest[i - 1] == paths[i];
        assert n + 1 + (i - 1) == n + i;
      }
    }
  }

  /** Storing adds no identifier other than the ones minted for the paths. */
  lemma {:induction false} StoreOnlyAdds(key: (nat, string) -> string, m: map<string, string>, n: nat, paths: seq<string>)
    ensures forall k :: k in Store(key, m, n, paths) ==>
              k in m || exists i :: 0 <= i < |paths| && k == key(n + i, paths[i])
    decreases |paths|
  {
    if paths != [] {
      var m' := m[key(n, paths[0]) := paths[0]];
      var rest := paths[1..];
      StoreOnlyAdds(key, m', n + 1, rest);
      forall k | k in Store(key, m', n + 1, rest)
        ensures k in m || exists i :: 0 <= i < |paths| && k == key(n + i, paths[i])
      {
        if k !in m' {
          var j :| 0 <= j < |rest| && k == key(n + 1 + j, rest[j]);
          assert rest[j] == paths[j + 1];
          assert k == key(n + (j + 1), paths[j + 1]);
        } else if k !in m {
          assert k == key(n + 0, paths[0]);
        }
      }
    }
  }

  /** Loading keeps the invariant and overwrites nothing that was there. */
  lemma InsertKeepsNumbering(m: map<string, string>, n: nat, paths: seq<string>)
    requires Numbered(m, n)
    ensures Numbered(Insert(m, n, paths), n + |paths|)
    ensures forall k :: k in m ==> k in Insert(m, n, paths) && Insert(m, n, paths)[k] == m[k]
  {
    KeyForMints();
    StoreNumbered(KeyFor, KeyIndex, m, n, paths);
    StoreKeepsOld(KeyFor, KeyIndex, m, n, paths);
  }

  /** Loading `b` into the map that loading `a` produced is loading `a + b`. */
  lemma InsertThen(m: map<string, string>, n: nat, a: seq<string>, mid: map<string, string>, count: nat, b: seq<string>)
    requires mid == Insert(m, n, a) && count == n + |a|
    ensures Insert(mid, count, b) == Insert(m, n, a + b)
  {
    InsertAppend(m, n, a, b);
  }

  /** The map a rebuild produces from `paths`: loads from an empty map with the counter at 0. */
  function Catalog(paths: seq<string>): map<string, string>
  {
    Insert(map[], 0, paths)
  }

  /** After a rebuild the map satisfies the invariant, with exactly one entry per loaded path. */
  lemma CatalogNumbered(paths: seq<string>)
    ensures Numbered(Catalog(paths), |paths|)
  {
    KeyForMints();
    StoreNumbered(KeyFor, KeyIndex, map[], 0, paths);
  }

  /** After a rebuild the `i`-th loaded path sits under the identifier minted from `i`. */
  lemma CatalogStores(paths: seq<string>)
    ensures forall i :: 0 <= i < |paths| ==>
              KeyFor(i, paths[i]) in Catalog(paths) && Catalog(paths)[KeyFor(i, paths[i])] == paths[i]
  {
    KeyForMints();
    StoreStores(KeyFor, KeyIndex, map[], 0, paths);
    forall i | 0 <= i < |paths|
      ensures KeyFor(i, paths[i]) in Catalog(paths) && Catalog(paths)[KeyFor(i, paths[i])] == paths[i]
    {
      assert 0 + i == i;
    }
  }

  /** After a rebuild every identifier is one minted for a loaded path. */
  lemma CatalogKeys(paths: seq<string>)
    ensures forall k :: k in Catalog(paths) <==> exists i :: 0 <= i < |paths| && k == KeyFor(i, paths[i])
  {
    CatalogStores(paths);
    StoreOnlyAdds(KeyFor, map[], 0, paths);
    forall k | k in Catalog(paths)
      ensures exists i :: 0 <= i < |paths| && k == KeyFor(i, paths[i])
    {
      var i :| 0 <= i < |paths| && k == KeyFor(0 + i, paths[i]);
      assert k == KeyFor(i, paths[i]);
    }
  }

  /** After a rebuild the counter values carried by the identifiers are exactly `0 .. |paths| - 1`. */
  lemma CatalogIndices(paths: seq<string>)
    ensures forall j: nat :: (exists k :: k in Catalog(paths) && KeyIndex(k) == Some(j)) <==> j < |paths|
  {
    CatalogNumbered(paths);
    CatalogStores(paths);
    forall j: nat | j < |paths|
      ensures exists k :: k in Catalog(paths) && KeyIndex(k) == Some(j)
    {
      KeyIndexOfKeyFor(j, paths[j]);
      assert KeyFor(j, paths[j]) in Catalog(paths);
    }
  }

  // ----- The recursive scan -----

  /** What a scan loaded, in order, and whether it ran to the end (`Ok`) or stopped at an error (`Err`). */
  datatype ScanResult = ScanResult(paths: seq<string>, complete: bool)

  /**
   * A scan in two parts: a part that stopped at an error ends the whole scan.
   * A first part that loaded nothing leaves the rest as it is (the case is
   * written out so that no `[] + paths` is ever formed).
   */
  function Then(first: ScanResult, rest: ScanResult): ScanResult {
    if !first.complete then first
    else if first.paths == [] then rest
    else ScanResult(first.paths + rest.paths, rest.complete)
  }

  /** A scan in two parts loads both parts' paths in order and completes when both do. */
  lemma ThenConcatenates(first: ScanResult, rest: ScanResult)
    ensures Then(first, rest).paths == if first.complete then first.paths + rest.paths else first.paths
    ensures Then(first, rest).complete == (first.complete && rest.complete)
  {
  }

  /** Splitting a scan into parts does not depend on how the parts are grouped. */
  lemma ThenAssociative(a: ScanResult, b: ScanResult, c: ScanResult)
    ensures Then(Then(a, b), c) == Then(a, Then(b, c))
  {
    if a.complete && b.complete {
      assert (a.paths + b.paths) + c.paths == a.paths + (b.paths + c.paths);
    }
  }

  /**
   * The files `visit_dirs(path)` loads when `node` is what lives at `path`.
   * A non-directory and a directory `read_dir` cannot open load nothing.
   */
  function Scan(path: string, node: Node, exts: set<string>): (r: ScanResult)
    decreases node
  {
    match node
    case File(_) => ScanResult([], true)
    case Dir(_, Unreadable) => ScanResult([], true)
    case Dir(_, Entries(_)) => ScanFrom(path, node, 0, exts)
  }

  /**
   * The loop of `visit_dirs` from the `i`-th entry on: each entry in turn,
   * up to the first one that stops the scan.
   */
  function ScanFrom(path: string, node: Node, i: nat, exts: set<string>): (r: ScanResult)
    requires node.Dir? && node.listing.Entries? && i <= |node.listing.entries|
    decreases node, |node.listing.entries| - i
  {
    if i == |node.listing.entries| then ScanResult([], true)
    else Then(EntryScan(path, node, i, exts), ScanFrom(path, node, i + 1, exts))
  }

  /**
   * One pass of that loop, for the `i`-th entry: an erroring entry stops the
   * scan, a directory is scanned in full, and any other entry is loaded when
   * its extension is recognised.
   */
  function EntryScan(path: string, node: Node, i: nat, exts: set<string>): (r: ScanResult)
    requires node.Dir? && node.listing.Entries? && i < |node.listing.entries|
    decreases node, 0
  {
    match node.listing.entries[i]
    case Bad => ScanResult([], false)
    case Good(child) =>
      var p := Join(path, child.name);
      if child.Dir? then Scan(p, child, exts)
      else if IsVideo(p, exts) then ScanResult([p], true)
      else ScanResult([], true)
  }

  /**
   * The loop step of `visit_dirs`: with `loaded` already loaded, entry `i`
   * adds its own paths and, if it did not stop the scan, the entries after
   * it carry on.
   */
  lemma ScanFromStep(path: string, node: Node, i: nat, exts: set<string>, loaded: seq<string>)
    requires node.Dir? && node.listing.Entries? && i < |node.listing.entries|
    ensures var e := EntryScan(path, node, i, exts);
      Then(ScanResult(loaded, true), ScanFrom(path, node, i, exts))
        == Then(ScanResult(loaded + e.paths, e.complete), ScanFrom(path, node, i + 1, exts))
  {
    ThenAssociative(ScanResult(loaded, true), EntryScan(path, node, i, exts), ScanFrom(path, node, i + 1, exts));
  }

  /** Every entry name in the tree is one `read_dir` can yield: a normal component. */
  predicate WellNamed(node: Node)
    decreases node
  {
    match node
    case File(_) => true
    case Dir(_, Unreadable) => true
    case Dir(_, Entries(es)) =>
      forall i :: 0 <= i < |es| && es[i].Good? ==> IsEntryName(es[i].node.name) && WellNamed(es[i].node)
  }

  /** In a well-named tree the loop loads a file entry exactly when its own name is recognised. */
  lemma EntryScanOfFile(path: string, node: Node, i: nat, exts: set<string>)
    requires WellNamed(node) && node.Dir? && node.listing.Entries? && i < |node.listing.entries|
    requires node.listing.entries[i].Good? && node.listing.entries[i].node.File?
    ensures var name := node.listing.entries[i].node.name;
      EntryScan(path, node, i, exts)
        == if IsVideoName(name, exts) then ScanResult([Join(path, name)], true) else ScanResult([], true)
  {
    IsVideoOfEntry(path, node.listing.entries[i].node.name, exts);
  }

  /** Every non-directory under `node` that a listing reaches, depth first in listing order. */
  function Files(path: string, node: Node): seq<string>
    decreases node
  {
    match node
    case File(_) => []
    case Dir(_, Unreadable) => []
    case Dir(_, Entries(_)) => FilesFrom(path, node, 0)
  }

  function FilesFrom(path: string, node: Node, i: nat): seq<string>
    requires node.Dir? && node.listing.Entries? && i <= |node.listing.entries|
    decreases node, |node.listing.entries| - i
  {
    var es := node.listing.entries;
    if i == |es| then []
    else
      var here :=
        match es[i]
        case Bad => []
        case Good(child) =>
          var p := Join(path, child.name);
          if child.Dir? then Files(p, child) else [p];
      here + FilesFrom(path, node, i + 1)
  }

  /** The recognised paths of `paths`, in order. */
  function Filter(paths: seq<string>, exts: set<string>): (r: seq<string>)
    decreases |paths|
  {
    if paths == [] then []
    else (if IsVideo(paths[0], exts) then [paths[0]] else []) + Filter(paths[1..], exts)
  }

  lemma {:induction false} FilterAppend(a: seq<string>, b: seq<string>, exts: set<string>)
    ensures Filter(a + b, exts) == Filter(a, exts) + Filter(b, exts)
    decreases |a|
  {
    if a != [] {
      var head := if IsVideo(a[0], exts) then [a[0]] else [];
      assert (a + b)[0] == a[0];
      assert (a + b)[1..] == a[1..] + b;
      FilterAppend(a[1..], b, exts);
      calc {
        Filter(a + b, exts);
        head + Filter(a[1..] + b, exts);
        head + (Filter(a[1..], exts) + Filter(b, exts));
        (head + Filter(a[1..], exts)) + Filter(b, exts);
        Filter(a, exts) + Filter(b, exts);
      }
    } else {
      assert a + b == b;
    }
  }

  /** `Filter` keeps exactly the members of `paths` whose extension is recognised. */
  lemma {:induction false} FilterSpec(paths: seq<string>, exts: set<string>)
    ensures AllVideos(Filter(paths, exts), exts)
    ensures forall x :: x in Filter(paths, exts) <==> x in paths && IsVideo(x, exts)
    decreases |paths|
  {
    if paths != [] {
      FilterSpec(paths[1..], exts);
      assert paths == [paths[0]] + paths[1..];
    }
  }

  /** The recognised files under `node`: what a scan should load. */
  function Recognised(path: string, node: Node, exts: set<string>): seq<string> {
    Filter(Files(path, node), exts)
  }

  /** A scan result loaded a prefix of `all`, and all of it if the scan ran to the end. */
  predicate Approximates(s: ScanResult, all: seq<string>) {
    s.paths <= all && (s.complete ==> s.paths == all)
  }

  /** Two scans in a row approximate the two lists in a row. */
  lemma ThenApproximates(first: ScanResult, a: seq<string>, rest: ScanResult, b: seq<string>)
    requires Approximates(first, a) && Approximates(rest, b)
    ensures Approximates(Then(first, rest), a + b)
  {
    if first.complete {
      assert Then(first, rest).paths == a + rest.paths;
      assert (a + b)[..|a| + |rest.paths|] == a + b[..|rest.paths|];
    } else {
      assert (a + b)[..|first.paths|] == a[..|first.paths|];
    }
  }

  /**
   * A scan loads a prefix of the recognised files in depth-first listing
   * order; all of them when it completes; and it completes when no listing
   * yields an error.
   */
  lemma {:induction false} ScanMatchesFiles(path: string, node: Node, exts: set<string>)
    ensures Approximates(Scan(path, node, exts), Recognised(path, node, exts))
    ensures Scan(path, node, exts).complete <==> NoEntryErrors(node)
    decreases node
  {
    match node
    case File(_) =>
    case Dir(_, Unreadable) =>
    case Dir(_, Entries(_)) =>
      ScanFromMatchesFilesFrom(path, node, 0, exts);
      ScanCompleteOnlyWithoutErrors(path, node, exts);
  }

  /** A scan that completes met no entry error anywhere below `node`. */
  lemma {:induction false} ScanCompleteOnlyWithoutErrors(path: string, node: Node, exts: set<string>)
    ensures Scan(path, node, exts).complete ==> NoEntryErrors(node)
    decreases node
  {
    match node
    case File(_) =>
    case Dir(_, Unreadable) =>
    case Dir(_, Entries(_)) => ScanFromCompleteOnlyWithoutErrors(path, node, 0, exts);
  }

  lemma {:induction false} ScanFromCompleteOnlyWithoutErrors(path: string, node: Node, i: nat, exts: set<string>)
    requires node.Dir? && node.listing.Entries? && i <= |node.listing.entries|
    ensures ScanFrom(path, node, i, exts).complete ==>
              forall j :: i <= j < |node.listing.entries| ==>
                node.listing.entries[j].Good? && NoEntryErrors(node.listing.entries[j].node)
    decreases node, |node.listing.entries| - i
  {
    var es := node.listing.entries;
    if i < |es| && ScanFrom(path, node, i, exts).complete {
      var here := EntryScan(path, node, i, exts);
      ThenConcatenates(here, ScanFrom(path, node, i + 1, exts));
      ScanFromCompleteOnlyWithoutErrors(path, node, i + 1, exts);
      match es[i]
      case Bad =>
      case Good(child) =>
        if child.Dir? {
          ScanCompleteOnlyWithoutErrors(Join(path, child.name), child, exts);
        }
    }
  }

  lemma {:induction false} ScanFromMatchesFilesFrom(path: string, node: Node, i: nat, exts: set<string>)
    requires node.Dir? && node.listing.Entries? && i <= |node.listing.entries|
    ensures Approximates(ScanFrom(path, node, i, exts), Filter(FilesFrom(path, node, i), exts))
    ensures NoEntryErrors(node) ==> ScanFrom(path, node, i, exts).complete
    decreases node, |node.listing.entries| - i
  {
    var es := node.listing.entries;
    if i < |es| {
      ScanFromMatchesFilesFrom(path, node, i + 1, exts);
      var rest := ScanFrom(path, node, i + 1, exts);
      var later := Filter(FilesFrom(path, node, i + 1), exts);
      match es[i]
      case Bad =>
      case Good(child) =>
        var p := Join(path, child.name);
        var files := if child.Dir? then Files(p, child) else [p];
        assert FilesFrom(path, node, i) == files + FilesFrom(path, node, i + 1);
        FilterAppend(files, FilesFrom(path, node, i + 1), exts);
        var here := EntryScan(path, node, i, exts);
        if child.Dir? {
          ScanMatchesFiles(p, child, exts);
        } else {
          assert [p][1..] == [];
          assert Filter(files, exts) == here.paths;
        }
        ThenApproximates(here, Filter(files, exts), rest, later);
    }
  }

  /** Everything a scan loads is a file under the root whose extension is recognised. */
  lemma ScanLoadsVideos(path: string, node: Node, exts: set<string>)
    ensures AllVideos(Scan(path, node, exts).paths, exts)
    ensures forall x :: x in Scan(path, node, exts).paths ==> x in Files(path, node)
  {
    var s := Scan(path, node, exts).paths;
    var all := Recognised(path, node, exts);
    ScanMatchesFiles(path, node, exts);
    FilterSpec(Files(path, node), exts);
    assert forall j :: 0 <= j < |s| ==> s[j] == all[j] && s[j] in all;
  }

  /**
   * A rebuild over a tree whose listings yield no error: the map holds one
   * entry per recognised file, the `i`-th in depth-first listing order under
   * the identifier minted from `i`, and nothing else.
   */
  lemma RebuildCatalog(root: string, tree: Node, exts: set<string>)
    requires NoEntryErrors(tree)
    ensures var s := Scan(root, tree, exts);
      var files := Recognised(root, tree, exts);
      var c := Catalog(s.paths);
      && s.complete
      && s.paths == files
      && |c| == |files|
      && (forall i :: 0 <= i < |files| ==> KeyFor(i, files[i]) in c && c[KeyFor(i, files[i])] == files[i])
      && (forall k :: k in c ==> exists i :: 0 <= i < |files| && k == KeyFor(i, files[i]))
  {
    var paths := Scan(root, tree, exts).paths;
    ScanMatchesFiles(root, tree, exts);
    CatalogNumbered(paths);
    CatalogStores(paths);
    CatalogKeys(paths);
  }
}
