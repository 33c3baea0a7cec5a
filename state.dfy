/**
 * The shared video index, `VideoPlayerState`, as an object whose methods
 * update its fields in place. The file system a scan walks is passed in as
 * a `Node` tree; each method is proved against the value-level scan and map
 * of module `Index`.
 */
module VideoState {
  import opened Optional
  import opened Numerals
  import opened Paths
  import opened FileSystem
  import opened Index

  /** A TCP port, `u16`. */
  type Port = x: int | 0 <= x < 0x1_0000

  /** The command-line configuration: where the videos live and where to listen. */
  datatype VideoPlayerConfig = VideoPlayerConfig(assetsRoot: string, port: Port, host: string)

  /** The outcome of a scan, `std::io::Result<()>` without the error's payload. */
  datatype IoResult = Ok | Err

  class VideoPlayerState {
    /** Identifier `"<n>.<ext>"` to the path of the file it serves. */
    var videos: map<string, string>
    /** Fixed by `new()`; nothing changes it afterwards. */
    const videoExtensions: set<string>
    /** The counter the next identifier is minted from. */
    var nextIndex: nat
    /** The directory the index was built from; `None` until `Build` sets it. */
    var root: Option<string>

    /**
     * Every identifier was minted from a counter value below `nextIndex`, no
     * two from the same value, one identifier per value minted so far.
     */
    ghost predicate Valid()
      reads this
    {
      Numbered(videos, nextIndex)
    }

    /** `new()`: an empty index that recognises the extensions of the table. */
    constructor ()
      ensures Valid()
      ensures videos == map[] && nextIndex == 0 && root == None
      ensures videoExtensions == VideoExtensionSet
    {
      videos := map[];
      videoExtensions := VideoExtensionSet;
      nextIndex := 0;
      root := None;
      new;
    }

    method AdvanceIndex()
      modifies this`nextIndex
      ensures nextIndex == old(nextIndex) + 1
    {
      nextIndex := nextIndex + 1;
    }

    /** `is_video_file`: the path's extension, as written, is one of the recognised ones. */
    predicate IsVideoFile(path: string)
      reads this
    {
      IsVideo(path, videoExtensions)
    }

    /**
     * `load_video`: mints an identifier from the counter and the path's
     * extension, advances the counter and maps the identifier to the path.
     * The identifier is always new, so nothing already loaded is replaced.
     */
    method LoadVideo(path: string)
      requires Valid()
      requires Extension(path).Some?
      modifies this`videos, this`nextIndex
      ensures Valid()
      ensures KeyFor(old(nextIndex), path) !in old(videos)
      ensures videos == old(videos)[KeyFor(old(nextIndex), path) := path]
      ensures nextIndex == old(nextIndex) + 1
    {
      var serverPath := Decimal(nextIndex) + "." + Extension(path).value;
      LoadOne(videos, nextIndex, path);
      AdvanceIndex();
      videos := videos[serverPath := path];
    }

    /**
     * `visit_dirs`: loads, in order, the files `Scan` picks under `node`,
     * which is what lives at `path`. An entry that cannot be read ends the
     * scan with `Err`, and what was loaded before it stays loaded.
     */
    method VisitDirs(path: string, node: Node) returns (result: IoResult)
      requires Valid()
      modifies this`videos, this`nextIndex
      ensures Valid()
      ensures var s := Scan(path, node, videoExtensions);
        && videos == Insert(old(videos), old(nextIndex), s.paths)
        && nextIndex == old(nextIndex) + |s.paths|
        && (result == Ok <==> s.complete)
      decreases node, 1
    {
      if node.File? || node.listing.Unreadable? {
        assert Insert(videos, nextIndex, []) == videos;
        return Ok;
      }
      ghost var exts, m0, n0 := videoExtensions, videos, nextIndex;
      ghost var loaded: seq<string> := [];
      var i := 0;
      assert Insert(m0, n0, []) == m0;
      while i < |node.listing.entries|
        invariant 0 <= i <= |node.listing.entries|
        invariant Valid()
        invariant Then(ScanResult(loaded, true), ScanFrom(path, node, i, exts)) == Scan(path, node, exts)
        invariant videos == Insert(m0, n0, loaded)
        invariant nextIndex == n0 + |loaded|
      {
        ghost var here := EntryScan(path, node, i, exts);
        ScanFromStep(path, node, i, exts, loaded);
        InsertThen(m0, n0, loaded, videos, nextIndex, here.paths);
        var r := VisitEntry(path, node, i);
        loaded := loaded + here.paths;
        if r == Err {
          return Err;
        }
        i := i + 1;
      }
      assert loaded + [] == loaded;
      return Ok;
    }

    /**
     * The body of the loop of `visit_dirs`, for the `i`-th entry of the
     * listing: the entry's error, or the scan of a directory, or the load of
     * a file whose extension is recognised.
     */
    method VisitEntry(path: string, node: Node, i: nat) returns (result: IoResult)
      requires Valid()
      requires node.Dir? && node.listing.Entries? && i < |node.listing.entries|
      modifies this`videos, this`nextIndex
      ensures Valid()
      ensures var s := EntryScan(path, node, i, videoExtensions);
        && videos == Insert(old(videos), old(nextIndex), s.paths)
        && nextIndex == old(nextIndex) + |s.paths|
        && (result == Ok <==> s.complete)
      decreases node, 0
    {
      match node.listing.entries[i]
      case Bad =>
        assert Insert(videos, nextIndex, []) == videos;
        return Err;
      case Good(child) =>
        var p := Join(path, child.name);
        if child.Dir? {
          result := VisitDirs(p, child);
        } else if IsVideoFile(p) {
          assert EntryScan(path, node, i, videoExtensions) == ScanResult([p], true);
          InsertSnoc(videos, nextIndex, [], p);
          assert [] + [p] == [p];
          assert Insert(videos, nextIndex, [p]) == videos[KeyFor(nextIndex, p) := p];
          LoadVideo(p);
          result := Ok;
        } else {
          assert Insert(videos, nextIndex, []) == videos;
          result := Ok;
        }
    }

    /** `load_videos`: the scan of `visit_dirs` from the given root. */
    method LoadVideos(path: string, tree: Node) returns (result: IoResult)
      requires Valid()
      modifies this`videos, this`nextIndex
      ensures Valid()
      ensures var s := Scan(path, tree, videoExtensions);
        && videos == Insert(old(videos), old(nextIndex), s.paths)
        && nextIndex == old(nextIndex) + |s.paths|
        && (result == Ok <==> s.complete)
    {
      result := VisitDirs(path, tree);
    }

    /**
     * `reload`: resets the counter, empties the map and scans the root again,
     * so the index afterwards depends on the current tree alone.
     */
    method Reload(tree: Node) returns (result: IoResult)
      requires root.Some?
      modifies this`videos, this`nextIndex
      ensures Valid()
      ensures var s := Scan(root.value, tree, videoExtensions);
        && videos == Catalog(s.paths)
        && nextIndex == |s.paths|
        && (result == Ok <==> s.complete)
    {
      nextIndex := 0;
      videos := map[];
      result := LoadVideos(root.value, tree);
    }

    /** `build`: a new index over the configured asset root, scanned once. */
    static method Build(config: VideoPlayerConfig, tree: Node) returns (state: VideoPlayerState, result: IoResult)
      ensures fresh(state) && state.Valid()
      ensures state.root == Some(config.assetsRoot)
      ensures state.videoExtensions == VideoExtensionSet
      ensures var s := Scan(config.assetsRoot, tree, VideoExtensionSet);
        && state.videos == Catalog(s.paths)
        && state.nextIndex == |s.paths|
        && (result == Ok <==> s.complete)
    {
      state := new VideoPlayerState();
      state.root := Some(config.assetsRoot);
      result := state.LoadVideos(state.root.value, tree);
    }
  }
}
