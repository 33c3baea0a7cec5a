/**
 * The parts of Rust's `std::path` that the catalog relies on, for Unix paths
 * (the separator is `/`): `Path::file_name`, `Path::extension` and
 * `Path::join`. The functions carry no contracts of their own, so that a
 * proof which only passes paths around does not unfold them; what they
 * compute is stated by the lemmas beside them.
 */
module Paths {
  import opened Optional

  /** The position of the last occurrence of `c` in `s`, if any. */
  function LastIndexOf(s: string, c: char): Option<nat>
    decreases |s|
  {
    if s == [] then None
    else if s[|s| - 1] == c then Some(|s| - 1)
    else LastIndexOf(s[..|s| - 1], c)
  }

  lemma {:induction false} LastIndexOfSpec(s: string, c: char)
    ensures var r := LastIndexOf(s, c);
      && (r.Some? ==> r.value < |s| && s[r.value] == c)
      && (r.Some? ==> forall j :: r.value < j < |s| ==> s[j] != c)
      && (r.None? <==> c !in s)
    decreases |s|
  {
    if s != [] && s[|s| - 1] != c {
      LastIndexOfSpec(s[..|s| - 1], c);
      assert s == s[..|s| - 1] + [s[|s| - 1]];
    }
  }

  /** An occurrence with none after it is the last one. */
  lemma LastIndexOfAt(s: string, c: char, k: nat)
    requires k < |s| && s[k] == c && forall j :: k < j < |s| ==> s[j] != c
    ensures LastIndexOf(s, c) == Some(k)
  {
    LastIndexOfSpec(s, c);
  }

  /** A name that `file_name` can return: a normal component, never `.` or `..`. */
  predicate IsEntryName(name: string) {
    name != "" && name != "." && name != ".." && '/' !in name
  }

  /**
   * The final component of `p` when it is a normal one. Empty and `.`
   * components are skipped, as `Path::components` skips them; a final `..`,
   * a bare root and the empty path have no file name.
   */
  function FileName(p: string): Option<string>
    decreases |p|
  {
    match LastIndexOf(p, '/')
    case None => if IsEntryName(p) then Some(p) else None
    case Some(i) =>
      if i >= |p| then None
      else
        var segment := p[i + 1..];
        if segment == "" || segment == "." then FileName(p[..i])
        else if segment == ".." || '/' in segment then None
        else Some(segment)
  }

  /** A file name is always a normal component. */
  lemma {:induction false} FileNameIsEntryName(p: string)
    ensures FileName(p).Some? ==> IsEntryName(FileName(p).value)
    decreases |p|
  {
    LastIndexOfSpec(p, '/');
    match LastIndexOf(p, '/')
    case None =>
    case Some(i) =>
      if i < |p| && (p[i + 1..] == "" || p[i + 1..] == ".") {
        FileNameIsEntryName(p[..i]);
      }
  }

  /**
   * The extension of a file name, following `rsplit_file_at_dot`: the text
   * after the last `.`, unless there is no `.` or the only place it could
   * split is a leading `.` (as in `.mp4`).
   */
  function NameExtension(name: string): Option<string> {
    match LastIndexOf(name, '.')
    case None => None
    case Some(i) => if i == 0 || i >= |name| then None else Some(name[i + 1..])
  }

  /**
   * A name has an extension exactly when it has a `.` after its first
   * character; the extension is then the dot-free text after the last `.`,
   * and something is left before that dot.
   */
  lemma NameExtensionSpec(name: string)
    ensures NameExtension(name).Some? <==> exists i :: 0 < i < |name| && name[i] == '.'
    ensures NameExtension(name).Some? ==>
              var ext := NameExtension(name).value;
              && |ext| + 1 < |name|
              && name[|name| - |ext| - 1] == '.'
              && name[|name| - |ext|..] == ext
              && '.' !in ext
  {
    LastIndexOfSpec(name, '.');
    match LastIndexOf(name, '.')
    case None =>
    case Some(i) =>
      if i > 0 {
        var ext := name[i + 1..];
        forall j | 0 <= j < |ext| ensures ext[j] != '.' {
          assert ext[j] == name[i + 1 + j];
        }
      }
  }

  /** `Path::extension`: the extension of the file name, if there is one. */
  function Extension(p: string): Option<string> {
    match FileName(p)
    case None => None
    case Some(name) => NameExtension(name)
  }

  /** `Path::join` of a single entry name (`PathBuf::push`): a separator is added unless `dir` is empty or ends in one. */
  function Join(dir: string, name: string): string {
    if dir == "" || dir[|dir| - 1] == '/' then dir + name else dir + "/" + name
  }

  /** The path of a directory entry has that entry's name as its file name, whichever the directory. */
  lemma FileNameOfJoin(dir: string, name: string)
    requires IsEntryName(name)
    ensures FileName(Join(dir, name)) == Some(name)
  {
    var p := Join(dir, name);
    LastIndexOfSpec(p, '/');
    LastIndexOfSpec(name, '/');
    if p != name {
      var k := |p| - |name| - 1;
      assert p[k] == '/';
      assert p[k + 1..] == name;
      assert forall j :: k < j < |p| ==> p[j] == name[j - k - 1];
      var last := LastIndexOf(p, '/');
      assert last.value == k;
    }
  }

  /** The extension of an entry's path is the extension of the entry's own name. */
  lemma ExtensionOfJoin(dir: string, name: string)
    requires IsEntryName(name)
    ensures Extension(Join(dir, name)) == NameExtension(name)
  {
    FileNameOfJoin(dir, name);
  }
}
