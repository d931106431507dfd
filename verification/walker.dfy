/**
 * `get_relevant_files`: a top-down `os.walk` of the repository that drops
 * the `.git` directory and every subdirectory the matcher accepts before
 * descending, and keeps each file `should_include_file` accepts.
 */
module Walker {
  import opened Paths
  import opened FileTree
  import opened Inclusion

  /** A path the walk returns, paired with the byte size and line count the
      file system reports for it. */
  datatype FileRef = FileRef(path: string, size: nat, lines: nat)

  /** The reference to file entry `f` of the directory at `top`. */
  function RefTo(top: string, f: Node): FileRef
    requires f.File?
  {
    FileRef(Join(top, f.name), f.size, f.lines)
  }

  /** The entries of one directory that the `for file in files` loop keeps:
      files whose joined path passes `should_include_file`, in listing order. */
  function KeptFiles(cfg: Config, m: Gitignore, top: string, ch: seq<Node>): (r: seq<Node>)
    ensures IsSubsequence(r, ch)
    ensures forall x :: x in r <==> x in ch && x.File? && ShouldInclude(cfg, m, Join(top, x.name))
    decreases |ch|
  {
    if |ch| == 0 then []
    else
      var rest := KeptFiles(cfg, m, top, ch[1..]);
      assert ch == [ch[0]] + ch[1..];
      if ch[0].File? && ShouldInclude(cfg, m, Join(top, ch[0].name)) then
        assert ([ch[0]] + rest)[1..] == rest;
        [ch[0]] + rest
      else
        rest
  }

  /** The paths of the kept files of the directory at `top`. */
  function Refs(top: string, files: seq<Node>): (r: seq<FileRef>)
    requires forall x :: x in files ==> x.File?
    ensures |r| == |files|
    ensures forall k :: 0 <= k < |r| ==> r[k] == RefTo(top, files[k])
    decreases |files|
  {
    if |files| == 0 then [] else [RefTo(top, files[0])] + Refs(top, files[1..])
  }

  /** The `dirs` list `os.walk` yields: the subdirectories, in listing order. */
  function Subdirs(ch: seq<Node>): (r: seq<Node>)
    ensures IsSubsequence(r, ch)
    ensures forall x :: x in r <==> x in ch && x.Dir?
    decreases |ch|
  {
    if |ch| == 0 then []
    else
      var rest := Subdirs(ch[1..]);
      assert ch == [ch[0]] + ch[1..];
      if ch[0].Dir? then
        assert ([ch[0]] + rest)[1..] == rest;
        [ch[0]] + rest
      else
        rest
  }

  /** `if '.git' in dirs: dirs.remove('.git')`: drops the first directory
      named ".git", keeping every other one. */
  function RemoveGitDir(dirs: seq<Node>): (r: seq<Node>)
    ensures IsSubsequence(r, dirs)
    ensures forall x :: x in dirs && x.name != GitDir ==> x in r
    ensures DistinctNames(dirs) ==> forall x :: x in r ==> x.name != GitDir
    decreases |dirs|
  {
    if |dirs| == 0 then []
    else if dirs[0].name == GitDir then
      assert IsSubsequence(dirs[1..], dirs[1..]) by { SubsequenceOfSelf(dirs[1..]); }
      assert forall x :: x in dirs && x.name != GitDir ==> x in dirs[1..] by {
        assert dirs == [dirs[0]] + dirs[1..];
      }
      assert DistinctNames(dirs) ==> forall x :: x in dirs[1..] ==> x.name != GitDir by {
        assert forall x :: x in dirs[1..] ==> exists k :: 1 <= k < |dirs| && dirs[k] == x by {
          forall x | x in dirs[1..]
            ensures exists k :: 1 <= k < |dirs| && dirs[k] == x
          {
            var j :| 0 <= j < |dirs[1..]| && dirs[1..][j] == x;
            assert dirs[j + 1] == x;
          }
        }
      }
      dirs[1..]
    else
      var rest := RemoveGitDir(dirs[1..]);
      assert dirs == [dirs[0]] + dirs[1..];
      assert ([dirs[0]] + rest)[1..] == rest;
      assert DistinctNames(dirs) ==> DistinctNames(dirs[1..]);
      [dirs[0]] + rest
  }

  /** `dirs[:] = [d for d in dirs if not gitignore(os.path.join(root, d))]`,
      which is the identity when there is no matcher. */
  function Unignored(m: Gitignore, top: string, dirs: seq<Node>): (r: seq<Node>)
    ensures IsSubsequence(r, dirs)
    ensures forall x :: x in r <==> x in dirs && !Ignored(m, Join(top, x.name))
    decreases |dirs|
  {
    if |dirs| == 0 then []
    else
      var rest := Unignored(m, top, dirs[1..]);
      assert dirs == [dirs[0]] + dirs[1..];
      if !Ignored(m, Join(top, dirs[0].name)) then
        assert ([dirs[0]] + rest)[1..] == rest;
        [dirs[0]] + rest
      else
        rest
  }

  /** The subdirectories the walk descends into, in listing order. */
  function KeptDirs(m: Gitignore, top: string, ch: seq<Node>): (r: seq<Node>)
    ensures IsSubsequence(r, ch)
    ensures SizeAll(r) <= SizeAll(ch)
    ensures forall x :: x in r ==> x in ch && x.Dir? && !Ignored(m, Join(top, x.name))
    ensures DistinctNames(ch) ==>
      forall x :: x in r <==> x in ch && x.Dir? && x.name != GitDir && !Ignored(m, Join(top, x.name))
  {
    var subdirs := Subdirs(ch);
    var pruned := RemoveGitDir(subdirs);
    var r := Unignored(m, top, pruned);
    SubsequenceTransitive(pruned, subdirs, ch);
    SubsequenceTransitive(r, pruned, ch);
    SubsequenceSize(r, ch);
    SubsequenceMembers(pruned, subdirs);
    assert DistinctNames(ch) ==> DistinctNames(subdirs) by {
      if DistinctNames(ch) {
        SubsequenceDistinct(subdirs, ch);
      }
    }
    r
  }

  /** `get_relevant_files(top, gitignore)` for the directory `n` at path `top`:
      the kept files of `n` in listing order, then the walks of the kept
      subdirectories in listing order. A file in place of the directory yields
      nothing, as `os.walk` does. */
  function RelevantFiles(cfg: Config, m: Gitignore, top: string, n: Node): seq<FileRef>
    decreases Size(n), 0
  {
    match n
    case File(_, _, _) => []
    case Dir(_, ch) =>
      var files := KeptFiles(cfg, m, top, ch);
      var dirs := KeptDirs(m, top, ch);
      assert SizeAll(dirs) < Size(n);
      Refs(top, files) + RelevantFilesBelow(cfg, m, top, dirs)
  }

  /** The walks of the subdirectories `dirs` of the directory at `top`, one
      after the other. */
  function RelevantFilesBelow(cfg: Config, m: Gitignore, top: string, dirs: seq<Node>): seq<FileRef>
    decreases SizeAll(dirs), 1
  {
    if |dirs| == 0 then []
    else RelevantFiles(cfg, m, Join(top, dirs[0].name), dirs[0])
         + RelevantFilesBelow(cfg, m, top, dirs[1..])
  }
}
