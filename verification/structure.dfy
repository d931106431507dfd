/**
 * `get_folder_structure`: the "Folder Structure" section of the report, a
 * tree drawing in which every directory level lists its entries sorted by
 * name, leaves out four fixed names and whatever the matcher accepts, and
 * draws each entry with a `├── ` or `└── ` connector under a prefix that
 * grows by `│   ` or four spaces per level.
 */
module FolderStructure {
  import opened Paths
  import opened FileTree
  import opened Inclusion

  /** The connectors and the indentation blocks, four characters each. */
  const Tee: string := "├── "
  const Corner: string := "└── "
  const Pipe: string := "│   "
  const Blank: string := "    "

  /** The connector of an entry: the corner for the last entry of its level. */
  function Connector(last: bool): (r: string)
    ensures |r| == 4 && (r == Corner <==> last) && (r == Tee <==> !last)
  {
    if last then Corner else Tee
  }

  /** What the prefix grows by below an entry: blank space once the last entry
      of a level has been drawn, a vertical bar while more entries follow. */
  function Indent(last: bool): (r: string)
    ensures |r| == 4 && (r == Blank <==> last) && (r == Pipe <==> !last)
  {
    if last then Blank else Pipe
  }

  /** The four names the drawing never shows, wherever they occur. */
  predicate HiddenName(cfg: Config, name: string) {
    || name == GitDir
    || name == cfg.OutputFile()
    || name == cfg.scriptName
    || name == GitignoreFilename
  }

  /** The entry `e` of the directory at `path` survives both list
      comprehensions: its name is not hidden and the matcher, if any, does
      not accept `e.path`, which `os.scandir` forms by joining. */
  predicate Shown(cfg: Config, m: Gitignore, path: string, e: Node) {
    !HiddenName(cfg, e.name) && !Ignored(m, Join(path, e.name))
  }

  /** Both comprehensions at once: the entries that survive, in order. */
  function ShownOnly(cfg: Config, m: Gitignore, path: string, s: seq<Node>): (r: seq<Node>)
    ensures IsSubsequence(r, s)
    ensures forall x :: x in r <==> x in s && Shown(cfg, m, path, x)
    decreases |s|
  {
    if |s| == 0 then []
    else
      var rest := ShownOnly(cfg, m, path, s[1..]);
      assert s == [s[0]] + s[1..];
      if Shown(cfg, m, path, s[0]) then
        assert ([s[0]] + rest)[1..] == rest;
        [s[0]] + rest
      else
        rest
  }

  /** The `entries` list of `add_to_structure(path, ...)` for the node `n` at
      `path`: its entries sorted by name, then filtered. Scanning a file
      fails, and the error handler leaves the list empty. */
  function Listing(cfg: Config, m: Gitignore, path: string, n: Node): (r: seq<Node>)
    ensures SortedByName(r)
    ensures forall x :: x in r <==> x in Entries(n) && Shown(cfg, m, path, x)
  {
    var sorted := SortByName(Entries(n));
    var r := ShownOnly(cfg, m, path, sorted);
    SubsequenceSorted(r, sorted);
    assert forall x :: x in sorted <==> x in Entries(n) by {
      forall x
        ensures x in sorted <==> x in Entries(n)
      {
        assert x in sorted <==> x in multiset(sorted);
        assert x in Entries(n) <==> x in multiset(Entries(n));
      }
    }
    r
  }

  /** In a real directory the listing names each entry once. */
  lemma ListingDistinct(cfg: Config, m: Gitignore, path: string, n: Node)
    requires WellFormed(n)
    ensures DistinctNames(Listing(cfg, m, path, n))
  {
    var sorted := SortByName(Entries(n));
    Reordered(sorted, Entries(n));
    SubsequenceDistinct(ShownOnly(cfg, m, path, sorted), sorted);
  }

  /** The line drawn for entry `e`: prefix, connector, name, and a slash after
      a directory's name. */
  function EntryLine(prefix: string, last: bool, e: Node): (r: string)
    ensures |r| == |prefix| + 4 + |e.name| + (if e.Dir? then 1 else 0)
    ensures r[..|prefix|] == prefix
    ensures r[|prefix|..|prefix| + 4] == Connector(last)
    ensures r[|prefix| + 4..] == e.name + (if e.Dir? then "/" else "")
  {
    prefix + Connector(last) + e.name + (if e.Dir? then "/" else "")
  }

  /** `add_to_structure(path, prefix)` on the node `n` found at `path`. */
  function AddToStructure(cfg: Config, m: Gitignore, path: string, prefix: string, n: Node): seq<string>
    decreases n, 2
  {
    DrawListing(cfg, m, path, prefix, n, Listing(cfg, m, path, n))
  }

  /** The loop over the remaining entries `es` of the listing of `parent`; the
      entry drawn is the last one exactly when no other entry follows. */
  function DrawListing(cfg: Config, m: Gitignore, path: string, prefix: string, ghost parent: Node, es: seq<Node>): seq<string>
    requires forall e :: e in es ==> e in Entries(parent)
    decreases parent, 1, |es|
  {
    if |es| == 0 then []
    else
      assert es[0] in Entries(parent);
      DrawEntry(cfg, m, path, prefix, es[0], |es| == 1) + DrawListing(cfg, m, path, prefix, parent, es[1..])
  }

  /** One iteration: the entry's line, then for a directory its own drawing
      under the grown prefix. */
  function DrawEntry(cfg: Config, m: Gitignore, path: string, prefix: string, e: Node, last: bool): seq<string>
    decreases e, 3
  {
    if e.Dir? then
      [EntryLine(prefix, last, e)] + AddToStructure(cfg, m, Join(path, e.name), prefix + Indent(last), e)
    else
      [EntryLine(prefix, last, e)]
  }

  /** `list(get_folder_structure(REPO_DIR, gitignore))` for the repository
      whose top directory is `root`: the repository name with a slash, then
      the drawing of the top directory. */
  function GetFolderStructure(cfg: Config, m: Gitignore, root: Node): (r: seq<string>)
    ensures |r| >= 1 && r[0] == cfg.repoName + "/"
    ensures r[1..] == AddToStructure(cfg, m, RepoDir, "", root)
  {
    [cfg.repoName + "/"] + AddToStructure(cfg, m, RepoDir, "", root)
  }
}
