/**
 * What the folder-structure drawing depicts. Each line stands for one entry
 * of the tree (a row: the directory it sits in, the entry, the prefix it is
 * drawn under and whether it is the last of its level). The rows are exactly
 * the entries reached through shown directories that are shown themselves,
 * and a row's prefix is four characters per directory level below the
 * repository directory.
 */
module StructureRows {
  import opened Paths
  import opened FileTree
  import opened Inclusion
  import opened FolderStructure

  datatype Row = Row(dir: string, entry: Node, prefix: string, last: bool)

  /** The line that depicts a row. */
  function Line(row: Row): string {
    EntryLine(row.prefix, row.last, row.entry)
  }

  /** The rows behind `add_to_structure(path, prefix)` on the node `n`. */
  function Rows(cfg: Config, m: Gitignore, path: string, prefix: string, n: Node): seq<Row>
    decreases n, 2
  {
    RowsOfListing(cfg, m, path, prefix, n, Listing(cfg, m, path, n))
  }

  function RowsOfListing(cfg: Config, m: Gitignore, path: string, prefix: string, ghost parent: Node, es: seq<Node>): seq<Row>
    requires forall e :: e in es ==> e in Entries(parent)
    decreases parent, 1, |es|
  {
    if |es| == 0 then []
    else
      assert es[0] in Entries(parent);
      RowsOfEntry(cfg, m, path, prefix, es[0], |es| == 1) + RowsOfListing(cfg, m, path, prefix, parent, es[1..])
  }

  function RowsOfEntry(cfg: Config, m: Gitignore, path: string, prefix: string, e: Node, last: bool): seq<Row>
    decreases e, 3
  {
    [Row(path, e, prefix, last)]
      + (if e.Dir? then Rows(cfg, m, Join(path, e.name), prefix + Indent(last), e) else [])
  }

  /** The lines depicting the rows, one for one. */
  function Lines(rows: seq<Row>): (r: seq<string>)
    ensures |r| == |rows|
    ensures forall i :: 0 <= i < |rows| ==> r[i] == Line(rows[i])
    decreases |rows|
  {
    if |rows| == 0 then [] else [Line(rows[0])] + Lines(rows[1..])
  }

  lemma {:induction false} LinesAppend(a: seq<Row>, b: seq<Row>)
    ensures Lines(a + b) == Lines(a) + Lines(b)
  {
    assert forall i :: 0 <= i < |a + b| ==> Lines(a + b)[i] == (Lines(a) + Lines(b))[i] by {
      forall i | 0 <= i < |a + b|
        ensures Lines(a + b)[i] == (Lines(a) + Lines(b))[i]
      {
        if i < |a| {
          assert (a + b)[i] == a[i];
        } else {
          assert (a + b)[i] == b[i - |a|];
        }
      }
    }
  }

  // ------------------------------------------------------ the drawing depicts the rows

  lemma {:induction false} AddToStructureRows(cfg: Config, m: Gitignore, path: string, prefix: string, n: Node)
    ensures AddToStructure(cfg, m, path, prefix, n) == Lines(Rows(cfg, m, path, prefix, n))
    decreases n, 2
  {
    ListingRows(cfg, m, path, prefix, n, Listing(cfg, m, path, n));
  }

  lemma {:induction false} ListingRows(cfg: Config, m: Gitignore, path: string, prefix: string, parent: Node, es: seq<Node>)
    requires forall e :: e in es ==> e in Entries(parent)
    ensures DrawListing(cfg, m, path, prefix, parent, es) == Lines(RowsOfListing(cfg, m, path, prefix, parent, es))
    decreases parent, 1, |es|
  {
    if |es| > 0 {
      assert es[0] in Entries(parent);
      EntryRows(cfg, m, path, prefix, es[0], |es| == 1);
      ListingRows(cfg, m, path, prefix, parent, es[1..]);
      LinesAppend(RowsOfEntry(cfg, m, path, prefix, es[0], |es| == 1), RowsOfListing(cfg, m, path, prefix, parent, es[1..]));
    }
  }

  lemma {:induction false} EntryRows(cfg: Config, m: Gitignore, path: string, prefix: string, e: Node, last: bool)
    ensures DrawEntry(cfg, m, path, prefix, e, last) == Lines(RowsOfEntry(cfg, m, path, prefix, e, last))
    decreases e, 3
  {
    var own := Row(path, e, prefix, last);
    if e.Dir? {
      var below := Rows(cfg, m, Join(path, e.name), prefix + Indent(last), e);
      AddToStructureRows(cfg, m, Join(path, e.name), prefix + Indent(last), e);
      LinesAppend([own], below);
    }
  }

  // ------------------------------------------------------ where the rows sit

  /** The number of separators in a path: its depth below ".". */
  function Depth(p: string): nat {
    multiset(p)[Sep]
  }

  lemma JoinDepth(t: string, a: string)
    requires IsDirPath(t) && IsName(a)
    ensures Depth(Join(t, a)) == Depth(t) + 1
  {
    assert multiset(t + [Sep] + a) == multiset(t) + multiset{Sep} + multiset(a);
  }

  /** Every row is an entry that survives the filters of its own directory,
      which is the subtree's directory or lies inside it, and is drawn under
      the prefix of the subtree grown by four characters for each directory
      level between the subtree and the entry. */
  predicate Placed(cfg: Config, m: Gitignore, path: string, prefix: string, r: Row) {
    && Shown(cfg, m, r.dir, r.entry)
    && IsDirPath(r.dir)
    && AtOrBelow(path, r.dir)
    && prefix <= r.prefix
    && |r.prefix| == |prefix| + 4 * (Depth(r.dir) - Depth(path))
  }

  lemma {:induction false} RowsPlaced(cfg: Config, m: Gitignore, path: string, prefix: string, n: Node)
    requires IsDirPath(path) && WellFormed(n)
    ensures forall r :: r in Rows(cfg, m, path, prefix, n) ==> Placed(cfg, m, path, prefix, r)
    decreases n, 2
  {
    ListingPlaced(cfg, m, path, prefix, n, Listing(cfg, m, path, n));
  }

  lemma {:induction false} ListingPlaced(cfg: Config, m: Gitignore, path: string, prefix: string, parent: Node, es: seq<Node>)
    requires IsDirPath(path) && WellFormed(parent)
    requires forall e :: e in es ==> e in Entries(parent) && Shown(cfg, m, path, e)
    ensures forall r :: r in RowsOfListing(cfg, m, path, prefix, parent, es) ==> Placed(cfg, m, path, prefix, r)
    decreases parent, 1, |es|
  {
    if |es| > 0 {
      assert es[0] in Entries(parent);
      EntryPlaced(cfg, m, path, prefix, parent, es[0], |es| == 1);
      ListingPlaced(cfg, m, path, prefix, parent, es[1..]);
    }
  }

  lemma {:induction false} EntryPlaced(cfg: Config, m: Gitignore, path: string, prefix: string, parent: Node, e: Node, last: bool)
    requires IsDirPath(path) && WellFormed(parent)
    requires e in Entries(parent) && Shown(cfg, m, path, e)
    ensures forall r :: r in RowsOfEntry(cfg, m, path, prefix, e, last) ==> Placed(cfg, m, path, prefix, r)
    decreases e, 3
  {
    var own := Row(path, e, prefix, last);
    assert Placed(cfg, m, path, prefix, own);
    if e.Dir? {
      assert IsName(e.name) && WellFormed(e);
      var q := Join(path, e.name);
      var p2 := prefix + Indent(last);
      var below := Rows(cfg, m, q, p2, e);
      RowsPlaced(cfg, m, q, p2, e);
      JoinDepth(path, e.name);
      JoinBelow(path, e.name);
      AllPlacedDeeper(cfg, m, path, prefix, q, p2, below);
      assert RowsOfEntry(cfg, m, path, prefix, e, last) == [own] + below;
    } else {
      assert RowsOfEntry(cfg, m, path, prefix, e, last) == [own];
    }
  }

  /** The rows of a subdirectory's drawing are placed in its parent's. */
  lemma AllPlacedDeeper(cfg: Config, m: Gitignore, path: string, prefix: string, q: string, p2: string, rows: seq<Row>)
    requires Below(path, q) && Depth(q) == Depth(path) + 1 && |p2| == |prefix| + 4 && prefix <= p2
    requires forall r :: r in rows ==> Placed(cfg, m, q, p2, r)
    ensures forall r :: r in rows ==> Placed(cfg, m, path, prefix, r)
  {
    forall r | r in rows
      ensures Placed(cfg, m, path, prefix, r)
    {
      PlacedDeeper(cfg, m, path, prefix, q, p2, r);
    }
  }

  /** A row placed in a subdirectory's drawing is placed in its parent's. */
  lemma PlacedDeeper(cfg: Config, m: Gitignore, path: string, prefix: string, q: string, p2: string, r: Row)
    requires Below(path, q) && Depth(q) == Depth(path) + 1 && |p2| == |prefix| + 4 && prefix <= p2
    requires Placed(cfg, m, q, p2, r)
    ensures Placed(cfg, m, path, prefix, r)
  {
    assert r.prefix[..|prefix|] == p2[..|prefix|];
    if r.dir != q {
      BelowTransitive(path, q, r.dir);
    }
  }

  // ------------------------------------------------------ one row per entry

  /** Two rows depict different entries: they sit in different directories
      or carry different names. */
  predicate Apart(a: Row, b: Row) {
    a.dir != b.dir || a.entry.name != b.entry.name
  }

  /** No entry is depicted by two rows. */
  predicate Unique(rows: seq<Row>) {
    forall i, j :: 0 <= i < j < |rows| ==> Apart(rows[i], rows[j])
  }

  lemma UniqueAppend(a: seq<Row>, b: seq<Row>)
    requires Unique(a) && Unique(b)
    requires forall x, y :: x in a && y in b ==> Apart(x, y)
    ensures Unique(a + b)
  {
    forall i, j | 0 <= i < j < |a + b|
      ensures Apart((a + b)[i], (a + b)[j])
    {
      if j < |a| {
        assert (a + b)[i] == a[i] && (a + b)[j] == a[j];
      } else if i >= |a| {
        assert (a + b)[i] == b[i - |a|] && (a + b)[j] == b[j - |a|];
      } else {
        assert (a + b)[i] == a[i] && (a + b)[j] == b[j - |a|];
      }
    }
  }

  /** A row that belongs to the entry `c` of the directory at `path`: the
      entry's own row, or a row of the drawing of its subtree. */
  predicate Owned(path: string, c: Node, r: Row) {
    (r.dir == path && r.entry == c) || AtOrBelow(path + [Sep] + c.name, r.dir)
  }

  /** Rows that belong to differently named entries of one directory depict
      different entries. */
  lemma OwnersApart(path: string, c1: Node, c2: Node, a: Row, b: Row)
    requires IsName(c1.name) && IsName(c2.name) && c1.name != c2.name
    requires Owned(path, c1, a) && Owned(path, c2, b)
    ensures Apart(a, b)
  {
    if a.dir == b.dir && a.dir != path {
      SiblingsApart(path, c1.name, c2.name, a.dir);
    }
  }

  /** In a real directory tree the drawing of a subtree depicts every entry
      at most once. */
  lemma {:induction false} RowsUnique(cfg: Config, m: Gitignore, path: string, prefix: string, n: Node)
    requires IsDirPath(path) && WellFormed(n)
    ensures Unique(Rows(cfg, m, path, prefix, n))
    decreases n, 2
  {
    ListingDistinct(cfg, m, path, n);
    ListingUnique(cfg, m, path, prefix, n, Listing(cfg, m, path, n));
  }

  lemma {:induction false} ListingUnique(cfg: Config, m: Gitignore, path: string, prefix: string, parent: Node, es: seq<Node>)
    requires IsDirPath(path) && WellFormed(parent) && DistinctNames(es)
    requires forall e :: e in es ==> e in Entries(parent)
    ensures Unique(RowsOfListing(cfg, m, path, prefix, parent, es))
    ensures forall r :: r in RowsOfListing(cfg, m, path, prefix, parent, es) ==> exists c :: c in es && Owned(path, c, r)
    decreases parent, 1, |es|
  {
    if |es| > 0 {
      var c0 := es[0];
      assert c0 in Entries(parent);
      var own := RowsOfEntry(cfg, m, path, prefix, c0, |es| == 1);
      var rest := RowsOfListing(cfg, m, path, prefix, parent, es[1..]);
      EntryUnique(cfg, m, path, prefix, parent, c0, |es| == 1);
      assert DistinctNames(es[1..]);
      ListingUnique(cfg, m, path, prefix, parent, es[1..]);
      forall x, y | x in own && y in rest
        ensures Apart(x, y)
      {
        var c :| c in es[1..] && Owned(path, c, y);
        var k :| 0 <= k < |es[1..]| && es[1..][k] == c;
        assert es[k + 1] == c && c in Entries(parent);
        OwnersApart(path, c0, c, x, y);
      }
      UniqueAppend(own, rest);
      forall r | r in own + rest
        ensures exists c :: c in es && Owned(path, c, r)
      {
        if r in own {
          assert c0 in es;
        } else {
          var c :| c in es[1..] && Owned(path, c, r);
          assert c in es;
        }
      }
    }
  }

  lemma {:induction false} EntryUnique(cfg: Config, m: Gitignore, path: string, prefix: string, parent: Node, e: Node, last: bool)
    requires IsDirPath(path) && WellFormed(parent) && e in Entries(parent)
    ensures Unique(RowsOfEntry(cfg, m, path, prefix, e, last))
    ensures forall r :: r in RowsOfEntry(cfg, m, path, prefix, e, last) ==> Owned(path, e, r)
    decreases e, 3
  {
    var own := Row(path, e, prefix, last);
    if e.Dir? {
      assert IsName(e.name) && WellFormed(e);
      var q := Join(path, e.name);
      var p2 := prefix + Indent(last);
      var below := Rows(cfg, m, q, p2, e);
      RowsUnique(cfg, m, q, p2, e);
      RowsPlaced(cfg, m, q, p2, e);
      forall r | r in below
        ensures Apart(own, r) && Owned(path, e, r)
      {
        assert AtOrBelow(q, r.dir);
      }
      UniqueAppend([own], below);
      assert RowsOfEntry(cfg, m, path, prefix, e, last) == [own] + below;
    } else {
      assert RowsOfEntry(cfg, m, path, prefix, e, last) == [own];
    }
  }

  // ------------------------------------------------------ which entries are depicted

  /** Some row depicts the entry `e` of the directory at `d`. */
  ghost predicate Depicted(rows: seq<Row>, d: string, e: Node) {
    exists r :: r in rows && r.dir == d && r.entry == e
  }

  /** The entry `e` of the directory at `d` lies below `n` (at `top`), every
      directory on the way down is shown, and so is `e`. */
  ghost predicate ShowsEntry(cfg: Config, m: Gitignore, top: string, n: Node, d: string, e: Node)
    decreases n, 1
  {
    n.Dir? && exists c :: c in n.children && Shown(cfg, m, top, c) && ShowsStep(cfg, m, top, c, d, e)
  }

  /** ... where the first step down is the entry `c` of that directory. */
  ghost predicate ShowsStep(cfg: Config, m: Gitignore, top: string, c: Node, d: string, e: Node)
    decreases c, 2
  {
    || (d == top && c == e)
    || (c.Dir? && ShowsEntry(cfg, m, Join(top, c.name), c, d, e))
  }

  lemma DepictedAppend(a: seq<Row>, b: seq<Row>, d: string, e: Node)
    ensures Depicted(a + b, d, e) <==> Depicted(a, d, e) || Depicted(b, d, e)
  {
    if Depicted(a + b, d, e) {
      var r :| r in a + b && r.dir == d && r.entry == e;
      assert r in a || r in b;
    }
    if Depicted(a, d, e) {
      var r :| r in a && r.dir == d && r.entry == e;
      assert r in a + b;
    }
    if Depicted(b, d, e) {
      var r :| r in b && r.dir == d && r.entry == e;
      assert r in a + b;
    }
  }

  /** The drawing shows an entry exactly when it is reached through shown
      directories and is shown itself: nothing named ".git", OUTPUT_FILE,
      SCRIPT_NAME or ".gitignore" and nothing the matcher accepts appears, nor
      anything inside such a directory, and every other entry does. */
  lemma {:induction false} RowsMembership(cfg: Config, m: Gitignore, path: string, prefix: string, n: Node, d: string, e: Node)
    ensures Depicted(Rows(cfg, m, path, prefix, n), d, e) <==> ShowsEntry(cfg, m, path, n, d, e)
    decreases n, 2
  {
    var es := Listing(cfg, m, path, n);
    ListingMembership(cfg, m, path, prefix, n, es, d, e);
    if ShowsEntry(cfg, m, path, n, d, e) {
      var c :| c in n.children && Shown(cfg, m, path, c) && ShowsStep(cfg, m, path, c, d, e);
      assert c in es;
    }
  }

  lemma {:induction false} ListingMembership(cfg: Config, m: Gitignore, path: string, prefix: string, parent: Node, es: seq<Node>, d: string, e: Node)
    requires forall c :: c in es ==> c in Entries(parent)
    ensures Depicted(RowsOfListing(cfg, m, path, prefix, parent, es), d, e) <==>
      exists c :: c in es && ShowsStep(cfg, m, path, c, d, e)
    decreases parent, 1, |es|
  {
    if |es| > 0 {
      var c0 := es[0];
      assert c0 in Entries(parent);
      var own := RowsOfEntry(cfg, m, path, prefix, c0, |es| == 1);
      var rest := RowsOfListing(cfg, m, path, prefix, parent, es[1..]);
      DepictedAppend(own, rest, d, e);
      EntryMembership(cfg, m, path, prefix, c0, |es| == 1, d, e);
      ListingMembership(cfg, m, path, prefix, parent, es[1..], d, e);
      if exists c :: c in es && ShowsStep(cfg, m, path, c, d, e) {
        var c :| c in es && ShowsStep(cfg, m, path, c, d, e);
        assert c == c0 || c in es[1..];
      }
      if exists c :: c in es[1..] && ShowsStep(cfg, m, path, c, d, e) {
        var c :| c in es[1..] && ShowsStep(cfg, m, path, c, d, e);
        assert c in es;
      }
    }
  }

  lemma {:induction false} EntryMembership(cfg: Config, m: Gitignore, path: string, prefix: string, c: Node, last: bool, d: string, e: Node)
    ensures Depicted(RowsOfEntry(cfg, m, path, prefix, c, last), d, e) <==> ShowsStep(cfg, m, path, c, d, e)
    decreases c, 3
  {
    var own := Row(path, c, prefix, last);
    if c.Dir? {
      var below := Rows(cfg, m, Join(path, c.name), prefix + Indent(last), c);
      RowsMembership(cfg, m, Join(path, c.name), prefix + Indent(last), c, d, e);
      DepictedAppend([own], below, d, e);
    }
    if d == path && c == e {
      assert own in RowsOfEntry(cfg, m, path, prefix, c, last);
    }
  }

  // ------------------------------------------------------ the whole section

  /** The folder-structure section: the repository name, then one line per
      depicted entry; the entries depicted are exactly those reached through
      shown directories and shown themselves; each sits under a prefix four
      characters per level below the repository directory. */
  lemma FolderStructureDepicts(cfg: Config, m: Gitignore, root: Node)
    requires WellFormed(root)
    ensures |GetFolderStructure(cfg, m, root)| == 1 + |Rows(cfg, m, RepoDir, "", root)|
    ensures forall i :: 0 <= i < |Rows(cfg, m, RepoDir, "", root)| ==>
      GetFolderStructure(cfg, m, root)[i + 1] == Line(Rows(cfg, m, RepoDir, "", root)[i])
    ensures forall r :: r in Rows(cfg, m, RepoDir, "", root) ==>
      && !HiddenName(cfg, r.entry.name)
      && !Ignored(m, Join(r.dir, r.entry.name))
      && |r.prefix| == 4 * Depth(r.dir)
    ensures Unique(Rows(cfg, m, RepoDir, "", root))
  {
    var rows := Rows(cfg, m, RepoDir, "", root);
    AddToStructureRows(cfg, m, RepoDir, "", root);
    RowsPlaced(cfg, m, RepoDir, "", root);
    RowsUnique(cfg, m, RepoDir, "", root);
    assert Depth(RepoDir) == 0;
    forall i | 0 <= i < |rows|
      ensures GetFolderStructure(cfg, m, root)[i + 1] == Line(rows[i])
    {
      assert GetFolderStructure(cfg, m, root)[1..][i] == Lines(rows)[i];
    }
  }

  /** Every shown entry, and only those, has a row in the section. */
  lemma FolderStructureShows(cfg: Config, m: Gitignore, root: Node, d: string, e: Node)
    ensures Depicted(Rows(cfg, m, RepoDir, "", root), d, e) <==> ShowsEntry(cfg, m, RepoDir, root, d, e)
  {
    RowsMembership(cfg, m, RepoDir, "", root, d, e);
  }
}
