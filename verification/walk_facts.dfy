/**
 * What `get_relevant_files` returns: exactly the included files reachable
 * without passing through a pruned directory, nothing from inside a pruned
 * directory at any depth, and the files of each directory before those of
 * its subdirectories, subtree after subtree in listing order.
 */
module WalkFacts {
  import opened Paths
  import opened FileTree
  import opened Inclusion
  import opened Walker

  /** The file `f` is reached from directory `n` at path `top` by going down
      only through directories the walk keeps. */
  ghost predicate Reaches(m: Gitignore, top: string, n: Node, f: FileRef)
    decreases n, 0
  {
    n.Dir? && exists c :: c in n.children && ReachesVia(m, top, c, f)
  }

  /** ... where the first step is the entry `c` of that directory. */
  ghost predicate ReachesVia(m: Gitignore, top: string, c: Node, f: FileRef)
    decreases c, 1
  {
    || (c.File? && f == RefTo(top, c))
    || (&& c.Dir?
        && c.name != GitDir
        && !Ignored(m, Join(top, c.name))
        && Reaches(m, Join(top, c.name), c, f))
  }

  /** A directory `d` sits at path `path` somewhere below `n` (at path `top`). */
  ghost predicate DirectoryAt(top: string, n: Node, path: string, d: Node)
    decreases n, 0
  {
    n.Dir? && exists c :: c in n.children && DirectoryAtVia(top, c, path, d)
  }

  /** ... where the first step is the entry `c` of that directory. */
  ghost predicate DirectoryAtVia(top: string, c: Node, path: string, d: Node)
    decreases c, 1
  {
    c.Dir? && ((Join(top, c.name) == path && c == d) || DirectoryAt(Join(top, c.name), c, path, d))
  }

  /** One step of the walk of the directory at `top`: the entry `c` is a file
      the walk keeps and `f` is its reference, or `c` is a directory the walk
      descends into and `f` comes out of that descent. */
  ghost predicate FromEntry(cfg: Config, m: Gitignore, top: string, c: Node, f: FileRef) {
    || (c.File? && ShouldInclude(cfg, m, Join(top, c.name)) && f == RefTo(top, c))
    || (&& c.Dir? && c.name != GitDir && !Ignored(m, Join(top, c.name))
        && f in RelevantFiles(cfg, m, Join(top, c.name), c))
  }

  lemma ChildFacts(n: Node, c: Node)
    requires n.Dir? && WellFormed(n) && c in n.children
    ensures IsName(c.name) && WellFormed(c) && Size(c) < Size(n)
  {
    var i := IndexOf(c, n.children);
    SizeOfMember(n.children, i);
  }

  /** The walk of a list of subdirectories holds exactly the walks of its
      members. */
  lemma {:induction false} BelowMembership(cfg: Config, m: Gitignore, top: string, dirs: seq<Node>, f: FileRef)
    ensures f in RelevantFilesBelow(cfg, m, top, dirs) <==>
      exists d :: d in dirs && f in RelevantFiles(cfg, m, Join(top, d.name), d)
    decreases |dirs|
  {
    if |dirs| > 0 {
      var d0 := dirs[0];
      var rest := dirs[1..];
      assert dirs == [d0] + rest;
      assert RelevantFilesBelow(cfg, m, top, dirs) ==
        RelevantFiles(cfg, m, Join(top, d0.name), d0) + RelevantFilesBelow(cfg, m, top, rest);
      BelowMembership(cfg, m, top, rest, f);
      if f in RelevantFilesBelow(cfg, m, top, dirs) && f !in RelevantFiles(cfg, m, Join(top, d0.name), d0) {
        var d :| d in rest && f in RelevantFiles(cfg, m, Join(top, d.name), d);
        assert d in dirs;
      }
      if exists d :: d in dirs && f in RelevantFiles(cfg, m, Join(top, d.name), d) {
        var d :| d in dirs && f in RelevantFiles(cfg, m, Join(top, d.name), d);
        assert d == d0 || d in rest;
      }
    }
  }

  /** Every file the walk of a directory returns comes from one of its entries. */
  lemma WalkCases(cfg: Config, m: Gitignore, top: string, n: Node, f: FileRef)
    requires n.Dir? && DistinctNames(n.children)
    requires f in RelevantFiles(cfg, m, top, n)
    ensures exists c :: c in n.children && FromEntry(cfg, m, top, c, f)
  {
    var ch := n.children;
    var files := KeptFiles(cfg, m, top, ch);
    var dirs := KeptDirs(m, top, ch);
    var here := Refs(top, files);
    assert RelevantFiles(cfg, m, top, n) == here + RelevantFilesBelow(cfg, m, top, dirs);
    if f in here {
      var k := IndexOf(f, here);
      assert files[k] in files;
      assert FromEntry(cfg, m, top, files[k], f);
    } else {
      BelowMembership(cfg, m, top, dirs, f);
      var d :| d in dirs && f in RelevantFiles(cfg, m, Join(top, d.name), d);
      assert FromEntry(cfg, m, top, d, f);
    }
  }

  /** ... and every file one of its entries contributes is returned. */
  lemma WalkComplete(cfg: Config, m: Gitignore, top: string, n: Node, c: Node, f: FileRef)
    requires n.Dir? && DistinctNames(n.children)
    requires c in n.children && FromEntry(cfg, m, top, c, f)
    ensures f in RelevantFiles(cfg, m, top, n)
  {
    var ch := n.children;
    var files := KeptFiles(cfg, m, top, ch);
    var dirs := KeptDirs(m, top, ch);
    var here := Refs(top, files);
    assert RelevantFiles(cfg, m, top, n) == here + RelevantFilesBelow(cfg, m, top, dirs);
    if c.File? {
      var k := IndexOf(c, files);
      assert here[k] == f;
    } else {
      assert c in dirs;
      BelowMembership(cfg, m, top, dirs, f);
    }
  }

  /** Every path the walk of a directory returns lies inside that directory. */
  lemma {:induction false} RelevantFilesInside(cfg: Config, m: Gitignore, top: string, n: Node)
    requires IsDirPath(top) && WellFormed(n)
    ensures forall f :: f in RelevantFiles(cfg, m, top, n) ==> Below(top, f.path)
    decreases Size(n)
  {
    forall f | f in RelevantFiles(cfg, m, top, n)
      ensures Below(top, f.path)
    {
      WalkCases(cfg, m, top, n, f);
      var c :| c in n.children && FromEntry(cfg, m, top, c, f);
      ChildFacts(n, c);
      JoinBelow(top, c.name);
      if c.Dir? {
        RelevantFilesInside(cfg, m, Join(top, c.name), c);
        BelowTransitive(top, Join(top, c.name), f.path);
      }
    }
  }

  /** Membership: a file is returned exactly when it is reached through kept
      directories and `should_include_file` accepts its path. */
  lemma {:induction false} RelevantFilesMembership(cfg: Config, m: Gitignore, top: string, n: Node, f: FileRef)
    requires WellFormed(n)
    ensures f in RelevantFiles(cfg, m, top, n) <==> Reaches(m, top, n, f) && ShouldInclude(cfg, m, f.path)
    decreases Size(n)
  {
    if f in RelevantFiles(cfg, m, top, n) {
      WalkCases(cfg, m, top, n, f);
      var c :| c in n.children && FromEntry(cfg, m, top, c, f);
      ChildFacts(n, c);
      if c.Dir? {
        RelevantFilesMembership(cfg, m, Join(top, c.name), c, f);
      }
      assert ReachesVia(m, top, c, f);
    }
    if Reaches(m, top, n, f) && ShouldInclude(cfg, m, f.path) {
      var c :| c in n.children && ReachesVia(m, top, c, f);
      ChildFacts(n, c);
      if c.Dir? {
        RelevantFilesMembership(cfg, m, Join(top, c.name), c, f);
      }
      assert FromEntry(cfg, m, top, c, f);
      WalkComplete(cfg, m, top, n, c, f);
    }
  }

  /** A directory found below `n` has a path inside `n`'s path. */
  lemma {:induction false} DirectoryAtInside(top: string, n: Node, path: string, d: Node)
    requires IsDirPath(top) && WellFormed(n) && DirectoryAt(top, n, path, d)
    ensures Below(top, path)
    decreases n
  {
    var c :| c in n.children && DirectoryAtVia(top, c, path, d);
    ChildFacts(n, c);
    var q := Join(top, c.name);
    JoinBelow(top, c.name);
    if !(q == path && c == d) {
      DirectoryAtInside(q, c, path, d);
      BelowTransitive(top, q, path);
    }
  }

  /** The entry of `n` through which the directory at `path` is found:
      whatever lies inside `path` lies inside that entry's path. */
  lemma EntryTowards(top: string, n: Node, path: string, d: Node) returns (c: Node)
    requires IsDirPath(top) && WellFormed(n) && DirectoryAt(top, n, path, d)
    ensures c in n.children && DirectoryAtVia(top, c, path, d)
    ensures forall p :: Below(path, p) ==> Below(Join(top, c.name), p)
  {
    c :| c in n.children && DirectoryAtVia(top, c, path, d);
    ChildFacts(n, c);
    var q := Join(top, c.name);
    if !(q == path && c == d) {
      DirectoryAtInside(q, c, path, d);
      forall p | Below(path, p)
        ensures Below(q, p)
      {
        BelowTransitive(q, path, p);
      }
    }
  }

  /** Pruning: no returned path lies inside a directory named ".git" or a
      directory whose joined path the matcher accepts, at any depth. */
  lemma {:induction false} RelevantFilesAvoidPruned(cfg: Config, m: Gitignore, top: string, n: Node, path: string, d: Node)
    requires IsDirPath(top) && WellFormed(n)
    requires DirectoryAt(top, n, path, d)
    requires d.name == GitDir || Ignored(m, path)
    ensures forall f :: f in RelevantFiles(cfg, m, top, n) ==> !Below(path, f.path)
    decreases Size(n)
  {
    var c0 := EntryTowards(top, n, path, d);
    ChildFacts(n, c0);
    var q := Join(top, c0.name);
    assert q == top + [Sep] + c0.name;
    forall f | f in RelevantFiles(cfg, m, top, n)
      ensures !Below(path, f.path)
    {
      WalkCases(cfg, m, top, n, f);
      var c :| c in n.children && FromEntry(cfg, m, top, c, f);
      ChildFacts(n, c);
      if c.File? {
        NameNotBelow(top, c0.name, c.name);
      } else if Below(q, f.path) {
        RelevantFilesInside(cfg, m, Join(top, c.name), c);
        BelowSameName(top, c.name, c0.name, f.path);
        SameNameSameEntry(n.children, c, c0);
        if q != path || c0 != d {
          RelevantFilesAvoidPruned(cfg, m, q, c0, path, d);
        }
      }
    }
  }
}
