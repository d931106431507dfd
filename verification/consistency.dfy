/**
 * How the folder-structure drawing and the walk that feeds the index and
 * the contents relate. Every file the drawing shows is walked. The converse
 * fails: the walk compares the output file's name with a whole joined path,
 * so that test never fires, and it keeps a file named like the output file
 * (or named ".git") that the drawing hides. Likewise a directory named
 * SCRIPT_NAME, ".gitignore" or like the output file is descended into by the
 * walk, which prunes only ".git" and matched directories, while the drawing
 * hides it together with everything inside it.
 */
module Consistency {
  import opened Paths
  import opened FileTree
  import opened Inclusion
  import opened Walker
  import opened WalkFacts
  import opened FolderStructure
  import opened StructureRows

  /** A joined entry name is again a path a walk can stand on. */
  lemma JoinDirPath(top: string, name: string)
    requires IsDirPath(top) && IsName(name)
    ensures IsDirPath(Join(top, name))
  {
    assert Join(top, name)[|Join(top, name)| - 1] == name[|name| - 1];
  }

  /** A file the drawing shows below `n` (at `top`) is one the walk of `n`
      returns: every directory the drawing descends into is one the walk
      keeps, and a file the drawing shows passes `should_include_file`. */
  lemma {:induction false} ShownFileWalked(cfg: Config, m: Gitignore, top: string, n: Node, d: string, e: Node)
    requires IsDirPath(top) && WellFormed(n) && Sep !in cfg.repoName
    requires e.File? && ShowsEntry(cfg, m, top, n, d, e)
    ensures RefTo(d, e) in RelevantFiles(cfg, m, top, n)
    decreases n
  {
    var c :| c in n.children && Shown(cfg, m, top, c) && ShowsStep(cfg, m, top, c, d, e);
    ChildFacts(n, c);
    if d == top && c == e {
      OutputTestNeverFires(cfg, m, top, c.name);
      assert FromEntry(cfg, m, top, c, RefTo(d, e));
    } else {
      var below := Join(top, c.name);
      JoinDirPath(top, c.name);
      ShownFileWalked(cfg, m, below, c, d, e);
      assert FromEntry(cfg, m, top, c, RefTo(d, e));
    }
    WalkComplete(cfg, m, top, n, c, RefTo(d, e));
  }

  /** Every file row of the "Folder Structure" section names a file of the
      "File Index" walk, at the same path. */
  lemma DrawnFilesAreWalked(cfg: Config, m: Gitignore, root: Node, d: string, e: Node)
    requires WellFormed(root) && Sep !in cfg.repoName
    requires e.File? && Depicted(Rows(cfg, m, RepoDir, "", root), d, e)
    ensures RefTo(d, e) in RelevantFiles(cfg, m, RepoDir, root)
  {
    FolderStructureShows(cfg, m, root, d, e);
    ShownFileWalked(cfg, m, RepoDir, root, d, e);
  }

  /** A directory without kept subdirectories: the walk is its kept files. */
  lemma OnlyFiles(cfg: Config, m: Gitignore, top: string, n: Node)
    requires n.Dir? && KeptDirs(m, top, n.children) == []
    ensures RelevantFiles(cfg, m, top, n) == Refs(top, KeptFiles(cfg, m, top, n.children))
  {
    assert RelevantFilesBelow(cfg, m, top, []) == [];
  }

  /** With nothing shown at the top, the drawing is the repository line. */
  lemma NothingDrawn(cfg: Config, m: Gitignore, root: Node)
    requires Listing(cfg, m, RepoDir, root) == []
    ensures GetFolderStructure(cfg, m, root) == [cfg.repoName + "/"]
  {
    assert AddToStructure(cfg, m, RepoDir, "", root) == [];
  }

  /** The converse fails. When the top directory holds only a file named
      OUTPUT_FILE (the report of an earlier run, or the one being written),
      which is neither SCRIPT_NAME nor ".gitignore" and which the matcher
      does not accept, the walk returns it while the drawing stops at its
      first line. */
  lemma OutputFileWalkedNotDrawn(cfg: Config, m: Gitignore, root: Node, report: Node)
    requires IsName(cfg.OutputFile()) && Sep !in cfg.repoName
    requires cfg.OutputFile() != cfg.scriptName && cfg.OutputFile() != GitignoreFilename
    requires report.File? && report.name == cfg.OutputFile() && !Ignored(m, Join(RepoDir, report.name))
    requires root.Dir? && root.children == [report]
    ensures RelevantFiles(cfg, m, RepoDir, root) == [RefTo(RepoDir, report)]
    ensures GetFolderStructure(cfg, m, root) == [cfg.repoName + "/"]
  {
    OutputTestNeverFires(cfg, m, RepoDir, report.name);
    SingleFileWalked(cfg, m, root, report);
    assert !Shown(cfg, m, RepoDir, report);
    assert Listing(cfg, m, RepoDir, root) == [];
    NothingDrawn(cfg, m, root);
  }

  /** The same for a file named ".git": the walk prunes only a directory of
      that name, the drawing hides any entry of that name. */
  lemma GitFileWalkedNotDrawn(cfg: Config, m: Gitignore, root: Node, git: Node)
    requires Sep !in cfg.repoName && cfg.scriptName != GitDir
    requires git.File? && git.name == GitDir && !Ignored(m, Join(RepoDir, git.name))
    requires root.Dir? && root.children == [git]
    ensures RelevantFiles(cfg, m, RepoDir, root) == [RefTo(RepoDir, git)]
    ensures GetFolderStructure(cfg, m, root) == [cfg.repoName + "/"]
  {
    OutputTestNeverFires(cfg, m, RepoDir, git.name);
    SingleFileWalked(cfg, m, root, git);
    assert !Shown(cfg, m, RepoDir, git);
    assert Listing(cfg, m, RepoDir, root) == [];
    NothingDrawn(cfg, m, root);
  }

  /** A top directory holding one file the walk includes. */
  lemma SingleFileWalked(cfg: Config, m: Gitignore, root: Node, f: Node)
    requires f.File? && ShouldInclude(cfg, m, Join(RepoDir, f.name))
    requires root.Dir? && root.children == [f]
    ensures RelevantFiles(cfg, m, RepoDir, root) == [RefTo(RepoDir, f)]
  {
    assert KeptFiles(cfg, m, RepoDir, root.children) == [f];
    assert KeptDirs(m, RepoDir, root.children) == [];
    OnlyFiles(cfg, m, RepoDir, root);
    assert Refs(RepoDir, [f]) == [RefTo(RepoDir, f)];
  }
}
