/**
 * The order of `get_relevant_files`: `os.walk` is top-down, so the files
 * directly in a directory come before everything found in its
 * subdirectories, and the subdirectories are walked one whole subtree after
 * another, in the order the pruned `dirs` list keeps them.
 */
module WalkOrder {
  import opened Paths
  import opened FileTree
  import opened Inclusion
  import opened Walker
  import opened WalkFacts

  /** The subdirectories a walk descends into all have proper, distinct names
      and are well formed. */
  predicate WalkableDirs(dirs: seq<Node>) {
    && DistinctNames(dirs)
    && forall d :: d in dirs ==> IsName(d.name) && WellFormed(d)
  }

  lemma KeptDirsWalkable(m: Gitignore, top: string, n: Node)
    requires n.Dir? && WellFormed(n)
    ensures WalkableDirs(KeptDirs(m, top, n.children))
  {
    var dirs := KeptDirs(m, top, n.children);
    SubsequenceDistinct(dirs, n.children);
    SubsequenceMembers(dirs, n.children);
  }

  /** Inside two entries of one directory at once means they are the same. */
  lemma UniqueSubtree(top: string, dirs: seq<Node>, p: string, a: int, b: int)
    requires IsDirPath(top) && WalkableDirs(dirs)
    requires 0 <= a < |dirs| && 0 <= b < |dirs|
    requires Below(Join(top, dirs[a].name), p) && Below(Join(top, dirs[b].name), p)
    ensures a == b
  {
    assert dirs[a] in dirs && dirs[b] in dirs;
    BelowSameName(top, dirs[a].name, dirs[b].name, p);
  }

  // ------------------------------------------------- walks as blocks

  /** The blocks of a sequence laid end to end. */
  function Flatten(bs: seq<seq<FileRef>>): (r: seq<FileRef>)
    ensures |bs| > 0 ==> r == bs[0] + Flatten(bs[1..])
    decreases |bs|
  {
    if |bs| == 0 then [] else bs[0] + Flatten(bs[1..])
  }

  /** Every file of block `k` lies inside the directory `tags[k]`. */
  predicate Tagged(bs: seq<seq<FileRef>>, tags: seq<string>) {
    && |bs| == |tags|
    && forall k, i :: 0 <= k < |bs| && 0 <= i < |bs[k]| ==> Below(tags[k], bs[k][i].path)
  }

  /** No path lies inside two of the directories. */
  ghost predicate Exclusive(tags: seq<string>) {
    forall k, l, p :: 0 <= k < |tags| && 0 <= l < |tags| && k != l && Below(tags[k], p) ==> !Below(tags[l], p)
  }

  /** Where block `k` starts in the flattened blocks. */
  function Start(bs: seq<seq<FileRef>>, k: nat): nat
    requires k <= |bs|
    decreases k
  {
    if k == 0 then 0 else |bs[0]| + Start(bs[1..], k - 1)
  }

  /** A later block starts past the end of an earlier one. */
  lemma {:induction false} StartsGrow(bs: seq<seq<FileRef>>, a: nat, b: nat)
    requires a < b <= |bs|
    ensures Start(bs, a) + |bs[a]| <= Start(bs, b)
    decreases a
  {
    if a > 0 {
      assert bs[1..][a - 1] == bs[a];
      StartsGrow(bs[1..], a - 1, b - 1);
    }
  }

  /** Every element of the flattened blocks is one of some block, at its
      offset from that block's start. */
  lemma {:induction false} Locate(bs: seq<seq<FileRef>>, z: int) returns (k: int, i: int)
    requires 0 <= z < |Flatten(bs)|
    ensures 0 <= k < |bs| && 0 <= i < |bs[k]| && Flatten(bs)[z] == bs[k][i]
    ensures z == Start(bs, k) + i
    decreases |bs|
  {
    if z < |bs[0]| {
      k, i := 0, z;
    } else {
      var k', i' := Locate(bs[1..], z - |bs[0]|);
      k, i := k' + 1, i';
    }
  }

  /** A file inside the directory of block `a` comes from block `a`. */
  lemma InBlock(bs: seq<seq<FileRef>>, tags: seq<string>, a: int, z: int) returns (i: int)
    requires Tagged(bs, tags) && Exclusive(tags)
    requires 0 <= a < |bs| && 0 <= z < |Flatten(bs)|
    requires Below(tags[a], Flatten(bs)[z].path)
    ensures 0 <= i < |bs[a]| && z == Start(bs, a) + i
  {
    var k;
    k, i := Locate(bs, z);
    assert Below(tags[k], bs[k][i].path);
  }

  /** Blocks tagged with exclusive directories keep their order: a file inside
      an earlier block's directory precedes one inside a later block's. */
  lemma BlocksInOrder(bs: seq<seq<FileRef>>, tags: seq<string>, a: int, b: int, x: int, y: int)
    requires Tagged(bs, tags) && Exclusive(tags)
    requires 0 <= a < b < |bs|
    requires 0 <= x < |Flatten(bs)| && 0 <= y < |Flatten(bs)|
    requires Below(tags[a], Flatten(bs)[x].path) && Below(tags[b], Flatten(bs)[y].path)
    ensures x < y
  {
    var ix := InBlock(bs, tags, a, x);
    var iy := InBlock(bs, tags, b, y);
    StartsGrow(bs, a, b);
  }

  /** The walks of the subdirectories, one block each. */
  function Walks(cfg: Config, m: Gitignore, top: string, dirs: seq<Node>): (r: seq<seq<FileRef>>)
    ensures |r| == |dirs|
    ensures forall k :: 0 <= k < |dirs| ==> r[k] == RelevantFiles(cfg, m, Join(top, dirs[k].name), dirs[k])
    ensures Flatten(r) == RelevantFilesBelow(cfg, m, top, dirs)
    decreases |dirs|
  {
    if |dirs| == 0 then []
    else
      var rest := Walks(cfg, m, top, dirs[1..]);
      var r := [RelevantFiles(cfg, m, Join(top, dirs[0].name), dirs[0])] + rest;
      assert r[1..] == rest;
      r
  }

  /** The paths of the subdirectories. */
  function DirPaths(top: string, dirs: seq<Node>): (r: seq<string>)
    ensures |r| == |dirs| && forall k :: 0 <= k < |dirs| ==> r[k] == Join(top, dirs[k].name)
  {
    seq(|dirs|, k requires 0 <= k < |dirs| => Join(top, dirs[k].name))
  }

  /** Every file the walk of `dirs` returns lies inside one of them. */
  lemma SubtreeOf(cfg: Config, m: Gitignore, top: string, dirs: seq<Node>, z: int) returns (k: int)
    requires IsDirPath(top) && WalkableDirs(dirs)
    requires 0 <= z < |RelevantFilesBelow(cfg, m, top, dirs)|
    ensures 0 <= k < |dirs|
    ensures Below(Join(top, dirs[k].name), RelevantFilesBelow(cfg, m, top, dirs)[z].path)
  {
    var f := RelevantFilesBelow(cfg, m, top, dirs)[z];
    BelowMembership(cfg, m, top, dirs, f);
    var d :| d in dirs && f in RelevantFiles(cfg, m, Join(top, d.name), d);
    k := IndexOf(d, dirs);
    RelevantFilesInside(cfg, m, Join(top, d.name), d);
  }

  /** Subtree after subtree: a file inside an earlier subdirectory comes before
      a file inside a later one. */
  lemma SubtreesInOrder(cfg: Config, m: Gitignore, top: string, dirs: seq<Node>, below: seq<FileRef>, a: int, b: int, x: int, y: int)
    requires IsDirPath(top) && WalkableDirs(dirs)
    requires below == RelevantFilesBelow(cfg, m, top, dirs)
    requires 0 <= a < b < |dirs|
    requires 0 <= x < |below| && 0 <= y < |below|
    requires Below(Join(top, dirs[a].name), below[x].path)
    requires Below(Join(top, dirs[b].name), below[y].path)
    ensures x < y
  {
    var bs := Walks(cfg, m, top, dirs);
    var tags := DirPaths(top, dirs);
    WalksTagged(cfg, m, top, dirs);
    PathsExclusive(top, dirs);
    BlocksInOrder(bs, tags, a, b, x, y);
  }

  /** The walk of each subdirectory stays inside it. */
  lemma WalksTagged(cfg: Config, m: Gitignore, top: string, dirs: seq<Node>)
    requires WalkableDirs(dirs)
    ensures Tagged(Walks(cfg, m, top, dirs), DirPaths(top, dirs))
  {
    var bs: seq<seq<FileRef>> := Walks(cfg, m, top, dirs);
    var tags := DirPaths(top, dirs);
    forall k: int, i: int | 0 <= k < |bs| && 0 <= i < |bs[k]|
      ensures Below(tags[k], bs[k][i].path)
    {
      assert dirs[k] in dirs;
      RelevantFilesInside(cfg, m, tags[k], dirs[k]);
      assert bs[k][i] in bs[k];
    }
  }

  /** Distinct subdirectories have disjoint insides. */
  lemma PathsExclusive(top: string, dirs: seq<Node>)
    requires IsDirPath(top) && WalkableDirs(dirs)
    ensures Exclusive(DirPaths(top, dirs))
  {
    var tags := DirPaths(top, dirs);
    forall k, l, p | 0 <= k < |tags| && 0 <= l < |tags| && k != l && Below(tags[k], p)
      ensures !Below(tags[l], p)
    {
      if Below(tags[l], p) {
        UniqueSubtree(top, dirs, p, k, l);
      }
    }
  }

  /** A path inside a subdirectory of `top` is not directly in `top`. */
  lemma InsideSubdirNotDirect(top: string, name: string, p: string)
    requires IsDirPath(top) && IsName(name) && Below(Join(top, name), p)
    ensures !DirectlyIn(top, p)
  {
    assert Below(top + [Sep] + name, p);
    assert p[|top| + 1 + |name|] == Sep;
    assert p[|top| + 1..][|name|] == Sep;
  }

  /** The walk of a directory starts with its own kept files ... */
  lemma HereDirect(cfg: Config, m: Gitignore, top: string, n: Node, z: int)
    requires n.Dir? && IsDirPath(top) && WellFormed(n)
    requires 0 <= z < |Refs(top, KeptFiles(cfg, m, top, n.children))|
    ensures DirectlyIn(top, RelevantFiles(cfg, m, top, n)[z].path)
  {
    var files := KeptFiles(cfg, m, top, n.children);
    var here := Refs(top, files);
    assert RelevantFiles(cfg, m, top, n)[z] == here[z];
    assert files[z] in files;
    ChildFacts(n, files[z]);
    JoinDirectlyIn(top, files[z].name);
  }

  /** ... and continues with the walks of its kept subdirectories. */
  lemma DeeperWalk(cfg: Config, m: Gitignore, top: string, n: Node, z: int) returns (k: int)
    requires n.Dir?
    requires |Refs(top, KeptFiles(cfg, m, top, n.children))| <= z < |RelevantFiles(cfg, m, top, n)|
    ensures 0 <= k < |RelevantFilesBelow(cfg, m, top, KeptDirs(m, top, n.children))|
    ensures |Refs(top, KeptFiles(cfg, m, top, n.children))| + k == z
    ensures RelevantFiles(cfg, m, top, n)[z] == RelevantFilesBelow(cfg, m, top, KeptDirs(m, top, n.children))[k]
  {
    k := z - |Refs(top, KeptFiles(cfg, m, top, n.children))|;
  }

  /** A file of the walk is directly in the directory exactly when it is one
      of the directory's own kept files, which the walk lists first. */
  lemma DirectExactlyHere(cfg: Config, m: Gitignore, top: string, n: Node, z: int)
    requires n.Dir? && IsDirPath(top) && WellFormed(n)
    requires 0 <= z < |RelevantFiles(cfg, m, top, n)|
    ensures z < |Refs(top, KeptFiles(cfg, m, top, n.children))| <==>
      DirectlyIn(top, RelevantFiles(cfg, m, top, n)[z].path)
  {
    var h := |Refs(top, KeptFiles(cfg, m, top, n.children))|;
    if z < h {
      HereDirect(cfg, m, top, n, z);
    } else {
      var dirs := KeptDirs(m, top, n.children);
      var j := DeeperWalk(cfg, m, top, n, z);
      KeptDirsWalkable(m, top, n);
      var k := SubtreeOf(cfg, m, top, dirs, j);
      assert dirs[k] in dirs;
      InsideSubdirNotDirect(top, dirs[k].name, RelevantFilesBelow(cfg, m, top, dirs)[j].path);
    }
  }

  /** Top-down: in the walk of a directory, the files directly in it come
      before every file found in a subdirectory. */
  lemma DirectFilesFirst(cfg: Config, m: Gitignore, top: string, n: Node, x: int, y: int)
    requires n.Dir? && IsDirPath(top) && WellFormed(n)
    requires 0 <= x < |RelevantFiles(cfg, m, top, n)| && 0 <= y < |RelevantFiles(cfg, m, top, n)|
    requires DirectlyIn(top, RelevantFiles(cfg, m, top, n)[x].path)
    requires !DirectlyIn(top, RelevantFiles(cfg, m, top, n)[y].path)
    ensures x < y
  {
    DirectExactlyHere(cfg, m, top, n, x);
    DirectExactlyHere(cfg, m, top, n, y);
  }

  /** A file inside a kept subdirectory sits in the walk past the
      directory's own files: it is the file at position `k` of the walks of
      the subdirectories, which follow those files. */
  lemma InSubdirIsDeeper(cfg: Config, m: Gitignore, top: string, n: Node, a: int, z: int) returns (k: int)
    requires n.Dir? && IsDirPath(top) && WellFormed(n)
    requires 0 <= a < |KeptDirs(m, top, n.children)|
    requires 0 <= z < |RelevantFiles(cfg, m, top, n)|
    requires Below(Join(top, KeptDirs(m, top, n.children)[a].name), RelevantFiles(cfg, m, top, n)[z].path)
    ensures 0 <= k < |RelevantFilesBelow(cfg, m, top, KeptDirs(m, top, n.children))|
    ensures |Refs(top, KeptFiles(cfg, m, top, n.children))| + k == z
    ensures RelevantFiles(cfg, m, top, n)[z] == RelevantFilesBelow(cfg, m, top, KeptDirs(m, top, n.children))[k]
  {
    var dirs := KeptDirs(m, top, n.children);
    KeptDirsWalkable(m, top, n);
    assert dirs[a] in dirs;
    InsideSubdirNotDirect(top, dirs[a].name, RelevantFiles(cfg, m, top, n)[z].path);
    DirectExactlyHere(cfg, m, top, n, z);
    k := DeeperWalk(cfg, m, top, n, z);
  }

  /** ... and the kept subdirectories are walked whole, one after another, in
      the order the pruned `dirs` list holds them. */
  lemma SubdirectoriesInOrder(cfg: Config, m: Gitignore, top: string, n: Node, a: int, b: int, x: int, y: int)
    requires n.Dir? && IsDirPath(top) && WellFormed(n)
    requires 0 <= a < b < |KeptDirs(m, top, n.children)|
    requires 0 <= x < |RelevantFiles(cfg, m, top, n)| && 0 <= y < |RelevantFiles(cfg, m, top, n)|
    requires Below(Join(top, KeptDirs(m, top, n.children)[a].name), RelevantFiles(cfg, m, top, n)[x].path)
    requires Below(Join(top, KeptDirs(m, top, n.children)[b].name), RelevantFiles(cfg, m, top, n)[y].path)
    ensures x < y
  {
    var dirs := KeptDirs(m, top, n.children);
    var below := RelevantFilesBelow(cfg, m, top, dirs);
    var k := InSubdirIsDeeper(cfg, m, top, n, a, x);
    var l := InSubdirIsDeeper(cfg, m, top, n, b, y);
    KeptDirsWalkable(m, top, n);
    assert Below(Join(top, dirs[a].name), below[k].path);
    assert Below(Join(top, dirs[b].name), below[l].path);
    SubtreesInOrder(cfg, m, top, dirs, below, a, b, k, l);
  }
}
