/**
 * The shape of the folder-structure drawing: every line of a subtree's
 * drawing starts with the subtree's prefix and a four-character block; the
 * lines that carry a connector right after the prefix are exactly the
 * subtree's listing, in sorted order, with the corner on the last entry only.
 */
module StructureFacts {
  import opened Paths
  import opened FileTree
  import opened Inclusion
  import opened FolderStructure

  /** The line `l` belongs to a drawing under `prefix`: it starts with the
      prefix, then a connector or an indentation block. */
  predicate Under(prefix: string, l: string) {
    && |prefix| + 4 <= |l|
    && l[..|prefix|] == prefix
    && (|| l[|prefix|..|prefix| + 4] == Tee
        || l[|prefix|..|prefix| + 4] == Corner
        || l[|prefix|..|prefix| + 4] == Pipe
        || l[|prefix|..|prefix| + 4] == Blank)
  }

  /** The line `l` shows an entry of the level whose prefix is `k` long: a
      connector follows at column `k`. */
  predicate IsHead(l: string, k: nat) {
    |l| >= k + 4 && (l[k..k + 4] == Tee || l[k..k + 4] == Corner)
  }

  /** The lines of one level of a drawing, in order. */
  function Heads(lines: seq<string>, k: nat): (r: seq<string>)
    ensures forall l :: l in r <==> l in lines && IsHead(l, k)
    decreases |lines|
  {
    if |lines| == 0 then []
    else
      assert lines == [lines[0]] + lines[1..];
      (if IsHead(lines[0], k) then [lines[0]] else []) + Heads(lines[1..], k)
  }

  /** The lines the listing `es` gets at its own level: entry `i` with the
      corner exactly when it is the last. */
  function Marked(prefix: string, es: seq<Node>): (r: seq<string>)
    ensures |r| == |es|
    ensures forall i :: 0 <= i < |es| ==> r[i] == EntryLine(prefix, i == |es| - 1, es[i])
    decreases |es|
  {
    if |es| == 0 then [] else [EntryLine(prefix, |es| == 1, es[0])] + Marked(prefix, es[1..])
  }

  lemma {:induction false} HeadsAppend(a: seq<string>, b: seq<string>, k: nat)
    ensures Heads(a + b, k) == Heads(a, k) + Heads(b, k)
    decreases |a|
  {
    if |a| == 0 {
      assert a + b == b;
    } else {
      assert (a + b)[0] == a[0];
      assert (a + b)[1..] == a[1..] + b;
      HeadsAppend(a[1..], b, k);
    }
  }

  /** A line under a grown prefix is not a line of the level above it. */
  lemma DeeperNotHead(prefix: string, last: bool, l: string)
    requires Under(prefix + Indent(last), l)
    ensures l[..|prefix|] == prefix && !IsHead(l, |prefix|)
  {
    var p2 := prefix + Indent(last);
    assert l[..|p2|][..|prefix|] == prefix;
    assert l[|prefix|..|prefix| + 4] == l[..|p2|][|prefix|..] == Indent(last);
    assert Pipe[0] != Tee[0] && Pipe[0] != Corner[0];
    assert Blank[0] != Tee[0] && Blank[0] != Corner[0];
  }

  // ------------------------------------------------------ every line is under the prefix

  lemma {:induction false} AddToStructureUnder(cfg: Config, m: Gitignore, path: string, prefix: string, n: Node)
    ensures forall l :: l in AddToStructure(cfg, m, path, prefix, n) ==> Under(prefix, l)
    decreases n, 2
  {
    DrawListingUnder(cfg, m, path, prefix, n, Listing(cfg, m, path, n));
  }

  lemma {:induction false} DrawListingUnder(cfg: Config, m: Gitignore, path: string, prefix: string, parent: Node, es: seq<Node>)
    requires forall e :: e in es ==> e in Entries(parent)
    ensures forall l :: l in DrawListing(cfg, m, path, prefix, parent, es) ==> Under(prefix, l)
    decreases parent, 1, |es|
  {
    if |es| > 0 {
      assert es[0] in Entries(parent);
      DrawEntryUnder(cfg, m, path, prefix, es[0], |es| == 1);
      DrawListingUnder(cfg, m, path, prefix, parent, es[1..]);
    }
  }

  lemma {:induction false} DrawEntryUnder(cfg: Config, m: Gitignore, path: string, prefix: string, e: Node, last: bool)
    ensures forall l :: l in DrawEntry(cfg, m, path, prefix, e, last) ==> Under(prefix, l)
    decreases e, 3
  {
    if e.Dir? {
      var p2 := prefix + Indent(last);
      AddToStructureUnder(cfg, m, Join(path, e.name), p2, e);
      forall l | l in AddToStructure(cfg, m, Join(path, e.name), p2, e)
        ensures Under(prefix, l)
      {
        DeeperNotHead(prefix, last, l);
        assert l[|prefix|..|prefix| + 4] == l[..|p2|][|prefix|..];
      }
    }
  }

  /** Below a directory's line, its whole drawing is indented under the
      directory's own prefix by one block: four blanks when the directory's
      line carries the corner, a vertical bar while entries of its level
      follow. */
  lemma SubtreeIndent(cfg: Config, m: Gitignore, path: string, prefix: string, e: Node, last: bool)
    requires e.Dir?
    ensures var lines := DrawEntry(cfg, m, path, prefix, e, last);
      && lines[0] == EntryLine(prefix, last, e)
      && forall l :: l in lines[1..] ==>
        && |prefix| + 4 <= |l|
        && l[..|prefix| + 4] == prefix + Indent(last)
        && (l[|prefix|..|prefix| + 4] == Blank <==> lines[0][|prefix|..|prefix| + 4] == Corner)
        && (l[|prefix|..|prefix| + 4] == Pipe <==> lines[0][|prefix|..|prefix| + 4] == Tee)
  {
    var p2 := prefix + Indent(last);
    var lines := DrawEntry(cfg, m, path, prefix, e, last);
    var below := AddToStructure(cfg, m, Join(path, e.name), p2, e);
    assert lines[1..] == below;
    AddToStructureUnder(cfg, m, Join(path, e.name), p2, e);
    forall l | l in below
      ensures l[..|p2|] == p2 && l[|prefix|..|prefix| + 4] == Indent(last)
    {
      assert l[|prefix|..|prefix| + 4] == l[..|p2|][|prefix|..];
    }
  }

  // ------------------------------------------------------ one level of the drawing

  /** The lines drawn for one entry hold exactly one line of its level: its
      own. */
  lemma DrawEntryHeads(cfg: Config, m: Gitignore, path: string, prefix: string, e: Node, last: bool)
    ensures Heads(DrawEntry(cfg, m, path, prefix, e, last), |prefix|) == [EntryLine(prefix, last, e)]
  {
    var line := EntryLine(prefix, last, e);
    assert IsHead(line, |prefix|);
    if e.Dir? {
      var below := AddToStructure(cfg, m, Join(path, e.name), prefix + Indent(last), e);
      AddToStructureUnder(cfg, m, Join(path, e.name), prefix + Indent(last), e);
      forall l | l in below
        ensures !IsHead(l, |prefix|)
      {
        DeeperNotHead(prefix, last, l);
      }
      assert Heads(below, |prefix|) == [] by {
        if Heads(below, |prefix|) != [] {
          assert Heads(below, |prefix|)[0] in Heads(below, |prefix|);
        }
      }
      HeadsAppend([line], below, |prefix|);
    } else {
      assert Heads([line], |prefix|) == [line] + Heads([], |prefix|);
    }
  }

  lemma {:induction false} DrawListingHeads(cfg: Config, m: Gitignore, path: string, prefix: string, parent: Node, es: seq<Node>)
    requires forall e :: e in es ==> e in Entries(parent)
    ensures Heads(DrawListing(cfg, m, path, prefix, parent, es), |prefix|) == Marked(prefix, es)
    decreases |es|
  {
    if |es| > 0 {
      DrawEntryHeads(cfg, m, path, prefix, es[0], |es| == 1);
      DrawListingHeads(cfg, m, path, prefix, parent, es[1..]);
      HeadsAppend(DrawEntry(cfg, m, path, prefix, es[0], |es| == 1),
                  DrawListing(cfg, m, path, prefix, parent, es[1..]), |prefix|);
    }
  }

  /** Each level of the drawing: the lines with a connector right after the
      prefix are the sorted, filtered entries of the directory, one line each
      in order, and only the last of them carries `└── `. */
  lemma LevelLines(cfg: Config, m: Gitignore, path: string, prefix: string, n: Node)
    ensures Heads(AddToStructure(cfg, m, path, prefix, n), |prefix|) == Marked(prefix, Listing(cfg, m, path, n))
  {
    DrawListingHeads(cfg, m, path, prefix, n, Listing(cfg, m, path, n));
  }

  /** Below the repository name, the lines of the top level are the sorted,
      filtered entries of the repository directory, and every other line is
      indented under one of them. */
  lemma TopLevelLines(cfg: Config, m: Gitignore, root: Node)
    ensures Heads(GetFolderStructure(cfg, m, root)[1..], 0) == Marked("", Listing(cfg, m, RepoDir, root))
    ensures forall l :: l in GetFolderStructure(cfg, m, root)[1..] ==> Under("", l)
  {
    LevelLines(cfg, m, RepoDir, "", root);
    AddToStructureUnder(cfg, m, RepoDir, "", root);
  }
}
