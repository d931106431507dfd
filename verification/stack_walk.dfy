/**
 * `os.walk` as the standard library runs it top-down: a stack of directory
 * paths, the top popped and scanned, its listing handed to the caller (who
 * prunes `dirs` in place), then the surviving subdirectories pushed in
 * reverse so that the first of them is scanned next. The loop of
 * `get_relevant_files` around it keeps the included files. Run this way, the
 * walk returns exactly the recursive pre-order walk `Walker.RelevantFiles`.
 */
module StackWalk {
  import opened Paths
  import opened FileTree
  import opened Inclusion
  import opened Walker

  /** A stack slot: a directory path and the node found there. */
  datatype Visit = Visit(path: string, node: Node)

  /** `for dirname in reversed(dirs): stack.append(join(top, dirname))`. */
  function Pushed(top: string, dirs: seq<Node>): (r: seq<Visit>)
    ensures |r| == |dirs|
    decreases |dirs|
  {
    if |dirs| == 0 then [] else Pushed(top, dirs[1..]) + [Visit(Join(top, dirs[0].name), dirs[0])]
  }

  /** The files the walk still owes for the stack: the walk of the top slot,
      then of the slot below it, and so on. */
  ghost function Pending(cfg: Config, m: Gitignore, stack: seq<Visit>): seq<FileRef>
    decreases |stack|
  {
    if |stack| == 0 then []
    else
      var v := stack[|stack| - 1];
      RelevantFiles(cfg, m, v.path, v.node) + Pending(cfg, m, stack[..|stack| - 1])
  }

  /** The nodes left below the slots of the stack. */
  ghost function StackSize(stack: seq<Visit>): nat
    decreases |stack|
  {
    if |stack| == 0 then 0 else Size(stack[|stack| - 1].node) + StackSize(stack[..|stack| - 1])
  }

  /** Concatenation is associative; stated apart so that the walk's own
      facts stay out of the proof. */
  lemma Associative<T>(a: seq<T>, b: seq<T>, c: seq<T>)
    ensures a + (b + c) == (a + b) + c
  {
  }

  /** One more slot on top of the stack. */
  lemma PushOne(cfg: Config, m: Gitignore, s: seq<Visit>, v: Visit)
    ensures Pending(cfg, m, s + [v]) == RelevantFiles(cfg, m, v.path, v.node) + Pending(cfg, m, s)
    ensures StackSize(s + [v]) == Size(v.node) + StackSize(s)
  {
    assert (s + [v])[..|s|] == s;
  }

  /** Pushing the subdirectories in reverse makes the stack owe their walks in
      listing order, before whatever it owed already. */
  lemma {:induction false} PendingPushed(cfg: Config, m: Gitignore, rest: seq<Visit>, top: string, dirs: seq<Node>)
    ensures Pending(cfg, m, rest + Pushed(top, dirs)) == RelevantFilesBelow(cfg, m, top, dirs) + Pending(cfg, m, rest)
    decreases |dirs|
  {
    if |dirs| == 0 {
      assert rest + Pushed(top, dirs) == rest;
    } else {
      var below := rest + Pushed(top, dirs[1..]);
      var v := Visit(Join(top, dirs[0].name), dirs[0]);
      assert Pushed(top, dirs) == Pushed(top, dirs[1..]) + [v];
      assert rest + Pushed(top, dirs) == below + [v];
      PushOne(cfg, m, below, v);
      PendingPushed(cfg, m, rest, top, dirs[1..]);
      var first := RelevantFiles(cfg, m, v.path, v.node);
      var later := RelevantFilesBelow(cfg, m, top, dirs[1..]);
      assert RelevantFilesBelow(cfg, m, top, dirs) == first + later;
      Associative(first, later, Pending(cfg, m, rest));
    }
  }

  /** ... and leaves exactly their nodes to visit. */
  lemma {:induction false} SizePushed(rest: seq<Visit>, top: string, dirs: seq<Node>)
    ensures StackSize(rest + Pushed(top, dirs)) == StackSize(rest) + SizeAll(dirs)
    decreases |dirs|
  {
    if |dirs| == 0 {
      assert rest + Pushed(top, dirs) == rest;
    } else {
      var below := rest + Pushed(top, dirs[1..]);
      var v := Visit(Join(top, dirs[0].name), dirs[0]);
      assert rest + Pushed(top, dirs) == below + [v];
      PushOne(Config("", ""), NoGitignore, below, v);
      SizePushed(rest, top, dirs[1..]);
    }
  }

  /** One turn of the loop on a directory: its kept files are returned and its
      kept subdirectories take its place on the stack, which then owes the
      rest of its walk and has fewer nodes left. */
  lemma PopDirectory(cfg: Config, m: Gitignore, rest: seq<Visit>, v: Visit)
    requires v.node.Dir?
    ensures Pending(cfg, m, rest + [v]) ==
      Refs(v.path, KeptFiles(cfg, m, v.path, v.node.children))
        + Pending(cfg, m, rest + Pushed(v.path, KeptDirs(m, v.path, v.node.children)))
    ensures StackSize(rest + Pushed(v.path, KeptDirs(m, v.path, v.node.children))) < StackSize(rest + [v])
  {
    var dirs := KeptDirs(m, v.path, v.node.children);
    var here := Refs(v.path, KeptFiles(cfg, m, v.path, v.node.children));
    PushOne(cfg, m, rest, v);
    Unfold(cfg, m, v.path, v.node);
    PendingPushed(cfg, m, rest, v.path, dirs);
    Associative(here, RelevantFilesBelow(cfg, m, v.path, dirs), Pending(cfg, m, rest));
    SizePushed(rest, v.path, dirs);
  }

  /** One step of the recursive walk. */
  lemma Unfold(cfg: Config, m: Gitignore, top: string, n: Node)
    requires n.Dir?
    ensures RelevantFiles(cfg, m, top, n) ==
      Refs(top, KeptFiles(cfg, m, top, n.children)) + RelevantFilesBelow(cfg, m, top, KeptDirs(m, top, n.children))
    ensures SizeAll(KeptDirs(m, top, n.children)) < Size(n)
  {
  }

  /** The loop turn in the terms of the whole loop: what has been returned
      so far and what the stack owes still add up to the same walk, and the
      stack has fewer nodes left. */
  lemma Turn(cfg: Config, m: Gitignore, files: seq<FileRef>, stack: seq<Visit>)
    requires |stack| > 0 && stack[|stack| - 1].node.Dir?
    ensures var v := stack[|stack| - 1];
      && (files + Refs(v.path, KeptFiles(cfg, m, v.path, v.node.children)))
        + Pending(cfg, m, stack[..|stack| - 1] + Pushed(v.path, KeptDirs(m, v.path, v.node.children)))
        == files + Pending(cfg, m, stack)
      && StackSize(stack[..|stack| - 1] + Pushed(v.path, KeptDirs(m, v.path, v.node.children))) < StackSize(stack)
  {
    var v, rest := stack[|stack| - 1], stack[..|stack| - 1];
    assert stack == rest + [v];
    PopDirectory(cfg, m, rest, v);
    Associative(files, Refs(v.path, KeptFiles(cfg, m, v.path, v.node.children)),
      Pending(cfg, m, rest + Pushed(v.path, KeptDirs(m, v.path, v.node.children))));
  }

  /** A loop turn on a file in place of a directory: scanning it fails, the
      walk's error handler is silent, and the slot is dropped. */
  lemma Skip(cfg: Config, m: Gitignore, stack: seq<Visit>)
    requires |stack| > 0 && stack[|stack| - 1].node.File?
    ensures Pending(cfg, m, stack[..|stack| - 1]) == Pending(cfg, m, stack)
    ensures StackSize(stack[..|stack| - 1]) < StackSize(stack)
  {
    var v, rest := stack[|stack| - 1], stack[..|stack| - 1];
    assert stack == rest + [v];
    PushOne(cfg, m, rest, v);
    FileWalk(cfg, m, v.path, v.node);
    assert [] + Pending(cfg, m, rest) == Pending(cfg, m, rest);
  }

  /** The walk of a file is empty. */
  lemma FileWalk(cfg: Config, m: Gitignore, top: string, n: Node)
    requires n.File?
    ensures RelevantFiles(cfg, m, top, n) == []
    ensures Size(n) > 0
  {
  }

  /** `get_relevant_files(REPO_DIR, gitignore)` on the repository whose top
      directory is `root`, run with `os.walk`'s stack. */
  method WalkFiles(cfg: Config, m: Gitignore, root: Node) returns (files: seq<FileRef>)
    ensures files == RelevantFiles(cfg, m, RepoDir, root)
  {
    var stack := [Visit(RepoDir, root)];
    files := [];
    PushOne(cfg, m, [], Visit(RepoDir, root));
    assert [] + [Visit(RepoDir, root)] == stack;
    while |stack| > 0
      invariant files + Pending(cfg, m, stack) == RelevantFiles(cfg, m, RepoDir, root)
      decreases StackSize(stack)
    {
      var v := stack[|stack| - 1];
      if v.node.Dir? {
        var ch := v.node.children;
        Turn(cfg, m, files, stack);
        files := files + Refs(v.path, KeptFiles(cfg, m, v.path, ch));
        stack := stack[..|stack| - 1] + Pushed(v.path, KeptDirs(m, v.path, ch));
      } else {
        Skip(cfg, m, stack);
        stack := stack[..|stack| - 1];
      }
    }
  }
}
