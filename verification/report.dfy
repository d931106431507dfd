/**
 * The "File Index" and the file contents that `main` writes. Each re-runs
 * the walk of `get_relevant_files`. The index numbers every included file
 * from 1 in walk order. The contents section gives every file it manages to
 * open a block whose header and footer carry a number too, but that counter
 * only moves on after a successful read.
 */
module Report {
  import opened Paths
  import opened FileTree
  import opened Inclusion
  import opened Walker
  import opened StackWalk
  import opened Numbers
  import opened FolderStructure

  // ------------------------------------------------------ the file index

  /** `f"{file_number}. {rel_path}"`. */
  function IndexLine(k: nat, path: string): string {
    Decimal(k) + ". " + RelativeToDot(path)
  }

  /** The number an index line starts with. */
  function IndexNumber(line: string): nat {
    ParseDecimal(line[..LeadingDigits(line)])
  }

  /** What an index line names after its number. */
  function IndexPath(line: string): string {
    var k := LeadingDigits(line);
    if k + 2 <= |line| then line[k + 2..] else ""
  }

  /** An index line reads back as its number and the relative path. */
  lemma ReadIndexLine(k: nat, path: string)
    ensures IndexNumber(IndexLine(k, path)) == k
    ensures IndexPath(IndexLine(k, path)) == RelativeToDot(path)
  {
    var d := Decimal(k);
    var line := IndexLine(k, path);
    assert line == d + (". " + RelativeToDot(path));
    LeadingDigitsOf(d, ". " + RelativeToDot(path));
    assert line[..|d|] == d;
    DecimalRoundTrip(k);
  }

  /** The index loop of `main`: `file_number` starts at 1 and moves on with
      every file, so the line of the `i`-th file reads back as `i + 1` and
      that file's path relative to the repository. */
  method FileIndex(files: seq<FileRef>) returns (index: seq<string>)
    ensures |index| == |files|
    ensures forall i :: 0 <= i < |files| ==> index[i] == IndexLine(i + 1, files[i].path)
    ensures forall i :: 0 <= i < |files| ==>
      IndexNumber(index[i]) == i + 1 && IndexPath(index[i]) == RelativeToDot(files[i].path)
  {
    index := [];
    var fileNumber := 1;
    var i := 0;
    while i < |files|
      invariant 0 <= i <= |files| && fileNumber == i + 1
      invariant |index| == i
      invariant forall j :: 0 <= j < i ==> index[j] == IndexLine(j + 1, files[j].path)
    {
      index := index + [IndexLine(fileNumber, files[i].path)];
      fileNumber := fileNumber + 1;
      i := i + 1;
    }
    forall i | 0 <= i < |files|
      ensures IndexNumber(index[i]) == i + 1 && IndexPath(index[i]) == RelativeToDot(files[i].path)
    {
      ReadIndexLine(i + 1, files[i].path);
    }
  }

  /** The "File Index" section for the repository whose top directory is
      `root`: one line per file of the walk, in walk order, numbered 1, 2, 3
      and so on, each naming the file's path relative to the repository. */
  method IndexSection(cfg: Config, m: Gitignore, root: Node) returns (index: seq<string>)
    ensures |index| == |RelevantFiles(cfg, m, RepoDir, root)|
    ensures forall i :: 0 <= i < |index| ==>
      && IndexNumber(index[i]) == i + 1
      && IndexPath(index[i]) == RelativeToDot(RelevantFiles(cfg, m, RepoDir, root)[i].path)
  {
    var files := WalkFiles(cfg, m, root);
    index := FileIndex(files);
  }

  // ------------------------------------------------------ the file contents

  /** Opening and reading a file: its text (decoding errors are ignored, so
      every byte sequence reads as some text), or a failure to open it. */
  datatype ReadResult = Text(contents: string) | Unreadable

  /** `f"{'=' * 80}\n"`. */
  function Separator(): (r: string)
    ensures |r| == 81
  {
    Repeat('=', 80) + "\n"
  }

  /** What the contents loop writes for a file it read: the file's number in
      the contents, its path relative to the repository, and its text. */
  datatype Written = Written(number: nat, rel: string, text: string)

  /** The block written for a file read successfully: separator, the
      `FILE_nnnn: path` header, separator, the text, separator, the
      `END OF FILE_nnnn: path` footer, separator. */
  function Block(w: Written): string {
    Opening() + Pad4(w.number) + Rest(w)
  }

  /** What a block writes before the header's number. */
  function Opening(): (r: string)
    ensures |r| == 87
  {
    "\n" + Separator() + "FILE_"
  }

  /** What a block writes after the header's number. */
  function Rest(w: Written): (r: string)
    ensures |r| > 0 && r[0] == ':'
  {
    ": " + w.rel + "\n" + Separator() + "\n"
      + w.text
      + "\n" + Separator() + "END OF FILE_" + Pad4(w.number) + ": " + w.rel + "\n" + Separator() + "\n"
  }

  /** The number in a block's header. */
  function BlockNumber(b: string): nat {
    if |b| < |Opening()| then 0
    else
      var s := b[|Opening()|..];
      ParseDecimal(s[..LeadingDigits(s)])
  }

  lemma DropFront<T>(a: seq<T>, b: seq<T>, c: seq<T>)
    ensures (a + b + c)[|a|..] == b + c && (b + c)[..|b|] == b
  {
  }

  /** A block's header reads back as its number. */
  lemma ReadBlockNumber(w: Written)
    ensures BlockNumber(Block(w)) == w.number
  {
    var p, tail := Pad4(w.number), Rest(w);
    DropFront(Opening(), p, tail);
    LeadingDigitsOf(p, tail);
  }

  /** What opening each file of the walk gave, in walk order. */
  function Outcomes(files: seq<FileRef>, read: string -> ReadResult): (r: seq<ReadResult>)
    ensures |r| == |files| && forall i :: 0 <= i < |files| ==> r[i] == read(files[i].path)
  {
    seq(|files|, i requires 0 <= i < |files| => read(files[i].path))
  }

  /** How many of the first `i` files read successfully. */
  function Succeeded(outcomes: seq<ReadResult>, i: nat): (r: nat)
    requires i <= |outcomes|
    ensures r <= i
  {
    if i == 0 then 0
    else Succeeded(outcomes, i - 1) + (if outcomes[i - 1].Text? then 1 else 0)
  }

  /** The block of the file numbered `k` in the order it was read. */
  predicate BlockAt(blocks: seq<Written>, k: nat, rel: string, text: string) {
    k < |blocks| && blocks[k] == Written(k + 1, rel, text)
  }

  /** The contents loop of `main`, given the outcome of opening each file:
      the block of a file that reads carries the count of successful reads
      before it, plus one; a file that does not open gets no block and
      leaves the counter where it is. */
  method ContentSection(files: seq<FileRef>, outcomes: seq<ReadResult>) returns (blocks: seq<Written>)
    requires |outcomes| == |files|
    ensures |blocks| == Succeeded(outcomes, |files|)
    ensures forall i {:trigger files[i], outcomes[i]} :: 0 <= i < |files| && outcomes[i].Text? ==>
      BlockAt(blocks, Succeeded(outcomes, i), RelativeToDot(files[i].path), outcomes[i].contents)
  {
    blocks := [];
    var fileNumber := 1;
    var i := 0;
    while i < |files|
      invariant 0 <= i <= |files|
      invariant |blocks| == Succeeded(outcomes, i) && fileNumber == |blocks| + 1
      invariant forall j {:trigger files[j], outcomes[j]} :: 0 <= j < i && outcomes[j].Text? ==>
        BlockAt(blocks, Succeeded(outcomes, j), RelativeToDot(files[j].path), outcomes[j].contents)
    {
      var rel := RelativeToDot(files[i].path);
      match outcomes[i] {
        case Text(text) =>
          blocks := blocks + [Written(fileNumber, rel, text)];
          fileNumber := fileNumber + 1;
        case Unreadable =>
      }
      i := i + 1;
    }
  }

  /** The content number of a file matches its index number exactly when
      every file before it read successfully; each earlier failure lowers it
      by one. */
  lemma {:induction false} NumbersAgree(outcomes: seq<ReadResult>, i: nat)
    requires i <= |outcomes|
    ensures Succeeded(outcomes, i) == i <==> forall j :: 0 <= j < i ==> outcomes[j].Text?
    decreases i
  {
    if i > 0 {
      NumbersAgree(outcomes, i - 1);
    }
  }

  /** When every file reads, the content counter keeps pace with the index:
      file `i` gets block `i`, numbered `i + 1`. */
  lemma AllRead(files: seq<FileRef>, outcomes: seq<ReadResult>, blocks: seq<Written>)
    requires |outcomes| == |files| && forall j :: 0 <= j < |files| ==> outcomes[j].Text?
    requires |blocks| == Succeeded(outcomes, |files|)
    requires forall j {:trigger files[j], outcomes[j]} :: 0 <= j < |files| && outcomes[j].Text? ==>
      BlockAt(blocks, Succeeded(outcomes, j), RelativeToDot(files[j].path), outcomes[j].contents)
    ensures |blocks| == |files|
    ensures forall i :: 0 <= i < |files| ==>
      BlockAt(blocks, i, RelativeToDot(files[i].path), outcomes[i].contents)
  {
    NumbersAgree(outcomes, |files|);
    forall i | 0 <= i < |files|
      ensures BlockAt(blocks, i, RelativeToDot(files[i].path), outcomes[i].contents)
    {
      NumbersAgree(outcomes, i);
      assert Succeeded(outcomes, i) == i;
      assert files[i] == files[i] && outcomes[i].Text?;
    }
  }

  // ------------------------------------------------------ the whole report

  /** The sections `main` writes after the statistics: the folder structure,
      the file index and the file blocks. When every file of the walk opens,
      block `i` carries the number and the path of index line `i`, and the
      text of that file. */
  method Concatenate(cfg: Config, m: Gitignore, root: Node, read: string -> ReadResult)
    returns (structure: seq<string>, index: seq<string>, blocks: seq<Written>)
    ensures structure == GetFolderStructure(cfg, m, root)
    ensures |index| == |RelevantFiles(cfg, m, RepoDir, root)|
    ensures forall i :: 0 <= i < |index| ==>
      && IndexNumber(index[i]) == i + 1
      && IndexPath(index[i]) == RelativeToDot(RelevantFiles(cfg, m, RepoDir, root)[i].path)
    ensures (forall f :: f in RelevantFiles(cfg, m, RepoDir, root) ==> read(f.path).Text?) ==>
      && |blocks| == |index|
      && forall i :: 0 <= i < |index| ==>
        BlockAt(blocks, i, IndexPath(index[i]), read(RelevantFiles(cfg, m, RepoDir, root)[i].path).contents)
  {
    structure := GetFolderStructure(cfg, m, root);
    index := IndexSection(cfg, m, root);
    var files := WalkFiles(cfg, m, root);
    var outcomes := Outcomes(files, read);
    blocks := ContentSection(files, outcomes);
    if forall f :: f in files ==> read(f.path).Text? {
      forall j | 0 <= j < |files|
        ensures outcomes[j].Text?
      {
        assert files[j] in files;
      }
      AllRead(files, outcomes, blocks);
    }
  }
}
