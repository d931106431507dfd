/**
 * The two aggregates of the statistics section modelled here:
 * `count_files_per_type`, a dictionary from extension to number of files
 * (built in a `defaultdict`, so its keys keep first-insertion order), and
 * `find_largest_file`, which keeps the first file of the largest positive
 * size.
 */
module Statistics {
  import opened Paths
  import opened Walker

  // ------------------------------------------------------ dictionaries

  /** One key of a dictionary with its value. */
  datatype Cell = Cell(key: string, value: nat)

  /** A dictionary as Python keeps it: cells in insertion order. */
  type Table = seq<Cell>

  function Keys(t: Table): (r: seq<string>)
    ensures |r| == |t| && forall i :: 0 <= i < |t| ==> r[i] == t[i].key
  {
    seq(|t|, i requires 0 <= i < |t| => t[i].key)
  }

  /** No key occurs twice. */
  predicate DistinctKeys(t: Table) {
    forall i, j :: 0 <= i < j < |t| ==> t[i].key != t[j].key
  }

  /** `t[k]` on a `defaultdict(int)`: 0 for a missing key. */
  function Get(t: Table, k: string): nat
    decreases |t|
  {
    if |t| == 0 then 0
    else if t[|t| - 1].key == k then t[|t| - 1].value
    else Get(t[..|t| - 1], k)
  }

  /** The sum of all values. */
  function Total(t: Table): nat
    decreases |t|
  {
    if |t| == 0 then 0 else Total(t[..|t| - 1]) + t[|t| - 1].value
  }

  /** What appending a cell does to the lookups, the sum and the keys. */
  lemma Snoc(t: Table, c: Cell)
    ensures forall j :: Get(t + [c], j) == if c.key == j then c.value else Get(t, j)
    ensures Total(t + [c]) == Total(t) + c.value
    ensures Keys(t + [c]) == Keys(t) + [c.key]
  {
    assert (t + [c])[..|t|] == t;
  }

  /** ... and to the distinctness of the keys. */
  lemma SnocDistinct(t: Table, c: Cell)
    ensures DistinctKeys(t + [c]) <==> DistinctKeys(t) && c.key !in Keys(t)
  {
    if DistinctKeys(t) && c.key !in Keys(t) {
      forall i, j | 0 <= i < j < |t + [c]|
        ensures (t + [c])[i].key != (t + [c])[j].key
      {
        if j == |t| {
          assert Keys(t)[i] == t[i].key;
        }
      }
    }
    if DistinctKeys(t + [c]) {
      forall i | 0 <= i < |t|
        ensures Keys(t)[i] != c.key
      {
        assert (t + [c])[i] == t[i] && (t + [c])[|t|] == c;
      }
      forall i, j | 0 <= i < j < |t|
        ensures t[i].key != t[j].key
      {
        assert (t + [c])[i] == t[i] && (t + [c])[j] == t[j];
      }
    }
  }

  /** A key that is missing reads as the default 0. */
  lemma {:induction false} GetMissing(t: Table, k: string)
    requires k !in Keys(t)
    ensures Get(t, k) == 0
    decreases |t|
  {
    if |t| > 0 {
      var init := t[..|t| - 1];
      assert t == init + [t[|t| - 1]];
      Snoc(init, t[|t| - 1]);
      GetMissing(init, k);
    }
  }

  /** Adds `w` to the value of the key `k`, which is present. */
  function Bump(t: Table, k: string, w: nat): (r: Table)
    requires DistinctKeys(t) && k in Keys(t)
    ensures DistinctKeys(r) && Keys(r) == Keys(t)
    ensures Get(r, k) == Get(t, k) + w
    ensures forall j :: j != k ==> Get(r, j) == Get(t, j)
    ensures Total(r) == Total(t) + w
    decreases |t|
  {
    var init := t[..|t| - 1];
    var last := t[|t| - 1];
    assert t == init + [last];
    if last.key == k then
      var c := Cell(k, last.value + w);
      ReplaceLast(init, last, c);
      init + [c]
    else
      SnocDistinct(init, last);
      Snoc(init, last);
      var rest := Bump(init, k, w);
      KeepLast(init, rest, last, k, w);
      rest + [last]
  }

  /** The last cell replaced by one with the same key. */
  lemma ReplaceLast(init: Table, last: Cell, c: Cell)
    requires DistinctKeys(init + [last]) && c.key == last.key
    ensures DistinctKeys(init + [c]) && Keys(init + [c]) == Keys(init + [last])
    ensures Get(init + [c], c.key) == c.value && Get(init + [last], c.key) == last.value
    ensures forall j :: j != c.key ==> Get(init + [c], j) == Get(init + [last], j)
    ensures Total(init + [c]) + last.value == Total(init + [last]) + c.value
  {
    Snoc(init, last);
    SnocDistinct(init, last);
    Snoc(init, c);
    SnocDistinct(init, c);
  }

  /** A last cell of another key kept after bumping the cells before it. */
  lemma KeepLast(init: Table, rest: Table, last: Cell, k: string, w: nat)
    requires DistinctKeys(init + [last]) && last.key != k
    requires DistinctKeys(rest) && Keys(rest) == Keys(init)
    requires Get(rest, k) == Get(init, k) + w
    requires forall j :: j != k ==> Get(rest, j) == Get(init, j)
    requires Total(rest) == Total(init) + w
    ensures DistinctKeys(rest + [last]) && Keys(rest + [last]) == Keys(init + [last])
    ensures Get(rest + [last], k) == Get(init + [last], k) + w
    ensures forall j :: j != k ==> Get(rest + [last], j) == Get(init + [last], j)
    ensures Total(rest + [last]) == Total(init + [last]) + w
  {
    Snoc(init, last);
    SnocDistinct(init, last);
    Snoc(rest, last);
    SnocDistinct(rest, last);
  }

  /** `t[k] += w` on a `defaultdict(int)`: a missing key is appended with the
      default 0 before the addition; no other key changes. */
  function Add(t: Table, k: string, w: nat): (r: Table)
    requires DistinctKeys(t)
    ensures DistinctKeys(r)
    ensures Get(r, k) == Get(t, k) + w
    ensures forall j :: j != k ==> Get(r, j) == Get(t, j)
    ensures Total(r) == Total(t) + w
    ensures Keys(r) == if k in Keys(t) then Keys(t) else Keys(t) + [k]
  {
    if k in Keys(t) then
      Bump(t, k, w)
    else
      Snoc(t, Cell(k, w));
      SnocDistinct(t, Cell(k, w));
      GetMissing(t, k);
      t + [Cell(k, w)]
  }

  // ------------------------------------------------------ reference counts

  /** The extension of every file, in order. */
  function Exts(files: seq<FileRef>): (r: seq<string>)
    ensures |r| == |files| && forall i :: 0 <= i < |files| ==> r[i] == Extension(files[i].path)
  {
    seq(|files|, i requires 0 <= i < |files| => Extension(files[i].path))
  }

  /** How often `k` occurs in `s`. */
  function Occurrences(s: seq<string>, k: string): nat
    decreases |s|
  {
    if |s| == 0 then 0
    else Occurrences(s[..|s| - 1], k) + (if s[|s| - 1] == k then 1 else 0)
  }

  /** The distinct elements of `s` in the order they first occur. */
  function FirstOccurrences(s: seq<string>): (r: seq<string>)
    ensures forall k :: k in r <==> k in s
    decreases |s|
  {
    if |s| == 0 then []
    else
      var init := FirstOccurrences(s[..|s| - 1]);
      assert s == s[..|s| - 1] + [s[|s| - 1]];
      if s[|s| - 1] in init then init else init + [s[|s| - 1]]
  }

  /** `t` is the `defaultdict` after counting the elements of `s`: one key per
      distinct element, in first-occurrence order, with its number of
      occurrences. */
  ghost predicate Tallies(t: Table, s: seq<string>) {
    && DistinctKeys(t)
    && Keys(t) == FirstOccurrences(s)
    && (forall k :: Get(t, k) == Occurrences(s, k))
    && Total(t) == |s|
  }

  /** Counting one more element. */
  lemma TallyStep(t: Table, s: seq<string>, i: int)
    requires 0 <= i < |s| && Tallies(t, s[..i])
    ensures Tallies(Add(t, s[i], 1), s[..i + 1])
  {
    var s0, s1 := s[..i], s[..i + 1];
    var r := Add(t, s[i], 1);
    assert s1[..|s1| - 1] == s0 && s1[|s1| - 1] == s[i];
    assert Keys(r) == FirstOccurrences(s1);
    forall k
      ensures Get(r, k) == Occurrences(s1, k)
    {
    }
  }

  /** The table after counting the elements of `s` one by one, from an empty
      `defaultdict`. */
  function Tally(s: seq<string>): (t: Table)
    ensures Tallies(t, s)
    decreases |s|
  {
    if |s| == 0 then []
    else
      var n := |s| - 1;
      var t := Add(Tally(s[..n]), s[n], 1);
      assert s[..n][..n] == s[..n];
      TallyStep(Tally(s[..n]), s, n);
      assert s[..n + 1] == s;
      t
  }

  // ------------------------------------------------------ count_files_per_type

  /** `count_files_per_type(relevant_files)`: one key per extension that
      occurs, in the order the extensions first occur, each counting the
      files with that extension, so the counts add up to the number of
      files. */
  method CountFilesPerType(files: seq<FileRef>) returns (t: Table)
    ensures DistinctKeys(t)
    ensures Keys(t) == FirstOccurrences(Exts(files))
    ensures forall k :: Get(t, k) == Occurrences(Exts(files), k)
    ensures Total(t) == |files|
  {
    t := CountExtensions(Exts(files));
  }

  /** The loop of `count_files_per_type`: `file_types[ext] += 1` for each
      extension in turn builds the table `Tally` describes. */
  method CountExtensions(exts: seq<string>) returns (t: Table)
    ensures t == Tally(exts)
  {
    t := [];
    var i := 0;
    while i < |exts|
      invariant 0 <= i <= |exts|
      invariant t == Tally(exts[..i])
    {
      TallySnoc(exts, i);
      t := Add(t, exts[i], 1);
      i := i + 1;
    }
    assert exts[..i] == exts;
  }

  /** Counting a prefix one element further. */
  lemma TallySnoc(s: seq<string>, i: int)
    requires 0 <= i < |s|
    ensures Tally(s[..i + 1]) == Add(Tally(s[..i]), s[i], 1)
  {
    assert s[..i + 1][..i] == s[..i];
  }

  /** Every key is the extension of some listed file, and every listed file's
      extension is a key. */
  lemma FilesPerTypeKeys(files: seq<FileRef>, t: Table, k: string)
    requires Keys(t) == FirstOccurrences(Exts(files))
    ensures k in Keys(t) <==> exists f :: f in files && Extension(f.path) == k
  {
    if k in Keys(t) {
      var i :| 0 <= i < |files| && Exts(files)[i] == k;
      assert files[i] in files;
    }
    if exists f :: f in files && Extension(f.path) == k {
      var f :| f in files && Extension(f.path) == k;
      var i :| 0 <= i < |files| && files[i] == f;
      assert Exts(files)[i] == k;
    }
  }

  // ------------------------------------------------------ find_largest_file

  /** The `largest_file` dictionary: base name, size in bytes, line count. */
  datatype Largest = Largest(name: string, size: nat, lines: nat)

  /** What `find_largest_file` starts from and returns when no file has a
      positive size. */
  const NoLargest: Largest := Largest("", 0, 0)

  /** The record `find_largest_file` builds for a file. */
  function Describe(f: FileRef): Largest {
    Largest(Basename(f.path), f.size, f.lines)
  }

  /** `files[i]` is the first of the largest files among those that open. */
  predicate FirstLargest(files: seq<FileRef>, opens: string -> bool, i: int) {
    && 0 <= i < |files|
    && opens(files[i].path)
    && (forall j :: 0 <= j < |files| && opens(files[j].path) ==> files[j].size <= files[i].size)
    && (forall j :: 0 <= j < i && opens(files[j].path) ==> files[j].size < files[i].size)
  }

  /** `find_largest_file(relevant_files)`, given whether `open` succeeds on
      each path. The record only moves on a strictly larger size, and only
      when the file opens for counting its lines; otherwise the error is
      reported and the earlier record kept. So the result describes the first
      of the largest files that open, and it stays empty when no file that
      opens has a positive size. */
  method FindLargestFile(files: seq<FileRef>, opens: string -> bool) returns (r: Largest)
    ensures forall f :: f in files && opens(f.path) ==> f.size <= r.size
    ensures r == NoLargest <==> forall f :: f in files && opens(f.path) ==> f.size == 0
    ensures r != NoLargest ==> exists i {:trigger Describe(files[i])} :: FirstLargest(files, opens, i) && r == Describe(files[i])
  {
    r := NoLargest;
    var i := 0;
    ghost var at := -1;
    while i < |files|
      invariant 0 <= i <= |files|
      invariant at == -1 ==> r == NoLargest && forall j :: 0 <= j < i && opens(files[j].path) ==> files[j].size == 0
      invariant at != -1 ==> 0 <= at < i && opens(files[at].path) && r == Describe(files[at]) && r.size == files[at].size > 0
      invariant at != -1 ==> forall j :: 0 <= j < i && opens(files[j].path) ==> files[j].size <= files[at].size
      invariant at != -1 ==> forall j :: 0 <= j < at && opens(files[j].path) ==> files[j].size < files[at].size
    {
      if files[i].size > r.size && opens(files[i].path) {
        r := Describe(files[i]);
        at := i;
      }
      i := i + 1;
    }
    if at != -1 {
      assert FirstLargest(files, opens, at) by {
        forall j | 0 <= j < |files| && opens(files[j].path)
          ensures files[j].size <= files[at].size
        {
        }
      }
    }
    forall f | f in files && opens(f.path)
      ensures f.size <= r.size
    {
      var j :| 0 <= j < |files| && files[j] == f;
    }
  }
}
