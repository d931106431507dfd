/**
 * The directory tree the tool reads, as an immutable value: every directory
 * lists its entries in the order the file system returns them, and every
 * file carries the byte size `os.path.getsize` reports and the number of
 * lines iterating over it yields.
 */
module FileTree {
  import opened Paths

  datatype Node =
    | File(name: string, size: nat, lines: nat)
    | Dir(name: string, children: seq<Node>)

  /** The entries of a directory; a file has none to list. */
  function Entries(n: Node): seq<Node> {
    if n.Dir? then n.children else []
  }

  /** No two entries of one directory share a name. */
  predicate DistinctNames(s: seq<Node>) {
    forall i, j :: 0 <= i < j < |s| ==> s[i].name != s[j].name
  }

  /** What a real file system guarantees: proper entry names, unique within
      each directory. */
  predicate WellFormed(n: Node)
    decreases n
  {
    match n
    case File(_, _, _) => true
    case Dir(_, ch) =>
      && DistinctNames(ch)
      && forall c :: c in ch ==> IsName(c.name) && WellFormed(c)
  }

  /** Within one directory an entry is determined by its name. */
  lemma SameNameSameEntry(s: seq<Node>, a: Node, b: Node)
    requires DistinctNames(s) && a in s && b in s && a.name == b.name
    ensures a == b
  {
    var i := IndexOf(a, s);
    var j := IndexOf(b, s);
    assert !(i < j) && !(j < i);
  }

  /** A position at which `x` occurs in `s`. */
  lemma IndexOf<T>(x: T, s: seq<T>) returns (i: int)
    requires x in s
    ensures 0 <= i < |s| && s[i] == x
  {
    i :| 0 <= i < |s| && s[i] == x;
  }

  /** With unique names, no entry occurs twice. */
  lemma {:induction false} AtMostOnce(s: seq<Node>, x: Node)
    requires DistinctNames(s)
    ensures multiset(s)[x] <= 1
    decreases |s|
  {
    if |s| > 0 {
      assert s == [s[0]] + s[1..];
      assert DistinctNames(s[1..]);
      AtMostOnce(s[1..], x);
    }
  }

  /** Reordering a listing keeps its names unique. */
  lemma Reordered(r: seq<Node>, s: seq<Node>)
    requires multiset(r) == multiset(s) && DistinctNames(s)
    ensures DistinctNames(r)
  {
    forall i, j | 0 <= i < j < |r|
      ensures r[i].name != r[j].name
    {
      if r[i].name == r[j].name {
        assert r[i] in multiset(s) && r[j] in multiset(s);
        SameNameSameEntry(s, r[i], r[j]);
        assert r == r[..j] + r[j..];
        assert r[i] in r[..j] && r[j] in r[j..];
        assert multiset(r)[r[i]] == multiset(r[..j])[r[i]] + multiset(r[j..])[r[i]];
        AtMostOnce(s, r[i]);
        assert false;
      }
    }
  }

  // ---------------------------------------------------------------- sizes

  /** Number of nodes in a subtree; the measure recursion over trees uses. */
  function Size(n: Node): (r: nat)
    ensures r >= 1
    decreases n
  {
    match n
    case File(_, _, _) => 1
    case Dir(_, ch) => 1 + SizeAll(ch)
  }

  function SizeAll(s: seq<Node>): nat
    decreases s
  {
    if |s| == 0 then 0 else Size(s[0]) + SizeAll(s[1..])
  }

  lemma {:induction false} SizeOfMember(s: seq<Node>, i: int)
    requires 0 <= i < |s|
    ensures Size(s[i]) <= SizeAll(s)
    decreases |s|
  {
    if i > 0 {
      SizeOfMember(s[1..], i - 1);
    }
  }

  // ---------------------------------------------------------- subsequences

  /** `r` is `s` with some elements left out, the rest kept in order. */
  ghost predicate IsSubsequence<T>(r: seq<T>, s: seq<T>)
    decreases |s|
  {
    || |r| == 0
    || (&& |s| > 0
        && ((r[0] == s[0] && IsSubsequence(r[1..], s[1..])) || IsSubsequence(r, s[1..])))
  }

  lemma {:induction false} SubsequenceMembers<T>(r: seq<T>, s: seq<T>)
    requires IsSubsequence(r, s)
    ensures forall x :: x in r ==> x in s
    decreases |s|
  {
    if |r| > 0 {
      if r[0] == s[0] && IsSubsequence(r[1..], s[1..]) {
        SubsequenceMembers(r[1..], s[1..]);
        assert forall x :: x in r ==> x == r[0] || x in r[1..];
      } else {
        SubsequenceMembers(r, s[1..]);
      }
    }
  }

  lemma {:induction false} SubsequenceTransitive<T>(a: seq<T>, b: seq<T>, c: seq<T>)
    requires IsSubsequence(a, b) && IsSubsequence(b, c)
    ensures IsSubsequence(a, c)
    decreases |c|
  {
    if |a| > 0 {
      if b[0] == c[0] && IsSubsequence(b[1..], c[1..]) {
        if a[0] == b[0] && IsSubsequence(a[1..], b[1..]) {
          SubsequenceTransitive(a[1..], b[1..], c[1..]);
        } else {
          SubsequenceTransitive(a, b[1..], c[1..]);
        }
      } else {
        SubsequenceTransitive(a, b, c[1..]);
      }
    }
  }

  lemma {:induction false} SubsequenceSize(r: seq<Node>, s: seq<Node>)
    requires IsSubsequence(r, s)
    ensures SizeAll(r) <= SizeAll(s)
    decreases |s|
  {
    if |r| > 0 {
      if r[0] == s[0] && IsSubsequence(r[1..], s[1..]) {
        SubsequenceSize(r[1..], s[1..]);
      } else {
        SubsequenceSize(r, s[1..]);
      }
    }
  }

  lemma {:induction false} SubsequenceDistinct(r: seq<Node>, s: seq<Node>)
    requires IsSubsequence(r, s) && DistinctNames(s)
    ensures DistinctNames(r)
    decreases |s|
  {
    if |r| > 0 {
      assert DistinctNames(s[1..]);
      if r[0] == s[0] && IsSubsequence(r[1..], s[1..]) {
        SubsequenceDistinct(r[1..], s[1..]);
        SubsequenceMembers(r[1..], s[1..]);
        forall j | 0 < j < |r|
          ensures r[0].name != r[j].name
        {
          assert r[j] in r[1..];
          var k :| 0 <= k < |s[1..]| && s[1..][k] == r[j];
          assert s[k + 1] == r[j];
        }
      } else {
        SubsequenceDistinct(r, s[1..]);
      }
    }
  }

  lemma SubsequenceOfSelf<T>(s: seq<T>)
    ensures IsSubsequence(s, s)
    decreases |s|
  {
    if |s| > 0 {
      SubsequenceOfSelf(s[1..]);
    }
  }

  // ------------------------------------------------------ ordering by name

  /** Python's `<` on `str`: code point by code point, a proper prefix first. */
  predicate NameLess(a: string, b: string)
    decreases |a|
  {
    if |a| == 0 then |b| > 0
    else if |b| == 0 then false
    else if a[0] != b[0] then a[0] < b[0]
    else NameLess(a[1..], b[1..])
  }

  lemma {:induction false} NameLessTotal(a: string, b: string)
    ensures a == b || NameLess(a, b) || NameLess(b, a)
    decreases |a|
  {
    if |a| > 0 && |b| > 0 && a[0] == b[0] {
      NameLessTotal(a[1..], b[1..]);
      if a[1..] == b[1..] {
        assert a == [a[0]] + a[1..] && b == [b[0]] + b[1..];
      }
    }
  }

  lemma {:induction false} NameLessAsymmetric(a: string, b: string)
    ensures !(NameLess(a, b) && NameLess(b, a))
    decreases |a|
  {
    if |a| > 0 && |b| > 0 && a[0] == b[0] {
      NameLessAsymmetric(a[1..], b[1..]);
    }
  }

  lemma {:induction false} NameLessTransitive(a: string, b: string, c: string)
    requires NameLess(a, b) && NameLess(b, c)
    ensures NameLess(a, c)
    decreases |a|
  {
    if |a| > 0 && a[0] == b[0] && b[0] == c[0] {
      NameLessTransitive(a[1..], b[1..], c[1..]);
    }
  }

  /** Not-greater is transitive too, which sortedness proofs need. */
  lemma NameAtMostTransitive(a: string, b: string, c: string)
    requires !NameLess(b, a) && !NameLess(c, b)
    ensures !NameLess(c, a)
  {
    NameLessTotal(a, b);
    if a != b && NameLess(c, a) {
      NameLessTransitive(c, a, b);
    }
  }

  /** Entries in ascending name order. */
  predicate SortedByName(s: seq<Node>) {
    forall i, j :: 0 <= i < j < |s| ==> !NameLess(s[j].name, s[i].name)
  }

  /** Putting an entry in front of sorted entries none of which is smaller
      keeps them sorted. */
  lemma SortedCons(x: Node, s: seq<Node>)
    requires SortedByName(s)
    requires forall j :: 0 <= j < |s| ==> !NameLess(s[j].name, x.name)
    ensures SortedByName([x] + s)
  {
    var r := [x] + s;
    forall i, j | 0 <= i < j < |r|
      ensures !NameLess(r[j].name, r[i].name)
    {
      if i > 0 {
        assert r[i] == s[i - 1] && r[j] == s[j - 1];
      } else {
        assert r[j] == s[j - 1];
      }
    }
  }

  /** Leaving entries out of a sorted sequence keeps it sorted. */
  lemma {:induction false} SubsequenceSorted(r: seq<Node>, s: seq<Node>)
    requires IsSubsequence(r, s) && SortedByName(s)
    ensures SortedByName(r)
    decreases |s|
  {
    if |r| > 0 {
      assert SortedByName(s[1..]) by {
        forall i, j | 0 <= i < j < |s[1..]|
          ensures !NameLess(s[1..][j].name, s[1..][i].name)
        {
          assert s[1..][i] == s[i + 1] && s[1..][j] == s[j + 1];
        }
      }
      if r[0] == s[0] && IsSubsequence(r[1..], s[1..]) {
        SubsequenceSorted(r[1..], s[1..]);
        SubsequenceMembers(r[1..], s[1..]);
        forall j | 0 <= j < |r[1..]|
          ensures !NameLess(r[1..][j].name, r[0].name)
        {
          var k := IndexOf(r[1..][j], s[1..]);
          assert s[k + 1] == r[1..][j];
        }
        SortedCons(r[0], r[1..]);
        assert r == [r[0]] + r[1..];
      } else {
        SubsequenceSorted(r, s[1..]);
      }
    }
  }

  /** Insert `x` before the first entry whose name is not smaller, so entries
      with equal names keep their relative order. */
  function InsertByName(x: Node, s: seq<Node>): (r: seq<Node>)
    requires SortedByName(s)
    ensures SortedByName(r)
    ensures multiset(r) == multiset(s) + multiset{x}
    decreases |s|
  {
    if |s| == 0 || !NameLess(s[0].name, x.name) then
      assert forall j :: 0 <= j < |s| ==> !NameLess(s[j].name, x.name) by {
        forall j | 0 < j < |s|
          ensures !NameLess(s[j].name, x.name)
        {
          NameAtMostTransitive(x.name, s[0].name, s[j].name);
        }
      }
      SortedCons(x, s);
      [x] + s
    else
      var rest := InsertByName(x, s[1..]);
      assert s == [s[0]] + s[1..];
      assert forall j :: 0 <= j < |rest| ==> !NameLess(rest[j].name, s[0].name) by {
        forall j | 0 <= j < |rest|
          ensures !NameLess(rest[j].name, s[0].name)
        {
          assert rest[j] in multiset(rest);
          if rest[j] == x {
            NameLessAsymmetric(s[0].name, x.name);
          } else {
            assert rest[j] in multiset(s[1..]);
            var k :| 0 <= k < |s[1..]| && s[1..][k] == rest[j];
            assert s[k + 1] == rest[j];
          }
        }
      }
      SortedCons(s[0], rest);
      [s[0]] + rest
  }

  /** `sorted(entries, key=lambda e: e.name)`: a stable sort by name. */
  function SortByName(s: seq<Node>): (r: seq<Node>)
    ensures SortedByName(r)
    ensures multiset(r) == multiset(s)
    decreases |s|
  {
    if |s| == 0 then []
    else
      assert s == [s[0]] + s[1..];
      InsertByName(s[0], SortByName(s[1..]))
  }
}
