/**
 * POSIX path-string operations the tool relies on: `os.path.join`,
 * `os.path.basename`, `os.path.splitext` and `os.path.relpath` (the last
 * only for the paths a walk from "." produces).
 */
module Paths {

  const Sep: char := '/'

  /** A directory-entry name as a POSIX file system lists it. */
  predicate IsName(s: string) {
    |s| > 0 && Sep !in s && s != "." && s != ".."
  }

  /** `a` is a (possibly empty) suffix of `b`. */
  predicate IsSuffix(a: string, b: string) {
    |a| <= |b| && b[|b| - |a|..] == a
  }

  /** A directory path a walk can stand on: non-empty, no trailing separator. */
  predicate IsDirPath(t: string) {
    |t| > 0 && t[|t| - 1] != Sep
  }

  /** `os.path.join(a, b)`: an absolute `b` replaces `a`; otherwise a separator
      is inserted unless `a` is empty or already ends in one. */
  function Join(a: string, b: string): (r: string)
    ensures |b| <= |r| && r[|r| - |b|..] == b
    ensures IsDirPath(a) && IsName(b) ==> r == a + [Sep] + b
  {
    if |b| > 0 && b[0] == Sep then b
    else if |a| == 0 || a[|a| - 1] == Sep then a + b
    else a + [Sep] + b
  }

  /** `os.path.basename(p)`: everything after the last separator. */
  function Basename(p: string): (r: string)
    ensures IsSuffix(r, p) && Sep !in r
    ensures |r| < |p| ==> p[|p| - |r| - 1] == Sep
  {
    if |p| == 0 || p[|p| - 1] == Sep then ""
    else Basename(p[..|p| - 1]) + [p[|p| - 1]]
  }

  /** The base name of a joined path is the name that was joined on. */
  lemma BasenameOfJoin(a: string, b: string)
    requires IsName(b)
    ensures Basename(Join(a, b)) == b
  {
    if |a| == 0 {
      BasenameWithoutSep(b);
    } else if a[|a| - 1] == Sep {
      assert a + b == a[..|a| - 1] + [Sep] + b;
      BasenameAfterSep(a[..|a| - 1], b);
    } else {
      BasenameAfterSep(a, b);
    }
  }

  /** Whatever follows the last separator is the base name. */
  lemma {:induction false} BasenameAfterSep(q: string, b: string)
    requires Sep !in b
    ensures Basename(q + [Sep] + b) == b
    decreases |b|
  {
    if |b| > 0 {
      var p := q + [Sep] + b;
      assert p[..|p| - 1] == q + [Sep] + b[..|b| - 1];
      BasenameAfterSep(q, b[..|b| - 1]);
    }
  }

  /** A path without separators is its own base name. */
  lemma {:induction false} BasenameWithoutSep(b: string)
    requires Sep !in b
    ensures Basename(b) == b
    decreases |b|
  {
    if |b| > 0 {
      BasenameWithoutSep(b[..|b| - 1]);
    }
  }

  /** Index of the last occurrence of `c` in `s`, or -1 (`str.rfind`). */
  function LastIndexOf(s: string, c: char): (r: int)
    ensures -1 <= r < |s|
    ensures r >= 0 ==> s[r] == c
    ensures forall k :: r < k < |s| ==> s[k] != c
  {
    if |s| == 0 then -1
    else if s[|s| - 1] == c then |s| - 1
    else LastIndexOf(s[..|s| - 1], c)
  }

  /** The extension `os.path.splitext` reports. It starts at the last dot of the
      base name, and only if some character other than a dot comes before that
      dot in the base name (so ".bashrc" and "..x" have none). The CPython
      routine scans the whole path between the last separator and the last
      dot, which is exactly the base name. */
  function Extension(p: string): (r: string)
    ensures r == "" || (r[0] == '.' && IsSuffix(r, Basename(p)) && '.' !in r[1..])
  {
    var b := Basename(p);
    var d := LastIndexOf(b, '.');
    if d > 0 && exists k :: 0 <= k < d && b[k] != '.' then
      LastDotSuffix(b, d);
      b[d..]
    else
      ""
  }

  /** The part of `b` from its last dot on. */
  lemma LastDotSuffix(b: string, d: int)
    requires 0 <= d < |b| && b[d] == '.' && forall k :: d < k < |b| ==> b[k] != '.'
    ensures b[d..][0] == '.' && IsSuffix(b[d..], b) && '.' !in b[d..][1..]
  {
    assert forall k :: 0 <= k < |b| - d - 1 ==> b[d..][1..][k] == b[d + 1 + k];
  }

  /** A path has a non-empty extension exactly when its base name has a dot
      preceded somewhere by a character that is not a dot. */
  lemma ExtensionPresent(p: string)
    ensures Extension(p) != "" <==>
      exists i, j :: 0 <= i < j < |Basename(p)| && Basename(p)[i] != '.' && Basename(p)[j] == '.'
  {
    var b := Basename(p);
    var d := LastIndexOf(b, '.');
    var cond := d > 0 && exists k :: 0 <= k < d && b[k] != '.';
    assert Extension(p) == if cond then b[d..] else "";
    DotAfterNonDot(b);
  }

  /** The test `Extension` makes on the last dot, restated over all dots. */
  lemma DotAfterNonDot(b: string)
    ensures (LastIndexOf(b, '.') > 0 && exists k :: 0 <= k < LastIndexOf(b, '.') && b[k] != '.') <==>
      exists i, j :: 0 <= i < j < |b| && b[i] != '.' && b[j] == '.'
  {
    var d := LastIndexOf(b, '.');
    if exists i, j :: 0 <= i < j < |b| && b[i] != '.' && b[j] == '.' {
      var i, j :| 0 <= i < j < |b| && b[i] != '.' && b[j] == '.';
      assert j <= d;
    }
  }

  /** `os.path.relpath(p, ".")` for the paths a walk from "." produces: such a
      path is "./" followed by a relative path, and the "./" is dropped. */
  function RelativeToDot(p: string): (r: string)
    ensures "./" <= p ==> p == "./" + r
    ensures !("./" <= p) ==> r == p
  {
    if |p| >= 2 && p[..2] == "./" then p[2..] else p
  }

  /** `p` lies strictly inside the directory whose path is `d`. */
  predicate Below(d: string, p: string) {
    d + [Sep] <= p
  }

  /** A name joined onto a directory path lies inside that directory. */
  lemma JoinBelow(t: string, a: string)
    requires IsDirPath(t) && IsName(a)
    ensures Below(t, Join(t, a))
  {
    assert (t + [Sep] + a)[..|t| + 1] == t + [Sep];
  }

  /** `p` names an entry of the directory `t` itself, not of a subdirectory. */
  predicate DirectlyIn(t: string, p: string) {
    Below(t, p) && Sep !in p[|t| + 1..]
  }

  /** A name joined onto a directory path is directly in that directory. */
  lemma JoinDirectlyIn(t: string, a: string)
    requires IsDirPath(t) && IsName(a)
    ensures DirectlyIn(t, Join(t, a))
  {
    var p := t + [Sep] + a;
    assert p[..|t| + 1] == t + [Sep];
    assert p[|t| + 1..] == a;
  }

  /** Inside a directory inside `d` is inside `d`. */
  lemma BelowTransitive(d: string, e: string, p: string)
    requires Below(d, e) && Below(e, p)
    ensures Below(d, p)
  {
    assert p[..|d| + 1] == e[..|d| + 1];
  }

  /** Two sibling names whose directories both contain `p` are the same name. */
  lemma BelowSameName(t: string, a: string, b: string, p: string)
    requires Sep !in a && Sep !in b
    requires Below(t + [Sep] + a, p) && Below(t + [Sep] + b, p)
    ensures a == b
  {
    var k := |t| + 1;
    assert forall i :: 0 <= i < |a| ==> p[k + i] == a[i];
    assert forall i :: 0 <= i < |b| ==> p[k + i] == b[i];
    assert p[k + |a|] == Sep && p[k + |b|] == Sep;
    assert |a| == |b|;
  }

  /** A name joined directly onto `t` is not inside any sibling directory. */
  lemma NameNotBelow(t: string, a: string, f: string)
    requires Sep !in f
    ensures !Below(t + [Sep] + a, t + [Sep] + f)
  {
    var k := |t| + 1;
    var p := t + [Sep] + f;
    assert forall i :: 0 <= i < |f| ==> p[k + i] == f[i];
    assert |a| < |f| ==> p[k + |a|] != Sep;
    assert (t + [Sep] + a + [Sep])[k + |a|] == Sep;
  }

  /** `p` is the directory `d` itself or lies inside it. */
  predicate AtOrBelow(d: string, p: string) {
    p == d || Below(d, p)
  }

  /** No path is at or inside two sibling directories of different names. */
  lemma SiblingsApart(t: string, a: string, b: string, p: string)
    requires Sep !in a && Sep !in b
    requires AtOrBelow(t + [Sep] + a, p) && AtOrBelow(t + [Sep] + b, p)
    ensures a == b
  {
    var q, r := t + [Sep] + a, t + [Sep] + b;
    if p == q && p == r {
      assert a == q[|t| + 1..] && b == r[|t| + 1..];
    } else if p == q {
      NameNotBelow(t, b, a);
    } else if p == r {
      NameNotBelow(t, a, b);
    } else {
      BelowSameName(t, a, b, p);
    }
  }
}
