/**
 * The in-memory file tree the build script works on: a map from paths to
 * entries, where every entry below the top level sits in a directory that
 * is itself an entry.  The root (the empty path) is implicit and is never
 * an entry.
 */
module Tree {
  import opened NodePath

  datatype Entry = File(content: string) | Dir

  type Entries = map<Path, Entry>

  /** `q` lies strictly inside `p`. */
  predicate Below(p: Path, q: Path) {
    |p| < |q| && q[..|p|] == p
  }

  /** `q` is `p` or lies inside it. */
  predicate Within(p: Path, q: Path) {
    |p| <= |q| && q[..|p|] == p
  }

  /** Neither path lies within the other. */
  predicate Apart(p: Path, q: Path) {
    !Within(p, q) && !Within(q, p)
  }

  /** The directory an entry at `p` (|p| > 1) would sit in is a directory entry. */
  predicate ParentIsDir(m: Entries, p: Path)
    requires |p| > 1
  {
    p[..|p| - 1] in m && m[p[..|p| - 1]].Dir?
  }

  /** An entry may be created at `p`: it is a top-level name or its parent is a directory. */
  predicate ParentReady(m: Entries, p: Path) {
    |p| == 1 || (|p| > 1 && ParentIsDir(m, p))
  }

  /** Every entry is a non-root path whose parent directory exists. */
  ghost predicate WellFormed(m: Entries) {
    forall q :: q in m ==> q != [] && (|q| > 1 ==> ParentIsDir(m, q))
  }

  /** Some entry lies strictly inside `p`. */
  ghost predicate HasChildren(m: Entries, p: Path) {
    exists q :: q in m && Below(p, q)
  }

  /** Some locked path that exists lies at or inside `q`: such an entry can never be removed. */
  ghost predicate Pinned(m: Entries, locked: set<Path>, q: Path) {
    exists l :: l in locked && l in m && Within(q, l)
  }

  /** What lies within one of two apart paths does not lie within the other. */
  lemma ApartStaysApart(p: Path, q: Path, s: Path)
    requires Apart(p, q) && Within(p, s)
    ensures !Within(q, s)
  {
  }

  /** Every prefix of an entry's path is a directory entry. */
  lemma {:induction false} AncestorIsDir(m: Entries, q: Path, k: nat)
    requires WellFormed(m) && q in m
    requires 0 < k < |q|
    ensures q[..k] in m && m[q[..k]].Dir?
    decreases |q| - k
  {
    if k == |q| - 1 {
      assert q[..|q| - 1] == q[..k];
    } else {
      AncestorIsDir(m, q, k + 1);
      var a := q[..k + 1];
      assert a[..|a| - 1] == q[..k];
    }
  }

  /** An entry strictly inside `p` lies within one of `p`'s children, which is a directory or the entry itself. */
  lemma ChildOnTheWay(m: Entries, p: Path, q: Path)
    requires WellFormed(m) && q in m && Below(p, q)
    ensures p + [q[|p|]] in m && Within(p + [q[|p|]], q)
    ensures q != p + [q[|p|]] ==> m[p + [q[|p|]]].Dir?
    ensures p != [] ==> p in m && m[p].Dir?
  {
    assert q[..|p| + 1] == p + [q[|p|]];
    if |p| + 1 < |q| {
      AncestorIsDir(m, q, |p| + 1);
    } else {
      assert q == q[..|p| + 1];
    }
    if p != [] {
      AncestorIsDir(m, q, |p|);
    }
  }

  /** A file has nothing inside it. */
  lemma FileIsLeaf(m: Entries, p: Path, q: Path)
    requires WellFormed(m) && p in m && m[p].File?
    ensures !(q in m && Below(p, q))
  {
    if q in m && Below(p, q) {
      ChildOnTheWay(m, p, q);
      assert false;
    }
  }

  /** Nothing lies inside a path that is not an entry. */
  lemma AbsentIsEmpty(m: Entries, p: Path, q: Path)
    requires WellFormed(m) && p != [] && p !in m
    ensures !(q in m && Below(p, q))
  {
    if q in m && Below(p, q) {
      ChildOnTheWay(m, p, q);
      assert false;
    }
  }

  /** No element of the log lies strictly inside an element logged before it. */
  predicate ChildrenFirst(log: seq<Path>) {
    forall i, j :: 0 <= i < j < |log| ==> !Below(log[i], log[j])
  }

  predicate Distinct<T(==)>(s: seq<T>) {
    forall i, j :: 0 <= i < j < |s| ==> s[i] != s[j]
  }

  /** The tree without `p` and everything inside it. */
  ghost function Pruned(m: Entries, p: Path): (r: Entries)
    ensures forall q :: q in r <==> q in m && !Within(p, q)
    ensures forall q :: q in r ==> r[q] == m[q]
  {
    map q | q in m && !Within(p, q) :: m[q]
  }

  /** `r` is `m` with exactly the logged entries removed, the rest untouched. */
  ghost predicate RemovedOnly(m: Entries, r: Entries, log: seq<Path>) {
    && (forall q :: q in log ==> q in m)
    && (forall q :: q in r <==> q in m && q !in log)
    && (forall q :: q in r ==> r[q] == m[q])
  }

  /** The set of entries at or inside `p`: it shrinks with every removal, which ends a recursive delete. */
  ghost function Subtree(m: Entries, p: Path): set<Path> {
    set q | q in m && Within(p, q)
  }

  /** Appending a log whose entries never lie inside earlier ones keeps children before their directories. */
  lemma ChildrenFirstAppend(a: seq<Path>, b: seq<Path>)
    requires ChildrenFirst(a) && ChildrenFirst(b)
    requires forall x, y :: x in a && y in b ==> !Below(x, y)
    ensures ChildrenFirst(a + b)
  {
    forall i, j | 0 <= i < j < |a + b| ensures !Below((a + b)[i], (a + b)[j]) {
      if j >= |a| && i < |a| {
        assert (a + b)[i] in a && (a + b)[j] in b;
      } else if i >= |a| {
        assert (a + b)[i] == b[i - |a|] && (a + b)[j] == b[j - |a|];
      }
    }
  }

  lemma DistinctAppend<T>(a: seq<T>, b: seq<T>)
    requires Distinct(a) && Distinct(b)
    requires forall x :: x in a ==> x !in b
    ensures Distinct(a + b)
  {
    forall i, j | 0 <= i < j < |a + b| ensures (a + b)[i] != (a + b)[j] {
      if j >= |a| && i < |a| {
        assert (a + b)[i] in a && (a + b)[j] in b;
      } else if i >= |a| {
        assert (a + b)[i] == b[i - |a|] && (a + b)[j] == b[j - |a|];
      }
    }
  }

  /**
   * The tree once every entry at or inside `p` that is not pinned by a
   * locked entry is gone: what a delete that goes on past failures leaves.
   */
  ghost function Cleared(m: Entries, locked: set<Path>, p: Path): (r: Entries)
    ensures forall q :: q in r <==> q in m && !(Within(p, q) && !Pinned(m, locked, q))
    ensures forall q :: q in r ==> r[q] == m[q]
  {
    map q | q in m && !(Within(p, q) && !Pinned(m, locked, q)) :: m[q]
  }

  lemma WithinTrans(a: Path, b: Path, c: Path)
    requires Within(a, b) && Within(b, c)
    ensures Within(a, c)
  {
    assert c[..|a|] == c[..|b|][..|a|];
  }

  /** What lies within child `p + [n]` lies strictly inside `p` with first name `n`, and conversely. */
  lemma InsideChild(p: Path, n: string, q: Path)
    ensures Within(p + [n], q) <==> Below(p, q) && q[|p|] == n
  {
    if Within(p + [n], q) {
      assert q[..|p|] == (p + [n])[..|p|];
      assert q[|p|] == (p + [n])[|p|];
    }
    if Below(p, q) && q[|p|] == n {
      assert q[..|p| + 1] == q[..|p|] + [q[|p|]];
    }
  }

  /** What lies within `p` is `p` itself or lies strictly inside it. */
  lemma WithinOrBelow(p: Path, q: Path)
    ensures Within(p, q) ==> q == p || Below(p, q)
  {
    if |q| == |p| && Within(p, q) {
      assert q == q[..|p|];
    }
  }

  /** A child lies within a same-named child only when the parent lies within the other parent. */
  lemma ChildWithin(p: Path, q: Path, n: string)
    ensures Within(p + [n], q + [n]) ==> Within(p, q)
  {
    if |p| <= |q| {
      assert (q + [n])[..|p|] == q[..|p|];
      assert (p + [n])[..|p|] == p;
    }
  }

  /** Same-named children of two apart paths are apart. */
  lemma ApartChildren(p: Path, q: Path, n: string)
    requires Apart(p, q)
    ensures Apart(p + [n], q + [n])
  {
    ChildWithin(p, q, n);
    ChildWithin(q, p, n);
  }

  /** The first `i + 1` names are the first `i` followed by the next one. */
  lemma PrefixStep(list: seq<string>, i: nat)
    requires i < |list|
    ensures list[..i + 1] == list[..i] + [list[i]]
  {
  }

  /** A name not among the first `i` names of a list without repeats. */
  lemma FreshName(list: seq<string>, i: nat)
    requires Distinct(list) && i < |list|
    ensures list[i] !in list[..i]
  {
  }

  /** A removal that only takes unpinned entries leaves every locked entry in place. */
  lemma LockedSurvive(m0: Entries, m: Entries, locked: set<Path>, log: seq<Path>, l: Path)
    requires RemovedOnly(m0, m, log)
    requires forall q :: q in log ==> !Pinned(m0, locked, q)
    requires l in locked && l in m0
    ensures l in m
  {
    assert Within(l, l);
  }

  /** After such a removal, an entry pinned before is pinned still. */
  lemma StillPinned(m0: Entries, m: Entries, locked: set<Path>, log: seq<Path>, q: Path)
    requires RemovedOnly(m0, m, log)
    requires forall x :: x in log ==> !Pinned(m0, locked, x)
    requires Pinned(m0, locked, q)
    ensures Pinned(m, locked, q)
  {
    var l :| l in locked && l in m0 && Within(q, l);
    LockedSurvive(m0, m, locked, log, l);
  }

  /** Removing a file removes all that lies within it. */
  lemma PrunedLeaf(m: Entries, p: Path)
    requires WellFormed(m) && p in m && m[p].File?
    ensures m - {p} == Pruned(m, p)
  {
    forall q | q in m && Within(p, q) ensures q == p {
      if q != p { FileIsLeaf(m, p, q); }
    }
    assert forall q :: q in m - {p} <==> q in Pruned(m, p);
  }

  /** The entries within a child of `p` are fewer than those within `p`, even after some removals. */
  lemma SubtreeShrinks(m0: Entries, m1: Entries, p: Path, n: string)
    requires forall q :: q in m1 && Within(p, q) ==> q in m0
    requires p in m0
    ensures Subtree(m1, p + [n]) < Subtree(m0, p)
  {
    forall q | q in Subtree(m1, p + [n]) ensures q in Subtree(m0, p) {
      WithinTrans(p, p + [n], q);
    }
    assert p in Subtree(m0, p) && p !in Subtree(m1, p + [n]);
  }

  /** Nothing within a missing path: pruning it changes nothing. */
  lemma PrunedAbsent(m: Entries, p: Path)
    requires WellFormed(m) && p != [] && p !in m
    ensures Pruned(m, p) == m
  {
    forall q | q in m ensures !Within(p, q) {
      AbsentIsEmpty(m, p, q);
      WithinOrBelow(p, q);
    }
  }
}
