/**
 * What a recursive copy of directory `from` into `to` leaves behind: every
 * entry inside `from` reappears at the same relative place inside `to`,
 * files with their (possibly rewritten) content, directories as
 * directories; `to` itself exists; nothing else changes.  The relation is
 * stated for the children of `from` whose names are in `names`, so that a
 * copy in progress (some children done) can be described too.
 */
module Mirror {
  import opened Wrappers
  import opened NodePath
  import opened Tree
  import opened Rewriting

  /** The entry inside `from` that destination `d` inside `to` copies. */
  function SourceOf(from: Path, to: Path, d: Path): Path
    requires Within(to, d)
  {
    from + d[|to|..]
  }

  /**
   * The children of `from` a copy has gone through: `None` for all of them,
   * `Some(done)` for those named in `done`.
   */
  predicate Selected(names: Option<set<string>>, n: string) {
    names.None? || n in names.value
  }

  /** `names` with `n` added. */
  function Added(names: Option<set<string>>, n: string): (r: Option<set<string>>)
    ensures forall k :: Selected(r, k) <==> Selected(names, k) || k == n
  {
    match names
    case None => None
    case Some(done) => Some(done + {n})
  }

  /** `d` is a destination whose source exists and lies under a selected child of `from`. */
  ghost predicate Mirrored(m: Entries, from: Path, to: Path, names: Option<set<string>>, d: Path) {
    Below(to, d) && Selected(names, d[|to|]) && SourceOf(from, to, d) in m
  }

  /** `d` is the destination of a copied file. */
  ghost predicate CopiedFile(m: Entries, from: Path, to: Path, names: Option<set<string>>, d: Path) {
    Mirrored(m, from, to, names, d) && m[SourceOf(from, to, d)].File?
  }

  /**
   * The entry at `d` after the copy: the source file's transformed content,
   * or what was there before (an existing directory is reused), or a new
   * directory.
   */
  ghost function Expected(m: Entries, from: Path, to: Path, cb: Option<Rewrite>, names: Option<set<string>>, d: Path): Entry {
    if CopiedFile(m, from, to, names, d) then File(Transform(cb, d, m[SourceOf(from, to, d)].content))
    else if d in m then m[d]
    else Dir
  }

  /** `r` is `m` after copying the selected children of `from` into `to`. */
  ghost predicate MirrorOf(m: Entries, r: Entries, from: Path, to: Path, cb: Option<Rewrite>, names: Option<set<string>>) {
    && (forall d :: d in r <==> d in m || d == to || Mirrored(m, from, to, names, d))
    && (forall d :: d in r ==> r[d] == Expected(m, from, to, cb, names, d))
  }

  /**
   * What every copy step keeps, whether the copy succeeds or not: nothing is
   * removed, nothing outside `to` changes, directories stay directories and
   * locked paths are neither created nor changed.
   */
  ghost predicate Grows(m: Entries, r: Entries, to: Path, locked: set<Path>) {
    && (forall q :: q in m ==> q in r)
    && (forall q :: q in r && !Within(to, q) ==> q in m && r[q] == m[q])
    && (forall q :: q in m && m[q].Dir? ==> r[q].Dir?)
    && (forall q :: q in r && q in locked ==> q in m && r[q] == m[q])
  }

  /**
   * A copy into a fresh destination: `from` is a directory, `to` does not
   * exist but can be created, and neither `to` nor any destination is locked.
   */
  ghost predicate CanMirror(m: Entries, locked: set<Path>, from: Path, to: Path) {
    && from in m && m[from].Dir?
    && to != [] && to !in m && ParentReady(m, to) && to !in locked
    && (forall q :: q in m && Below(from, q) ==> to + q[|from|..] !in locked)
  }

  /**
   * The copy of `from` into `to` meets an entry it cannot write: a file
   * whose destination is locked or a directory, a directory whose
   * destination is missing and locked, so that `mkdir` is refused, or an
   * entry whose destination would sit inside a file.
   */
  ghost predicate Refused(m: Entries, locked: set<Path>, from: Path, to: Path) {
    exists q :: q in m && Within(from, q) && Blocked(m, locked, from, to, q)
  }

  /** The entry at `q` inside `from` cannot be written to its destination inside `to`. */
  ghost predicate Blocked(m: Entries, locked: set<Path>, from: Path, to: Path, q: Path)
    requires q in m && Within(from, q)
  {
    var d := to + q[|from|..];
    || (m[q].File? && q != from && (d in locked || (d in m && m[d].Dir?)))
    || (m[q].Dir? && d !in m && d in locked)
    || (q != from && to + q[|from|..|q| - 1] in m && m[to + q[|from|..|q| - 1]].File?)
  }

  /** A child file of `from` whose destination is locked refuses the copy, whatever that destination holds. */
  lemma LockedChildRefused(m: Entries, locked: set<Path>, from: Path, to: Path, n: string)
    requires from + [n] in m && m[from + [n]].File? && to + [n] in locked
    ensures Refused(m, locked, from, to)
  {
    var q := from + [n];
    assert q[..|from|] == from && q[|from|..] == [n];
    assert Blocked(m, locked, from, to, q);
  }

  /** No file the copy of the selected children wrote lies at a locked path. */
  ghost predicate WritesUnlocked(m: Entries, from: Path, to: Path, names: Option<set<string>>, locked: set<Path>) {
    forall d :: CopiedFile(m, from, to, names, d) ==> d !in locked
  }

  /**
   * A copy that mirrors all of `from` into `to`, keeps the growth frame and
   * wrote no locked path met no entry it could not write.
   */
  lemma RefusedFails(m: Entries, r: Entries, locked: set<Path>, from: Path, to: Path, cb: Option<Rewrite>)
    requires WellFormed(m) && WellFormed(r)
    requires Grows(m, r, to, locked) && MirrorOf(m, r, from, to, cb, None)
    requires WritesUnlocked(m, from, to, None, locked)
    ensures !Refused(m, locked, from, to)
  {
    forall q | q in m && Within(from, q) ensures !Blocked(m, locked, from, to, q) {
      NotBlocked(m, r, locked, from, to, cb, q);
    }
  }

  lemma NotBlocked(m: Entries, r: Entries, locked: set<Path>, from: Path, to: Path, cb: Option<Rewrite>, q: Path)
    requires WellFormed(m) && WellFormed(r)
    requires Grows(m, r, to, locked) && MirrorOf(m, r, from, to, cb, None)
    requires WritesUnlocked(m, from, to, None, locked)
    requires q in m && Within(from, q)
    ensures !Blocked(m, locked, from, to, q)
  {
    if q == from {
      assert q[|from|..] == [];
      MirrorRoot(m, r, from, to, cb, None);
    } else {
      WithinOrBelow(from, q);
      CopiedDest(m, r, locked, from, to, cb, q);
      NotInFile(m, r, from, to, cb, q);
    }
  }

  /**
   * The destination of an entry strictly inside `from` is in the copy; it
   * was locked only if it existed before, and for a file it was neither
   * locked nor a directory.
   */
  lemma CopiedDest(m: Entries, r: Entries, locked: set<Path>, from: Path, to: Path, cb: Option<Rewrite>, q: Path)
    requires WellFormed(r) && Grows(m, r, to, locked) && MirrorOf(m, r, from, to, cb, None)
    requires WritesUnlocked(m, from, to, None, locked)
    requires q in m && Below(from, q)
    ensures to + q[|from|..] in r
    ensures to + q[|from|..] in locked ==> to + q[|from|..] in m
    ensures m[q].File? ==> to + q[|from|..] !in locked && !(to + q[|from|..] in m && m[to + q[|from|..]].Dir?)
  {
    var d := to + q[|from|..];
    assert d[..|to|] == to && d[|to|..] == q[|from|..];
    assert SourceOf(from, to, d) == q;
    assert Mirrored(m, from, to, None, d);
  }

  /** A copied entry's destination does not sit in a file. */
  lemma NotInFile(m: Entries, r: Entries, from: Path, to: Path, cb: Option<Rewrite>, q: Path)
    requires WellFormed(m) && WellFormed(r) && MirrorOf(m, r, from, to, cb, None)
    requires q in m && Below(from, q)
    requires to + q[|from|..] in r
    ensures !(to + q[|from|..|q| - 1] in m && m[to + q[|from|..|q| - 1]].File?)
  {
    var pd := to + q[|from|..|q| - 1];
    if pd in m && m[pd].File? {
      var d := to + q[|from|..];
      DestParent(from, to, q);
      assert pd != [] && d in r;
      assert ParentIsDir(r, d);
      ParentNotCopied(m, from, to, q);
      KeptEntry(m, r, from, to, cb, None, pd);
    }
  }

  /** The destination of `q` sits in the destination of the directory holding `q`. */
  lemma DestParent(from: Path, to: Path, q: Path)
    requires Below(from, q)
    ensures |to + q[|from|..]| == |to + q[|from|..|q| - 1]| + 1
    ensures (to + q[|from|..])[..|to + q[|from|..]| - 1] == to + q[|from|..|q| - 1]
  {
    assert q[|from|..] == q[|from|..|q| - 1] + [q[|q| - 1]];
  }

  /** The destination of the directory holding `q` is not a copied file. */
  lemma ParentNotCopied(m: Entries, from: Path, to: Path, q: Path)
    requires WellFormed(m) && q in m && Below(from, q)
    ensures !CopiedFile(m, from, to, None, to + q[|from|..|q| - 1])
  {
    var pd := to + q[|from|..|q| - 1];
    if pd != to {
      assert |q| > 1;
      assert pd[..|to|] == to && pd[|to|..] == q[|from|..|q| - 1];
      assert SourceOf(from, to, pd) == q[..|q| - 1];
      assert ParentIsDir(m, q);
    }
  }

  /** An entry of the tree before the copy that is no copied file keeps its place and value. */
  lemma KeptEntry(m: Entries, r: Entries, from: Path, to: Path, cb: Option<Rewrite>, names: Option<set<string>>, d: Path)
    requires MirrorOf(m, r, from, to, cb, names)
    requires d in m && !CopiedFile(m, from, to, names, d)
    ensures d in r && r[d] == m[d]
  {
  }

  /** `to` exists, or `mkdir` can place it because its parent directory exists. */
  ghost predicate Placeable(m: Entries, to: Path) {
    to in m || ParentReady(m, to)
  }

  /** A copy into a fresh destination meets nothing it cannot write. */
  lemma CanMirrorNotRefused(m: Entries, locked: set<Path>, from: Path, to: Path)
    requires WellFormed(m) && CanMirror(m, locked, from, to)
    ensures Placeable(m, to) && !Refused(m, locked, from, to)
  {
    forall q | q in m && Within(from, q) ensures !Blocked(m, locked, from, to, q) {
      var d := to + q[|from|..];
      assert d[..|to|] == to;
      WithinOrBelow(from, q);
      if q == from {
        assert d == to;
      } else {
        assert d !in locked;
        AbsentIsEmpty(m, to, d);
      }
      if q != from {
        var pd := to + q[|from|..|q| - 1];
        assert pd[..|to|] == to;
        WithinOrBelow(to, pd);
        AbsentIsEmpty(m, to, pd);
      }
    }
  }

  /** A missing, locked `to` refuses the copy of a directory: `mkdir` is refused. */
  lemma LockedRootRefused(m: Entries, locked: set<Path>, from: Path, to: Path)
    requires from in m && m[from].Dir? && to !in m && to in locked
    ensures Refused(m, locked, from, to)
  {
    assert to + from[|from|..] == to;
    assert Blocked(m, locked, from, to, from);
  }

  /** Before child `n` is copied, nothing within its destination differs from the tree the copy started from. */
  lemma PendingDest(m: Entries, r: Entries, from: Path, to: Path, cb: Option<Rewrite>,
                    names: Option<set<string>>, n: string, d: Path)
    requires MirrorOf(m, r, from, to, cb, names) && !Selected(names, n)
    requires Within(to + [n], d)
    ensures d in r <==> d in m
    ensures d in r ==> r[d] == m[d]
  {
    SourceOfChild(from, to, n, d);
    assert !Mirrored(m, from, to, names, d);
  }

  /** A copy that is not refused and has a child to copy finds `to` a directory. */
  lemma ToIsDir(m: Entries, r: Entries, locked: set<Path>, from: Path, to: Path, cb: Option<Rewrite>,
                names: Option<set<string>>, n: string)
    requires MirrorOf(m, r, from, to, cb, names) && from + [n] in m && !Refused(m, locked, from, to)
    ensures to in r && r[to].Dir?
  {
    MirrorRoot(m, r, from, to, cb, names);
    var q := from + [n];
    assert q[..|from|] == from && q[|from|..|q| - 1] == [];
    assert to + q[|from|..|q| - 1] == to;
    if to in m {
      assert !Mirrored(m, from, to, names, to);
      assert !Blocked(m, locked, from, to, q);
    }
  }

  /** In a copy that is not refused, a pending file child can be written to its destination. */
  lemma FileDestFree(m: Entries, r: Entries, locked: set<Path>, from: Path, to: Path, cb: Option<Rewrite>,
                     names: Option<set<string>>, n: string)
    requires MirrorOf(m, r, from, to, cb, names) && !Selected(names, n)
    requires from + [n] in m && m[from + [n]].File? && !Refused(m, locked, from, to)
    ensures to + [n] !in locked && !(to + [n] in r && r[to + [n]].Dir?)
  {
    var q := from + [n];
    assert q[..|from|] == from && q[|from|..] == [n];
    assert !Blocked(m, locked, from, to, q);
    PendingDest(m, r, from, to, cb, names, n, to + [n]);
  }

  /** What the copy of a pending child directory `n` cannot write, the whole copy cannot write either. */
  lemma RefusedChild(m: Entries, r: Entries, locked: set<Path>, from: Path, to: Path, cb: Option<Rewrite>,
                     names: Option<set<string>>, n: string)
    requires Apart(from, to) && Grows(m, r, to, locked)
    requires MirrorOf(m, r, from, to, cb, names) && !Selected(names, n)
    requires Refused(r, locked, from + [n], to + [n])
    ensures Refused(m, locked, from, to)
  {
    var nf, nt := from + [n], to + [n];
    var q :| q in r && Within(nf, q) && Blocked(r, locked, nf, nt, q);
    InsideChild(from, n, q);
    GrowsApart(m, r, from, to, locked);
    DestOfChild(from, to, n, q);
    PendingDest(m, r, from, to, cb, names, n, nt + q[|nf|..]);
    if q != nf {
      PendingParent(m, r, from, to, cb, names, n, q);
    }
    assert Blocked(m, locked, from, to, q);
  }

  /** The same for the destination of the directory holding an entry strictly inside child `n`. */
  lemma PendingParent(m: Entries, r: Entries, from: Path, to: Path, cb: Option<Rewrite>,
                      names: Option<set<string>>, n: string, q: Path)
    requires MirrorOf(m, r, from, to, cb, names) && !Selected(names, n)
    requires Within(from + [n], q) && q != from + [n]
    ensures (to + [n]) + q[|from| + 1..|q| - 1] == to + q[|from|..|q| - 1]
    ensures to + q[|from|..|q| - 1] in r <==> to + q[|from|..|q| - 1] in m
    ensures to + q[|from|..|q| - 1] in r ==> r[to + q[|from|..|q| - 1]] == m[to + q[|from|..|q| - 1]]
  {
    var pd := to + q[|from|..|q| - 1];
    InsideChild(from, n, q);
    assert q[|from|..|q| - 1] == [n] + q[|from| + 1..|q| - 1];
    assert (to + [n]) + q[|from| + 1..|q| - 1] == pd;
    PendingDest(m, r, from, to, cb, names, n, pd);
  }

  lemma GrowsTrans(a: Entries, b: Entries, c: Entries, t: Path, t': Path, locked: set<Path>)
    requires Grows(a, b, t, locked) && Grows(b, c, t', locked) && Within(t, t')
    ensures Grows(a, c, t, locked)
  {
    forall q | q in c && !Within(t, q) ensures q in a && c[q] == a[q] {
      assert !Within(t', q);
    }
  }

  /** Before any child is copied, the mirror holds `to` and nothing else new. */
  lemma MirrorStart(m: Entries, r: Entries, from: Path, to: Path, cb: Option<Rewrite>)
    requires r == if to in m then m else m[to := Dir]
    ensures MirrorOf(m, r, from, to, cb, Some({}))
  {
  }

  /** The source of a destination under `to + [n]` lies under `from + [n]`, at the same relative place. */
  lemma SourceOfChild(from: Path, to: Path, n: string, d: Path)
    requires Within(to + [n], d)
    ensures Within(to, d) && d[|to|] == n
    ensures SourceOf(from + [n], to + [n], d) == SourceOf(from, to, d)
  {
    assert d[..|to|] == (to + [n])[..|to|] == to;
    assert d[|to|] == (to + [n])[|to|];
    assert d[|to|..] == [n] + d[|to| + 1..];
  }

  /** A destination under `to` whose first name is `n` lies within `to + [n]`. */
  lemma ChildOfDest(to: Path, n: string, d: Path)
    requires Below(to, d) && d[|to|] == n
    ensures Within(to + [n], d)
  {
    assert d[..|to| + 1] == d[..|to|] + [d[|to|]];
  }

  /** Copying one more child that is a file writes its destination and nothing else. */
  lemma MirrorFileStep(m: Entries, r: Entries, r': Entries, from: Path, to: Path, cb: Option<Rewrite>,
                       names: Option<set<string>>, n: string)
    requires WellFormed(m) && Apart(from, to)
    requires MirrorOf(m, r, from, to, cb, names) && !Selected(names, n)
    requires from + [n] in m && m[from + [n]].File?
    requires r' == r[to + [n] := File(Transform(cb, to + [n], m[from + [n]].content))]
    ensures MirrorOf(m, r', from, to, cb, Added(names, n))
  {
    var c := to + [n];
    var names' := Added(names, n);
    SourceOfChild(from, to, n, c);
    assert SourceOf(from + [n], c, c) == from + [n];
    forall d
      ensures (d in r' <==> d in m || d == to || Mirrored(m, from, to, names', d))
      ensures d in r' ==> r'[d] == Expected(m, from, to, cb, names', d)
    {
      if Within(c, d) && d != c {
        SourceOfChild(from, to, n, d);
        var s := SourceOf(from, to, d);
        assert Below(from + [n], s) by {
          assert s == (from + [n]) + d[|c|..];
        }
        FileIsLeaf(m, from + [n], s);
      } else if d != c && Below(to, d) && d[|to|] == n {
        ChildOfDest(to, n, d);
      }
    }
  }

  /** Of the files copied once file child `n` is done, only `to + [n]` is new. */
  lemma CopiedFileStep(m: Entries, from: Path, to: Path, names: Option<set<string>>, n: string)
    requires WellFormed(m) && from + [n] in m && m[from + [n]].File?
    ensures forall d :: CopiedFile(m, from, to, Added(names, n), d) ==> CopiedFile(m, from, to, names, d) || d == to + [n]
  {
    forall d | CopiedFile(m, from, to, Added(names, n), d) && !CopiedFile(m, from, to, names, d)
      ensures d == to + [n]
    {
      ChildOfDest(to, n, d);
      SourceOfChild(from, to, n, d);
      var s := SourceOf(from, to, d);
      assert s == (from + [n]) + d[|to + [n]|..];
      FileIsLeaf(m, from + [n], s);
      assert |d| == |to + [n]|;
    }
  }

  /** Copying one more child that is a directory composes with the recursive copy of that child. */
  lemma MirrorDirStep(m: Entries, r: Entries, r': Entries, from: Path, to: Path, cb: Option<Rewrite>,
                      names: Option<set<string>>, n: string)
    requires Apart(from, to)
    requires MirrorOf(m, r, from, to, cb, names) && !Selected(names, n)
    requires from + [n] in m && m[from + [n]].Dir?
    requires MirrorOf(r, r', from + [n], to + [n], cb, None)
    ensures MirrorOf(m, r', from, to, cb, Added(names, n))
    ensures forall d :: CopiedFile(m, from, to, Added(names, n), d) <==>
      CopiedFile(m, from, to, names, d) || CopiedFile(r, from + [n], to + [n], None, d)
  {
    var c := to + [n];
    var names' := Added(names, n);
    forall d
      ensures (d in r' <==> d in m || d == to || Mirrored(m, from, to, names', d))
      ensures d in r' ==> r'[d] == Expected(m, from, to, cb, names', d)
      ensures CopiedFile(m, from, to, names', d) <==>
        CopiedFile(m, from, to, names, d) || CopiedFile(r, from + [n], c, None, d)
    {
      if d == c {
        SourceOfChild(from, to, n, d);
        assert !Mirrored(m, from, to, names, c);
        assert c in r <==> c in m;
        assert c in r ==> r[c] == m[c];
        assert !CopiedFile(m, from, to, names', c);
        assert !CopiedFile(r, from + [n], c, None, c);
      } else if Within(c, d) {
        SourceOfChild(from, to, n, d);
        var s := SourceOf(from, to, d);
        assert Within(from, s);
        ApartStaysApart(from, to, s);
        assert s in r <==> s in m;
        assert s in m ==> r[s] == m[s];
        assert !Mirrored(m, from, to, names, d);
        assert d in r <==> d in m;
        assert d in r ==> r[d] == m[d];
        assert Mirrored(r, from + [n], c, None, d) <==> Mirrored(m, from, to, names', d);
      } else {
        if Below(to, d) && d[|to|] == n {
          ChildOfDest(to, n, d);
        }
        assert Mirrored(m, from, to, names', d) <==> Mirrored(m, from, to, names, d);
        assert !Mirrored(r, from + [n], c, None, d);
        assert d in r' <==> d in r;
        assert d in r' ==> r'[d] == r[d];
      }
    }
  }

  /** Once every child of `from` has been copied, the copy covers all of `from`. */
  lemma MirrorWiden(m: Entries, r: Entries, from: Path, to: Path, cb: Option<Rewrite>, names: Option<set<string>>)
    requires WellFormed(m)
    requires MirrorOf(m, r, from, to, cb, names)
    requires forall n :: from + [n] in m ==> Selected(names, n)
    ensures MirrorOf(m, r, from, to, cb, None)
    ensures forall d :: CopiedFile(m, from, to, names, d) <==> CopiedFile(m, from, to, None, d)
  {
    forall d | Below(to, d) && SourceOf(from, to, d) in m ensures Selected(names, d[|to|]) {
      var s := SourceOf(from, to, d);
      assert Below(from, s) && s[|from|] == d[|to|];
      ChildOnTheWay(m, from, s);
    }
  }

  /** The names done after one more step of a walk over a listing without repeats. */
  lemma DoneGrows(names: seq<string>, i: nat, done: set<string>)
    requires Distinct(names) && i < |names|
    requires forall k :: k in done <==> k in names[..i]
    ensures names[i] !in done
    ensures forall k :: k in done + {names[i]} <==> k in names[..i + 1]
  {
    FreshName(names, i);
    assert names[..i + 1] == names[..i] + [names[i]];
  }

  /** Once the whole listing is done, every child of `from` has been selected. */
  lemma ListedDone(m0: Entries, from: Path, names: seq<string>, done: set<string>)
    requires forall n :: n in names <==> from + [n] in m0
    requires forall k :: k in done <==> k in names[..|names|]
    ensures forall n :: from + [n] in m0 ==> Selected(Some(done), n)
  {
    assert names[..|names|] == names;
  }

  /** Writing a file inside `to` at an unlocked place that is not a directory keeps the growth frame. */
  lemma GrowsWrite(m0: Entries, r: Entries, to: Path, locked: set<Path>, d: Path, data: string)
    requires Grows(m0, r, to, locked)
    requires Within(to, d) && d !in locked && !(d in r && r[d].Dir?)
    ensures Grows(m0, r[d := File(data)], to, locked)
  {
  }

  /** A copy into `to` leaves everything outside `to` as it was. */
  lemma MirrorOutside(m0: Entries, r: Entries, from: Path, to: Path, cb: Option<Rewrite>,
                      names: Option<set<string>>, q: Path)
    requires MirrorOf(m0, r, from, to, cb, names) && !Within(to, q)
    ensures q in r <==> q in m0
    ensures q in r ==> r[q] == m0[q]
  {
    assert q != to && !Mirrored(m0, from, to, names, q);
  }

  /** A copy into `to` leaves `to` in place, and makes it a directory if it was missing. */
  lemma MirrorRoot(m0: Entries, r: Entries, from: Path, to: Path, cb: Option<Rewrite>, names: Option<set<string>>)
    requires MirrorOf(m0, r, from, to, cb, names)
    ensures to in r && (to !in m0 ==> r[to] == Dir)
  {
    assert !Mirrored(m0, from, to, names, to);
  }

  /** The destination of an entry under child `n` is the same, seen from `from` or from `from + [n]`. */
  lemma DestOfChild(from: Path, to: Path, n: string, q: Path)
    requires Within(from + [n], q)
    ensures (to + [n]) + q[|from| + 1..] == to + q[|from|..]
  {
    InsideChild(from, n, q);
    calc {
      to + q[|from|..];
      { assert q[|from|..] == [n] + q[|from| + 1..]; }
      to + ([n] + q[|from| + 1..]);
      (to + [n]) + q[|from| + 1..];
    }
  }

  /** A copy into `to`, apart from `from`, has added nothing within `from`. */
  lemma GrowsApart(m0: Entries, r: Entries, from: Path, to: Path, locked: set<Path>)
    requires Grows(m0, r, to, locked) && Apart(from, to)
    ensures forall q :: q in r && Within(from, q) ==> q in m0 && r[q] == m0[q]
  {
    forall q | q in r && Within(from, q) ensures q in m0 && r[q] == m0[q] {
      ApartStaysApart(from, to, q);
    }
  }

  /**
   * A copy into a destination that was first cleared: apart from `to`
   * itself, `to + rel` exists exactly when `from + rel` does, holding the
   * source file's transformed content or a directory, and nothing outside
   * `to` differs from the tree before the clearing.
   */
  lemma MirrorIntoPruned(m: Entries, r: Entries, from: Path, to: Path, cb: Option<Rewrite>)
    requires WellFormed(m) && Apart(from, to)
    requires MirrorOf(Pruned(m, to), r, from, to, cb, None)
    ensures to in r && r[to] == Dir
    ensures forall rel :: rel != [] ==> (to + rel in r <==> from + rel in m)
    ensures forall rel :: rel != [] && from + rel in m ==>
      r[to + rel] == if m[from + rel].File? then File(Transform(cb, to + rel, m[from + rel].content)) else Dir
    ensures forall q :: !Within(to, q) ==> (q in r <==> q in m)
    ensures forall q :: !Within(to, q) && q in r ==> r[q] == m[q]
  {
    var pm := Pruned(m, to);
    assert Within(to, to);
    MirrorRoot(pm, r, from, to, cb, None);
    forall rel | rel != []
      ensures to + rel in r <==> from + rel in m
      ensures from + rel in m ==>
        r[to + rel] == if m[from + rel].File? then File(Transform(cb, to + rel, m[from + rel].content)) else Dir
    {
      PrunedEntry(m, r, from, to, cb, rel);
    }
    forall q | !Within(to, q) ensures (q in r <==> q in m) && (q in r ==> r[q] == m[q]) {
      MirrorOutside(pm, r, from, to, cb, None, q);
    }
  }

  lemma PrunedEntry(m: Entries, r: Entries, from: Path, to: Path, cb: Option<Rewrite>, rel: Path)
    requires Apart(from, to) && rel != []
    requires MirrorOf(Pruned(m, to), r, from, to, cb, None)
    ensures to + rel in r <==> from + rel in m
    ensures from + rel in m ==>
      r[to + rel] == if m[from + rel].File? then File(Transform(cb, to + rel, m[from + rel].content)) else Dir
  {
    var pm := Pruned(m, to);
    var d := to + rel;
    assert d[..|to|] == to && d[|to|..] == rel;
    assert SourceOf(from, to, d) == from + rel;
    assert (from + rel)[..|from|] == from;
    ApartStaysApart(from, to, from + rel);
    assert d !in pm;
  }
}
