/**
 * The promise-based build of `build/index-async.js`: `deleteFileAsync`,
 * `copyFileAsync` and `compiler`.  The children of a directory are handled
 * by `Promise.all`: every child's work runs to its end even when a sibling
 * has failed, and the directory's own promise rejects with a failure.  The
 * model runs the children one after another (any order gives the same
 * tree, since siblings touch disjoint parts of it) and reports the first
 * failure met.
 */
module AsyncBuild {
  import opened Wrappers
  import opened NodePath
  import opened Tree
  import opened Fs
  import opened Rewriting
  import opened Mirror
  import JsString

  /**
   * The tree once every unpinned entry strictly inside `p` under a child
   * named in `done` has been removed.
   */
  ghost function ClearedUnder(m: Entries, locked: set<Path>, p: Path, done: seq<string>): (r: Entries)
    ensures forall q :: q in r <==> q in m && !(Below(p, q) && q[|p|] in done && !Pinned(m, locked, q))
    ensures forall q :: q in r ==> r[q] == m[q]
  {
    map q | q in m && !(Below(p, q) && q[|p|] in done && !Pinned(m, locked, q)) :: m[q]
  }

  /** Some locked entry lies strictly inside `p`, under a child named in `done`. */
  ghost predicate PinnedUnder(m: Entries, locked: set<Path>, p: Path, done: seq<string>) {
    exists l :: l in locked && l in m && Below(p, l) && l[|p|] in done
  }

  /** Clearing an entry that is a file removes it unless it is locked. */
  lemma ClearedLeaf(m: Entries, locked: set<Path>, p: Path)
    requires WellFormed(m) && p in m && m[p].File?
    ensures Pinned(m, locked, p) <==> p in locked
    ensures Cleared(m, locked, p) == if p in locked then m else m - {p}
  {
    forall q | q in m && Within(p, q) ensures q == p {
      WithinOrBelow(p, q);
      FileIsLeaf(m, p, q);
    }
    assert Within(p, p);
  }

  /** Clearing child `c = p + [n]` of the partly cleared tree extends the clearing of `p` by `n`. */
  lemma ClearChild(m0: Entries, locked: set<Path>, p: Path, done: seq<string>, n: string)
    requires n !in done
    ensures p + [n] in m0 ==> p + [n] in ClearedUnder(m0, locked, p, done)
    ensures Pinned(ClearedUnder(m0, locked, p, done), locked, p + [n]) <==> Pinned(m0, locked, p + [n])
    ensures Cleared(ClearedUnder(m0, locked, p, done), locked, p + [n]) == ClearedUnder(m0, locked, p, done + [n])
  {
    var m1 := ClearedUnder(m0, locked, p, done);
    var c := p + [n];
    forall q | Within(c, q) ensures Pinned(m1, locked, q) <==> Pinned(m0, locked, q) {
      InsideChild(p, n, q);
      if Pinned(m0, locked, q) {
        var l :| l in locked && l in m0 && Within(q, l);
        WithinTrans(c, q, l);
        InsideChild(p, n, l);
        assert Within(l, l);
        assert l in m1;
      }
    }
    forall q ensures q in Cleared(m1, locked, c) <==> q in ClearedUnder(m0, locked, p, done + [n]) {
      InsideChild(p, n, q);
    }
    assert Within(c, c);
    InsideChild(p, n, c);
  }

  /** A child pinned in the original tree shows as a locked entry under that child. */
  lemma PinnedChild(m0: Entries, locked: set<Path>, p: Path, done: seq<string>, n: string)
    ensures PinnedUnder(m0, locked, p, done + [n]) <==>
      PinnedUnder(m0, locked, p, done) || Pinned(m0, locked, p + [n])
  {
    forall l ensures Below(p, l) && l[|p|] in done + [n] <==>
      (Below(p, l) && l[|p|] in done) || Within(p + [n], l) {
      InsideChild(p, n, l);
    }
  }

  /** Every entry strictly inside `p` lies under a child named in the listing of `p`. */
  lemma Listed(m0: Entries, p: Path, names: seq<string>)
    requires WellFormed(m0) && p in m0
    requires forall n :: n in names <==> p + [n] in m0
    ensures forall q :: q in m0 && Below(p, q) ==> q[|p|] in names
  {
    forall q | q in m0 && Below(p, q) ensures q[|p|] in names {
      ChildOnTheWay(m0, p, q);
    }
  }

  /** Once the whole listing is gone through, `p` is pinned exactly when it or some entry under a child is locked. */
  lemma PinnedListed(m0: Entries, locked: set<Path>, p: Path, names: seq<string>)
    requires WellFormed(m0) && p in m0
    requires forall n :: n in names <==> p + [n] in m0
    ensures PinnedUnder(m0, locked, p, names) || p in locked <==> Pinned(m0, locked, p)
    ensures forall q :: Below(p, q) && Pinned(m0, locked, q) ==> PinnedUnder(m0, locked, p, names)
  {
    Listed(m0, p, names);
    forall q | Within(p, q) ensures q == p || Below(p, q) {
      WithinOrBelow(p, q);
    }
    assert Within(p, p);
    forall q | Below(p, q) && Pinned(m0, locked, q) ensures PinnedUnder(m0, locked, p, names) {
      var l :| l in locked && l in m0 && Within(q, l);
      SameFirstNameWithin(p, q, l);
    }
  }

  /** With every child cleared and none pinned, nothing is left inside `p`. */
  lemma ClearedEmpty(m0: Entries, locked: set<Path>, p: Path, names: seq<string>)
    requires WellFormed(m0) && p in m0
    requires forall n :: n in names <==> p + [n] in m0
    requires !PinnedUnder(m0, locked, p, names)
    ensures !HasChildren(ClearedUnder(m0, locked, p, names), p)
  {
    Listed(m0, p, names);
    PinnedListed(m0, locked, p, names);
  }

  /**
   * With every child cleared, the tree is the clearing of `p` once `p`
   * itself is removed when nothing inside it is locked, and as it stands
   * otherwise.
   */
  lemma ClearedDone(m0: Entries, locked: set<Path>, p: Path, names: seq<string>)
    requires WellFormed(m0) && p in m0
    requires forall n :: n in names <==> p + [n] in m0
    ensures !Pinned(m0, locked, p) ==> ClearedUnder(m0, locked, p, names) - {p} == Cleared(m0, locked, p)
    ensures Pinned(m0, locked, p) ==> ClearedUnder(m0, locked, p, names) == Cleared(m0, locked, p)
  {
    ClearedKeys(m0, locked, p, names);
    var r, c := ClearedUnder(m0, locked, p, names), Cleared(m0, locked, p);
    if Pinned(m0, locked, p) {
      SameEntries(r, c);
    } else {
      SameEntries(r - {p}, c);
    }
  }

  /** Away from `p` itself, clearing every listed child and clearing `p` remove the same paths. */
  lemma ClearedKeys(m0: Entries, locked: set<Path>, p: Path, names: seq<string>)
    requires WellFormed(m0) && p in m0
    requires forall n :: n in names <==> p + [n] in m0
    ensures forall q :: q != p ==> (q in ClearedUnder(m0, locked, p, names) <==> q in Cleared(m0, locked, p))
    ensures p in ClearedUnder(m0, locked, p, names)
    ensures p in Cleared(m0, locked, p) <==> Pinned(m0, locked, p)
  {
    Listed(m0, p, names);
    forall q | q != p ensures q in ClearedUnder(m0, locked, p, names) <==> q in Cleared(m0, locked, p) {
      WithinOrBelow(p, q);
    }
    assert Within(p, p);
  }

  /** Two trees with the same paths and the same entry at each path are equal. */
  lemma SameEntries(a: Entries, b: Entries)
    requires forall q :: q in a <==> q in b
    requires forall q :: q in a ==> a[q] == b[q]
    ensures a == b
  {
    assert a.Keys == b.Keys;
  }

  /** An entry within `q`, itself strictly inside `p`, lies under the same child of `p`. */
  lemma SameFirstNameWithin(p: Path, q: Path, l: Path)
    requires Below(p, q) && Within(q, l)
    ensures Below(p, l) && l[|p|] == q[|p|]
  {
  }

  /**
   * `deleteFileAsync`: removes `p` and everything inside it, going on past
   * failures.  A missing `p` is an error (ENOENT) and changes nothing.
   * Otherwise exactly the entries within `p` that hold no locked entry are
   * removed, whatever happens; the promise resolves exactly when nothing
   * within `p` is locked, and otherwise rejects with the permission error
   * of a locked entry within `p`.
   */
  method DeleteAsync(fs: FileSystem, p: Path) returns (out: Outcome)
    requires fs.Valid()
    modifies fs
    decreases Subtree(fs.entries, p), 2
    ensures fs.Valid()
    ensures p !in old(fs.entries) ==> out == Fail(NoEntry(p)) && fs.entries == old(fs.entries)
    ensures p in old(fs.entries) ==> fs.entries == Cleared(old(fs.entries), fs.locked, p)
    ensures p in old(fs.entries) ==> (out.Pass? <==> !Pinned(old(fs.entries), fs.locked, p))
    ensures p in old(fs.entries) && out.Fail? ==>
      out.error.Denied? && out.error.path in fs.locked && out.error.path in old(fs.entries) && Within(p, out.error.path)
  {
    ghost var m0 := fs.entries;
    var present := fs.Access(p);
    if !present {
      return Fail(NoEntry(p));
    }
    var st := fs.Stat(p);
    if st.value == FileKind {
      ClearedLeaf(m0, fs.locked, p);
      out := fs.Unlink(p);
      assert Within(p, p);
      return;
    }
    var listing := fs.Readdir(p);
    var names := listing.value;
    out := DeleteAllChildren(fs, p, names);
    PinnedListed(m0, fs.locked, p, names);
    ClearedDone(m0, fs.locked, p, names);
    if out.Pass? {
      ClearedEmpty(m0, fs.locked, p, names);
    }
    if out.Fail? {
      return;
    }
    out := fs.Rmdir(p);
    assert Within(p, p);
  }

  /**
   * The `Promise.all` of `deleteFileAsync` over the listing `names` of `p`:
   * every child is deleted, whatever its siblings did; the result is the
   * first failure, if any.  Afterwards exactly the unpinned entries
   * strictly inside `p` are gone, and the walk failed exactly when some
   * entry strictly inside `p` is locked.
   */
  method DeleteAllChildren(fs: FileSystem, p: Path, names: seq<string>) returns (out: Outcome)
    requires fs.Valid() && p in fs.entries
    requires Distinct(names) && forall n :: n in names <==> p + [n] in fs.entries
    modifies fs
    decreases Subtree(fs.entries, p), 1
    ensures fs.Valid()
    ensures fs.entries == ClearedUnder(old(fs.entries), fs.locked, p, names)
    ensures out.Pass? <==> !PinnedUnder(old(fs.entries), fs.locked, p, names)
    ensures out.Fail? ==> out.error.Denied? && out.error.path in fs.locked &&
                          out.error.path in old(fs.entries) && Below(p, out.error.path)
  {
    ghost var m0 := fs.entries;
    ghost var done: seq<string> := [];
    out := Pass;
    var i := 0;
    assert fs.entries == ClearedUnder(m0, fs.locked, p, done);
    while i < |names|
      invariant 0 <= i <= |names| && done == names[..i]
      invariant fs.Valid()
      invariant fs.entries == ClearedUnder(m0, fs.locked, p, done)
      invariant out.Pass? <==> !PinnedUnder(m0, fs.locked, p, done)
      invariant out.Fail? ==> out.error.Denied? && out.error.path in fs.locked &&
                              out.error.path in m0 && Below(p, out.error.path)
    {
      var n := names[i];
      FreshName(names, i);
      PrefixStep(names, i);
      var o := DeleteOneChild(fs, p, n, m0, done);
      PinnedChild(m0, fs.locked, p, done, n);
      if out.Pass? && o.Fail? {
        out := o;
      }
      done := done + [n];
      i := i + 1;
    }
    assert done == names;
  }

  /**
   * One child's promise in that walk: child `n` of `p` is unlinked if it is
   * a file and deleted recursively otherwise.  It rejects exactly when the
   * child holds a locked entry.
   */
  method DeleteOneChild(fs: FileSystem, p: Path, n: string, ghost m0: Entries, ghost done: seq<string>)
    returns (out: Outcome)
    requires fs.Valid() && WellFormed(m0) && p in m0 && p + [n] in m0 && n !in done
    requires fs.entries == ClearedUnder(m0, fs.locked, p, done)
    modifies fs
    decreases Subtree(m0, p), 0
    ensures fs.Valid()
    ensures fs.entries == ClearedUnder(m0, fs.locked, p, done + [n])
    ensures out.Pass? <==> !Pinned(m0, fs.locked, p + [n])
    ensures out.Fail? ==> out.error.Denied? && out.error.path in fs.locked &&
                          out.error.path in m0 && Below(p, out.error.path)
  {
    var c := p + [n];
    InsideChild(p, n, c);
    ghost var m1 := fs.entries;
    ClearChild(m0, fs.locked, p, done, n);
    var st := fs.Stat(c);
    if st.value == FileKind {
      ClearedLeaf(m1, fs.locked, c);
      out := fs.Unlink(c);
      assert Within(c, c);
    } else {
      SubtreeShrinks(m0, m1, p, n);
      out := DeleteAsync(fs, c);
      if out.Fail? {
        InsideChild(p, n, out.error.path);
      }
    }
  }

  /** The destination directory `to` exists, or can be made by `mkdir`. */
  ghost predicate Ready(m: Entries, locked: set<Path>, to: Path) {
    (to in m && m[to].Dir?) || (to != [] && to !in m && ParentReady(m, to) && to !in locked)
  }

  /** Nothing at or within `c` differs between `a` and `b`. */
  ghost predicate Untouched(a: Entries, b: Entries, c: Path) {
    forall q :: Within(c, q) ==> (q in a <==> q in b) && (q in b ==> b[q] == a[q])
  }

  /**
   * `copyFileAsync`: a missing `from` is an error (ENOENT) that changes
   * nothing, and a file is copied to `to` with `fs.copyFile`.  A directory
   * is copied into `to`, which is made first if missing, going through
   * every child whatever its siblings did.  Whatever happens the tree only
   * grows inside `to`.  On success `to` mirrors `from`.  A copy into a
   * fresh `to` whose destinations are all writable succeeds.  When `to` is
   * ready, every child file with a fresh, writable destination is copied
   * even if the copy as a whole fails.
   */
  method CopyAsync(fs: FileSystem, from: Path, to: Path) returns (out: Outcome)
    requires fs.Valid() && Apart(from, to)
    modifies fs
    decreases Subtree(fs.entries, from), 3
    ensures fs.Valid()
    ensures Grows(old(fs.entries), fs.entries, to, fs.locked)
    ensures from !in old(fs.entries) ==> out == Fail(NoEntry(from)) && fs.entries == old(fs.entries)
    ensures from in old(fs.entries) && old(fs.entries)[from].File? ==>
      out == WriteError(old(fs.entries), fs.locked, to) &&
      fs.entries == if out.Pass? then old(fs.entries)[to := old(fs.entries)[from]] else old(fs.entries)
    ensures from in old(fs.entries) && old(fs.entries)[from].Dir? && out.Pass? ==>
      MirrorOf(old(fs.entries), fs.entries, from, to, None, None)
    ensures CanMirror(old(fs.entries), fs.locked, from, to) ==> out.Pass?
    ensures from in old(fs.entries) && old(fs.entries)[from].Dir? && out.Pass? ==>
      WritesUnlocked(old(fs.entries), from, to, None, fs.locked)
    ensures from in old(fs.entries) && old(fs.entries)[from].Dir? ==>
      (out.Pass? <==> Placeable(old(fs.entries), to) && !Refused(old(fs.entries), fs.locked, from, to))
    ensures from in old(fs.entries) && old(fs.entries)[from].Dir? && Ready(old(fs.entries), fs.locked, to) ==>
      forall n :: from + [n] in old(fs.entries) && old(fs.entries)[from + [n]].File? &&
                  to + [n] !in old(fs.entries) && to + [n] !in fs.locked ==>
                  to + [n] in fs.entries && fs.entries[to + [n]] == old(fs.entries)[from + [n]]
  {
    ghost var m0 := fs.entries;
    var present := fs.Access(from);
    if !present {
      return Fail(NoEntry(from));
    }
    var st := fs.Stat(from);
    if st.value == FileKind {
      out := fs.CopyFile(from, to);
      return;
    }
    if CanMirror(m0, fs.locked, from, to) {
      CanMirrorNotRefused(m0, fs.locked, from, to);
    }
    out := CopyDirAsync(fs, from, to);
  }

  /**
   * The directory branch of `copyFileAsync`: `to` is made if missing, then
   * every child of `from` is copied into it.
   */
  method CopyDirAsync(fs: FileSystem, from: Path, to: Path) returns (out: Outcome)
    requires fs.Valid() && Apart(from, to) && from in fs.entries && fs.entries[from].Dir?
    modifies fs
    decreases Subtree(fs.entries, from), 2
    ensures fs.Valid()
    ensures Grows(old(fs.entries), fs.entries, to, fs.locked)
    ensures out.Pass? ==> MirrorOf(old(fs.entries), fs.entries, from, to, None, None)
    ensures out.Pass? ==> WritesUnlocked(old(fs.entries), from, to, None, fs.locked)
    ensures out.Pass? <==> Placeable(old(fs.entries), to) && !Refused(old(fs.entries), fs.locked, from, to)
    ensures Ready(old(fs.entries), fs.locked, to) ==>
      forall n :: from + [n] in old(fs.entries) && old(fs.entries)[from + [n]].File? &&
                  to + [n] !in old(fs.entries) && to + [n] !in fs.locked ==>
                  to + [n] in fs.entries && fs.entries[to + [n]] == old(fs.entries)[from + [n]]
  {
    ghost var m0 := fs.entries;
    var there := fs.Access(to);
    if !there {
      if to in fs.locked {
        LockedRootRefused(m0, fs.locked, from, to);
      }
      out := fs.Mkdir(to);
      if out.Fail? {
        return;
      }
    }
    assert fs.entries == if to in m0 then m0 else m0[to := Dir];
    MirrorStart(m0, fs.entries, from, to, None);
    forall k ensures Untouched(m0, fs.entries, to + [k]) {
      assert forall q :: Within(to + [k], q) ==> q != to;
    }
    var listing := fs.Readdir(from);
    assert forall n :: from + [n] in fs.entries <==> from + [n] in m0;
    out := CopyAllChildren(fs, from, to, listing.value, m0);
  }

  /**
   * The `Promise.all` of child copies over the listing `names` of `from`:
   * every child is copied whatever its siblings did; the result is the
   * first failure, if any.
   */
  method CopyAllChildren(fs: FileSystem, from: Path, to: Path, names: seq<string>, ghost m0: Entries)
    returns (out: Outcome)
    requires fs.Valid() && WellFormed(m0) && Apart(from, to)
    requires from in m0 && m0[from].Dir? && Distinct(names) && forall n :: n in names <==> from + [n] in m0
    requires Grows(m0, fs.entries, to, fs.locked) && MirrorOf(m0, fs.entries, from, to, None, Some({}))
    requires forall k :: Untouched(m0, fs.entries, to + [k])
    modifies fs
    decreases Subtree(m0, from), 1
    ensures fs.Valid()
    ensures Grows(m0, fs.entries, to, fs.locked)
    ensures out.Pass? ==> MirrorOf(m0, fs.entries, from, to, None, None)
    ensures out.Pass? ==> WritesUnlocked(m0, from, to, None, fs.locked)
    ensures out.Pass? <==> !Refused(m0, fs.locked, from, to)
    ensures to in old(fs.entries) && old(fs.entries)[to].Dir? ==>
      forall n :: from + [n] in m0 && m0[from + [n]].File? && to + [n] !in m0 && to + [n] !in fs.locked ==>
        to + [n] in fs.entries && fs.entries[to + [n]] == m0[from + [n]]
  {
    ghost var r0 := fs.entries;
    MirrorRoot(m0, r0, from, to, None, Some({}));
    ghost var done: set<string> := {};
    out := Pass;
    var i := 0;
    while i < |names|
      invariant 0 <= i <= |names|
      invariant fs.Valid()
      invariant forall k :: k in done <==> k in names[..i]
      invariant Grows(m0, fs.entries, to, fs.locked)
      invariant to in fs.entries && fs.entries[to] == r0[to]
      invariant out.Pass? ==> MirrorOf(m0, fs.entries, from, to, None, Some(done))
      invariant out.Pass? ==> WritesUnlocked(m0, from, to, Some(done), fs.locked)
      invariant !Refused(m0, fs.locked, from, to) ==> out.Pass?
      invariant forall k :: k !in done ==> Untouched(m0, fs.entries, to + [k])
      invariant r0[to].Dir? ==> FilesCopied(m0, fs.entries, from, to, fs.locked, done)
    {
      var n := names[i];
      DoneGrows(names, i, done);
      ghost var r := fs.entries;
      var o := CopyOneChild(fs, from, to, n, m0, done, out.Pass?);
      forall k | k !in done + {n} ensures Untouched(m0, fs.entries, to + [k]) {
        UntouchedSibling(m0, r, fs.entries, to, n, k, fs.locked);
      }
      if r0[to].Dir? {
        FilesCopiedStep(m0, r, fs.entries, from, to, fs.locked, done, n);
      }
      if out.Pass? && o.Fail? {
        out := o;
      }
      done := done + {n};
      i := i + 1;
    }
    ListedDone(m0, from, names, done);
    if out.Pass? {
      MirrorWiden(m0, fs.entries, from, to, None, Some(done));
      RefusedFails(m0, fs.entries, fs.locked, from, to, None);
    }
  }

  /** Every file child of `from` among `done` whose destination was fresh and unlocked has been copied. */
  ghost predicate FilesCopied(m0: Entries, r: Entries, from: Path, to: Path, locked: set<Path>, done: set<string>) {
    forall k :: k in done && from + [k] in m0 && m0[from + [k]].File? && to + [k] !in m0 && to + [k] !in locked ==>
      to + [k] in r && r[to + [k]] == m0[from + [k]]
  }

  /** A step that copies child `n` and changes only what lies within `to + [n]` extends that record by `n`. */
  lemma FilesCopiedStep(m0: Entries, r: Entries, r': Entries, from: Path, to: Path, locked: set<Path>,
                        done: set<string>, n: string)
    requires FilesCopied(m0, r, from, to, locked, done)
    requires Grows(r, r', to + [n], locked) && from + [n] in m0
    requires m0[from + [n]].File? && to + [n] !in m0 && to + [n] !in locked ==>
      to + [n] in r' && r'[to + [n]] == m0[from + [n]]
    ensures FilesCopied(m0, r', from, to, locked, done + {n})
  {
    forall k | k in done && k != n && from + [k] in m0 && m0[from + [k]].File? && to + [k] !in m0 && to + [k] !in locked
      ensures to + [k] in r' && r'[to + [k]] == m0[from + [k]]
    {
      InsideChild(to, n, to + [k]);
    }
  }

  /** A step that changes only what lies within `to + [n]` leaves every sibling `to + [k]` untouched. */
  lemma UntouchedSibling(m0: Entries, r: Entries, r': Entries, to: Path, n: string, k: string, locked: set<Path>)
    requires k != n && Untouched(m0, r, to + [k])
    requires Grows(r, r', to + [n], locked)
    ensures Untouched(m0, r', to + [k])
  {
    forall q | Within(to + [k], q) ensures !Within(to + [n], q) {
      InsideChild(to, k, q);
      InsideChild(to, n, q);
    }
  }

  /**
   * One child's promise in that walk: child `n` of `from` is copied with
   * `fs.copyFile` if it is a file and recursively otherwise.  Only what lies
   * within `to + [n]` changes.
   */
  method CopyOneChild(fs: FileSystem, from: Path, to: Path, n: string, ghost m0: Entries,
                      ghost done: set<string>, ghost mirrored: bool) returns (out: Outcome)
    requires fs.Valid() && WellFormed(m0) && Apart(from, to)
    requires from in m0 && from + [n] in m0 && n !in done
    requires Grows(m0, fs.entries, to, fs.locked) && to in fs.entries
    requires mirrored ==> MirrorOf(m0, fs.entries, from, to, None, Some(done))
    requires mirrored ==> WritesUnlocked(m0, from, to, Some(done), fs.locked)
    requires !Refused(m0, fs.locked, from, to) ==> mirrored
    requires Untouched(m0, fs.entries, to + [n])
    modifies fs
    decreases Subtree(m0, from), 0
    ensures fs.Valid()
    ensures Grows(m0, fs.entries, to, fs.locked) && Grows(old(fs.entries), fs.entries, to + [n], fs.locked)
    ensures mirrored && out.Pass? ==> MirrorOf(m0, fs.entries, from, to, None, Some(done + {n}))
    ensures mirrored && out.Pass? ==> WritesUnlocked(m0, from, to, Some(done + {n}), fs.locked)
    ensures !Refused(m0, fs.locked, from, to) ==> out.Pass?
    ensures old(fs.entries)[to].Dir? && m0[from + [n]].File? && to + [n] !in m0 && to + [n] !in fs.locked ==>
      to + [n] in fs.entries && fs.entries[to + [n]] == m0[from + [n]]
  {
    var nf, nt := from + [n], to + [n];
    InsideChild(to, n, nt);
    ghost var r := fs.entries;
    GrowsApart(m0, r, from, to, fs.locked);
    InsideChild(from, n, nf);
    assert nt[..|nt| - 1] == to;
    if !Refused(m0, fs.locked, from, to) {
      ToIsDir(m0, r, fs.locked, from, to, None, Some(done), n);
    }
    var st := fs.Stat(nf);
    if st.value == FileKind {
      if !Refused(m0, fs.locked, from, to) {
        FileDestFree(m0, r, fs.locked, from, to, None, Some(done), n);
      }
      out := fs.CopyFile(nf, nt);
      if out.Pass? {
        GrowsWrite(m0, r, to, fs.locked, nt, m0[nf].content);
        GrowsWrite(r, r, nt, fs.locked, nt, m0[nf].content);
        if mirrored {
          MirrorFileStep(m0, r, fs.entries, from, to, None, Some(done), n);
          CopiedFileStep(m0, from, to, Some(done), n);
        }
      }
    } else {
      ApartChildren(from, to, n);
      if mirrored && Refused(r, fs.locked, nf, nt) {
        RefusedChild(m0, r, fs.locked, from, to, None, Some(done), n);
      }
      SubtreeShrinks(m0, r, from, n);
      out := CopyAsync(fs, nf, nt);
      GrowsTrans(m0, r, fs.entries, to, nt, fs.locked);
      if mirrored && out.Pass? {
        MirrorDirStep(m0, r, fs.entries, from, to, None, Some(done), n);
      }
    }
  }

  /** Clearing a path that holds no locked entry removes it and all inside it. */
  lemma ClearedUnpinned(m: Entries, locked: set<Path>, p: Path)
    requires !Pinned(m, locked, p)
    ensures Cleared(m, locked, p) == Pruned(m, p)
  {
    forall q | q in m && Within(p, q) ensures !Pinned(m, locked, q) {
      if Pinned(m, locked, q) {
        var l :| l in locked && l in m && Within(q, l);
        WithinTrans(p, q, l);
      }
    }
  }

  /** Nothing outside `p` differs between `a` and `b`. */
  ghost predicate SameOutside(a: Entries, b: Entries, p: Path) {
    forall q :: !Within(p, q) ==> (q in a <==> q in b) && (q in b ==> b[q] == a[q])
  }

  /**
   * The last stage of `compiler`: reads the file at `main` and writes it
   * back with the first occurrence of `token` replaced by `target`.  A
   * missing file, a directory or a refused write is an error and changes
   * nothing.
   */
  method RewriteMain(fs: FileSystem, main: Path, token: string, target: string) returns (out: Outcome)
    requires fs.Valid()
    modifies fs
    ensures fs.Valid()
    ensures out == (if main !in old(fs.entries) then Fail(NoEntry(main))
                    else if old(fs.entries)[main].Dir? then Fail(IsDir(main))
                    else WriteError(old(fs.entries), fs.locked, main))
    ensures fs.entries == if out.Pass?
      then old(fs.entries)[main := File(JsString.ReplaceFirst(old(fs.entries)[main].content, token, target))]
      else old(fs.entries)
  {
    var present := fs.Access(main);
    if !present {
      return Fail(NoEntry(main));
    }
    var data := fs.ReadFile(main);
    if data.Err? {
      return Fail(data.error);
    }
    var content := JsString.ReplaceFirst(data.value, token, target);
    out := fs.Write(main, content);
  }

  /** The file of the output whose content the compiler rewrites. */
  const MainFile := "index.js"

  /**
   * `compiler`: deletes `dist`, copies `src` to `dist`, then replaces the
   * first occurrence of `token` in `dist/index.js` by `target`.  Each stage
   * runs only when the one before succeeded; a missing `dist` makes the
   * deletion fail, so nothing is built.  Nothing outside `dist` ever
   * changes.  A locked entry inside `dist` stops the build once the
   * deletion has removed all it could.  On success `dist` mirrors `src`
   * (the tree just after the copy is `copied`) except for `index.js`,
   * which holds the rewritten content.  The build succeeds when `dist` can
   * be cleared and refilled and `src/index.js` is a file.
   */
  method Compiler(fs: FileSystem, src: Path, dist: Path, token: string, target: string)
    returns (out: Outcome, ghost copied: Entries)
    requires fs.Valid() && Apart(src, dist)
    modifies fs
    ensures fs.Valid()
    ensures SameOutside(old(fs.entries), fs.entries, dist)
    ensures dist !in old(fs.entries) ==> out == Fail(NoEntry(dist)) && fs.entries == old(fs.entries)
    ensures dist in old(fs.entries) && Pinned(old(fs.entries), fs.locked, dist) ==>
      out.Fail? && fs.entries == Cleared(old(fs.entries), fs.locked, dist)
    ensures out.Pass? ==>
      && src + [MainFile] in old(fs.entries) && old(fs.entries)[src + [MainFile]].File?
      && MirrorOf(Pruned(old(fs.entries), dist), copied, src, dist, None, None)
      && fs.entries == copied[dist + [MainFile] :=
           File(JsString.ReplaceFirst(old(fs.entries)[src + [MainFile]].content, token, target))]
    ensures && dist in old(fs.entries) && !Pinned(old(fs.entries), fs.locked, dist)
            && CanMirror(Pruned(old(fs.entries), dist), fs.locked, src, dist)
            && src + [MainFile] in old(fs.entries) && old(fs.entries)[src + [MainFile]].File?
            ==> out.Pass?
    ensures Refused(Pruned(old(fs.entries), dist), fs.locked, src, dist) ==> out.Fail?
    ensures && dist in old(fs.entries) && !Pinned(old(fs.entries), fs.locked, dist)
            && src in old(fs.entries) && old(fs.entries)[src].Dir?
            && src + [MainFile] in old(fs.entries) && old(fs.entries)[src + [MainFile]].File?
            ==> (out.Pass? <==> !Refused(Pruned(old(fs.entries), dist), fs.locked, src, dist))
  {
    ghost var m0 := fs.entries;
    copied := m0;
    out := DeleteAsync(fs, dist);
    assert SameOutside(m0, fs.entries, dist);
    if out.Fail? {
      return;
    }
    ClearedUnpinned(m0, fs.locked, dist);
    assert ParentReady(m0, dist);
    out, copied := CopyThenRewrite(fs, src, dist, token, target, m0);
  }

  /**
   * The stages of `compiler` after the deletion: `src` is copied into the
   * emptied `dist`, then `dist/index.js` is rewritten.  Nothing outside
   * `dist` changes; on success the copy mirrors `src` and the final tree is
   * the copy with `index.js` rewritten; a copy whose destinations are all
   * writable, of a `src` holding the file `index.js`, succeeds.
   */
  method CopyThenRewrite(fs: FileSystem, src: Path, dist: Path, token: string, target: string, ghost m0: Entries)
    returns (out: Outcome, ghost copied: Entries)
    requires fs.Valid() && Apart(src, dist) && fs.entries == Pruned(m0, dist)
    modifies fs
    ensures fs.Valid()
    ensures SameOutside(old(fs.entries), fs.entries, dist)
    ensures out.Pass? ==>
      && src + [MainFile] in m0 && m0[src + [MainFile]].File?
      && MirrorOf(Pruned(m0, dist), copied, src, dist, None, None)
      && fs.entries == copied[dist + [MainFile] := File(JsString.ReplaceFirst(m0[src + [MainFile]].content, token, target))]
    ensures CanMirror(Pruned(m0, dist), fs.locked, src, dist) && src + [MainFile] in m0 && m0[src + [MainFile]].File?
            ==> out.Pass?
    ensures Refused(Pruned(m0, dist), fs.locked, src, dist) ==> out.Fail?
    ensures && src in m0 && m0[src].Dir? && ParentReady(m0, dist)
            && src + [MainFile] in m0 && m0[src + [MainFile]].File?
            ==> (out.Pass? <==> !Refused(Pruned(m0, dist), fs.locked, src, dist))
  {
    ghost var m1 := fs.entries;
    if ParentReady(m0, dist) {
      assert ParentReady(m1, dist);
    }
    out := CopyAsync(fs, src, dist);
    copied := fs.entries;
    if out.Fail? {
      return;
    }
    var main := dist + [MainFile];
    assert Below(dist, main) && main[..|main| - 1] == dist;
    if m1[src].File? {
      FileIsLeaf(copied, dist, main);
    } else {
      CopiedMain(m0, copied, fs.locked, src, dist);
    }
    out := RewriteMain(fs, main, token, target);
    assert SameOutside(copied, fs.entries, dist);
  }

  /** In a copy of `src` over the tree without `dist`, `dist/index.js` is the copy of `src/index.js`. */
  lemma CopiedMain(m0: Entries, copied: Entries, locked: set<Path>, src: Path, dist: Path)
    requires Apart(src, dist)
    requires MirrorOf(Pruned(m0, dist), copied, src, dist, None, None)
    ensures dist in copied && copied[dist] == Dir
    ensures dist + [MainFile] in copied <==> src + [MainFile] in m0
    ensures src + [MainFile] in m0 ==> copied[dist + [MainFile]] == m0[src + [MainFile]]
    ensures WritesUnlocked(Pruned(m0, dist), src, dist, None, locked) && src + [MainFile] in m0 && m0[src + [MainFile]].File?
            ==> dist + [MainFile] !in locked
  {
    var source := src + [MainFile];
    assert source[..|src|] == src && source[|src|..] == [MainFile];
    ApartStaysApart(src, dist, source);
    assert Within(dist, dist);
    PrunedEntry(m0, copied, src, dist, None, [MainFile]);
    MirrorRoot(Pruned(m0, dist), copied, src, dist, None, None);
    assert SourceOf(src, dist, dist + [MainFile]) == source;
  }

  /**
   * What a successful `compiler` run leaves, entry by entry: under `dist`
   * an entry at relative path `rel` exists exactly when one exists at
   * `rel` under `src`, and equals it, except that `index.js` holds the
   * content of `src/index.js` with its first `token` replaced; `dist` is a
   * directory; nothing outside `dist` differs from the tree before.
   */
  lemma CompiledOutput(m: Entries, copied: Entries, r: Entries, src: Path, dist: Path, token: string, target: string)
    requires WellFormed(m) && Apart(src, dist)
    requires src + [MainFile] in m && m[src + [MainFile]].File?
    requires MirrorOf(Pruned(m, dist), copied, src, dist, None, None)
    requires r == copied[dist + [MainFile] := File(JsString.ReplaceFirst(m[src + [MainFile]].content, token, target))]
    ensures dist in r && r[dist] == Dir
    ensures forall rel :: rel != [] ==> (dist + rel in r <==> src + rel in m)
    ensures forall rel :: rel != [] && rel != [MainFile] && src + rel in m ==> r[dist + rel] == m[src + rel]
    ensures r[dist + [MainFile]] == File(JsString.ReplaceFirst(m[src + [MainFile]].content, token, target))
    ensures SameOutside(m, r, dist)
  {
    MirrorIntoPruned(m, copied, src, dist, None);
    var main := dist + [MainFile];
    forall rel | rel != [] && rel != [MainFile] ensures dist + rel != main {
      assert (dist + rel)[|dist|..] == rel && main[|dist|..] == [MainFile];
    }
    assert Within(dist, main) && main != dist;
  }
}
