/**
 * The synchronous build of `build/index.js`: `deleteFileSync`,
 * `copyFileSync`, `replaceFileSync` and `compileBuilder`.  A filesystem
 * call that throws ends the whole operation; here it makes the method
 * return the failure at once, leaving behind whatever was already done.
 */
module SyncBuild {
  import opened Wrappers
  import opened NodePath
  import opened Tree
  import opened Fs
  import opened Rewriting
  import opened Mirror

  /** An entry strictly inside `x`, itself strictly inside `p`, lies under the same child of `p`. */
  lemma SameFirstName(p: Path, x: Path, y: Path)
    requires Below(p, x)
    ensures Below(x, y) ==> Below(p, y) && y[|p|] == x[|p|]
  {
  }

  /**
   * A delete of directory `p` that has gone through the children named in
   * `done` (in the listing's order), logging removals in `log`: only
   * unpinned entries under those children were removed, children first.
   */
  ghost predicate Partial(m0: Entries, m: Entries, locked: set<Path>, p: Path, done: seq<string>, log: seq<Path>) {
    && RemovedOnly(m0, m, log)
    && (forall q :: q in log ==> Below(p, q) && q[|p|] in done && !Pinned(m0, locked, q))
    && ChildrenFirst(log) && Distinct(log)
  }

  /** ... and everything under those children is gone. */
  ghost predicate Complete(m0: Entries, m: Entries, p: Path, done: seq<string>) {
    forall q :: q in m0 && Below(p, q) && q[|p|] in done ==> q !in m
  }

  /** The recursive delete of child `p + [n]` extends the log of the delete of `p`. */
  lemma DirStep(m0: Entries, m1: Entries, m2: Entries, locked: set<Path>, p: Path,
                done: seq<string>, log: seq<Path>, n: string, r: seq<Path>)
    requires Partial(m0, m1, locked, p, done, log) && n !in done
    requires RemovedOnly(m1, m2, r) && ChildrenFirst(r) && Distinct(r)
    requires forall q :: q in r ==> Within(p + [n], q) && !Pinned(m1, locked, q)
    ensures Partial(m0, m2, locked, p, done + [n], log + r)
  {
    forall q | q in r ensures Below(p, q) && q[|p|] == n && !Pinned(m0, locked, q) {
      InsideChild(p, n, q);
      if Pinned(m0, locked, q) {
        StillPinned(m0, m1, locked, log, q);
      }
    }
    forall x, y | x in log && y in r ensures !Below(x, y) && x != y {
      SameFirstName(p, x, y);
    }
    ChildrenFirstAppend(log, r);
    DistinctAppend(log, r);
  }

  /** ... and when it succeeded, nothing under that child is left. */
  lemma DirDone(m0: Entries, m1: Entries, m2: Entries, p: Path, done: seq<string>, n: string)
    requires Complete(m0, m1, p, done)
    requires forall q :: q in m2 ==> q in m1
    requires forall q :: q in m1 && Within(p + [n], q) ==> q !in m2
    ensures Complete(m0, m2, p, done + [n])
  {
    forall q | q in m0 && Below(p, q) && q[|p|] in done + [n] ensures q !in m2 {
      InsideChild(p, n, q);
    }
  }

  /** Unlinking child file `c = p + [n]` extends the delete of `p`. */
  lemma FileStep(m0: Entries, m1: Entries, locked: set<Path>, p: Path, done: seq<string>, log: seq<Path>, n: string)
    requires WellFormed(m0)
    requires Partial(m0, m1, locked, p, done, log) && Complete(m0, m1, p, done) && n !in done
    requires p + [n] in m1 && m1[p + [n]] == m0[p + [n]] && m0[p + [n]].File? && p + [n] !in locked
    ensures Partial(m0, m1 - {p + [n]}, locked, p, done + [n], log + [p + [n]])
    ensures Complete(m0, m1 - {p + [n]}, p, done + [n])
  {
    FileLogged(m0, m1, locked, p, done, log, n);
    var c := p + [n];
    forall q | q in m0 && Below(p, q) && q[|p|] in done + [n] ensures q !in m1 - {c} {
      InsideChild(p, n, q);
      if q[|p|] == n && q != c {
        FileIsLeaf(m0, c, q);
        WithinOrBelow(c, q);
      }
    }
  }

  /** The log part of that step: the unlinked file is unpinned, lies under `n` and is new to the log. */
  lemma FileLogged(m0: Entries, m1: Entries, locked: set<Path>, p: Path, done: seq<string>, log: seq<Path>, n: string)
    requires WellFormed(m0)
    requires Partial(m0, m1, locked, p, done, log) && n !in done
    requires p + [n] in m1 && m1[p + [n]] == m0[p + [n]] && m0[p + [n]].File? && p + [n] !in locked
    ensures Partial(m0, m1 - {p + [n]}, locked, p, done + [n], log + [p + [n]])
  {
    var c := p + [n];
    InsideChild(p, n, c);
    FileUnpinned(m0, locked, c);
    forall x | x in log ensures !Below(x, c) && x != c { }
    ChildrenFirstAppend(log, [c]);
    DistinctAppend(log, [c]);
  }

  /** A file that is not locked is not pinned: nothing lies inside it. */
  lemma FileUnpinned(m: Entries, locked: set<Path>, c: Path)
    requires WellFormed(m) && c in m && m[c].File? && c !in locked
    ensures !Pinned(m, locked, c)
  {
    forall l | l in m && Within(c, l) ensures l == c {
      FileIsLeaf(m, c, l);
      WithinOrBelow(c, l);
    }
  }

  /** What holds of the first `k` listed children holds of the whole listing, as far as the log goes. */
  lemma PartialPrefix(m0: Entries, m: Entries, locked: set<Path>, p: Path, names: seq<string>, k: nat, log: seq<Path>)
    requires k <= |names| && Partial(m0, m, locked, p, names[..k], log)
    ensures Partial(m0, m, locked, p, names, log)
  {
    forall q | q in log ensures q[|p|] in names {
      assert q[|p|] in names[..k];
    }
  }

  /** Once every child is done, `p` has nothing inside it. */
  lemma AllDone(m0: Entries, m: Entries, p: Path, names: seq<string>)
    requires WellFormed(m0) && p in m0
    requires forall n :: n in names <==> p + [n] in m0
    requires forall q :: q in m ==> q in m0
    requires Complete(m0, m, p, names)
    ensures !HasChildren(m, p)
  {
    forall q | q in m && Below(p, q) ensures false {
      ChildOnTheWay(m0, p, q);
    }
  }

  /** Once everything inside `p` is gone and `p` is not locked, no locked entry lay within `p`. */
  lemma LastUnpinned(m0: Entries, m: Entries, locked: set<Path>, p: Path, names: seq<string>, log: seq<Path>)
    requires WellFormed(m0) && p in m0 && p !in locked
    requires forall n :: n in names <==> p + [n] in m0
    requires Partial(m0, m, locked, p, names, log) && Complete(m0, m, p, names)
    ensures !Pinned(m0, locked, p)
  {
    forall q | q in m0 && Within(p, q) ensures q !in locked {
      WithinOrBelow(p, q);
      if q != p {
        ChildOnTheWay(m0, p, q);
        assert q in log;
        assert Within(q, q);
      }
    }
  }

  /** Removing the emptied `p` removes all that lay within it. */
  lemma LastPruned(m0: Entries, m: Entries, locked: set<Path>, p: Path, names: seq<string>, log: seq<Path>)
    requires WellFormed(m0) && p in m0
    requires forall n :: n in names <==> p + [n] in m0
    requires Partial(m0, m, locked, p, names, log) && Complete(m0, m, p, names)
    ensures m - {p} == Pruned(m0, p)
  {
    forall q | q in m0 && Below(p, q) ensures q !in m {
      ChildOnTheWay(m0, p, q);
    }
    assert Within(p, p);
    forall q | q in m0 && Within(p, q) && q != p ensures q !in m {
      WithinOrBelow(p, q);
    }
    forall q | q in m0 && !Within(p, q) ensures q in m {
      assert q !in log;
    }
  }

  /** Logging `p` after the entries strictly inside it keeps the log ordered and without repeats. */
  lemma LastLogged(m0: Entries, m: Entries, locked: set<Path>, p: Path, names: seq<string>, log: seq<Path>)
    requires Partial(m0, m, locked, p, names, log)
    ensures ChildrenFirst(log + [p]) && Distinct(log + [p])
  {
    ChildrenFirstAppend(log, [p]);
    DistinctAppend(log, [p]);
  }

  /**
   * `deleteFileSync`: removes `p` and, first, everything inside it.  The
   * ghost `removed` logs each entry removed, in order.  Nothing else
   * changes; every removed entry lies within `p` and holds no locked entry;
   * children go before their directory.  A missing `p` is left alone.  For
   * an existing `p` the delete succeeds exactly when no locked entry lies
   * within it, and then `p` is gone with all its contents; otherwise it
   * stops at a locked entry, with that entry's permission error.
   */
  method DeleteSync(fs: FileSystem, p: Path) returns (out: Outcome, ghost removed: seq<Path>)
    requires fs.Valid()
    modifies fs
    decreases Subtree(fs.entries, p), 2
    ensures fs.Valid()
    ensures RemovedOnly(old(fs.entries), fs.entries, removed)
    ensures forall q :: q in removed ==> Within(p, q) && !Pinned(old(fs.entries), fs.locked, q)
    ensures ChildrenFirst(removed) && Distinct(removed)
    ensures p !in old(fs.entries) ==> out.Pass? && removed == []
    ensures p in old(fs.entries) ==> (out.Pass? <==> !Pinned(old(fs.entries), fs.locked, p))
    ensures p in old(fs.entries) && out.Pass? ==> fs.entries == Pruned(old(fs.entries), p)
    ensures out.Fail? ==> out.error.Denied? && out.error.path in fs.locked &&
                          out.error.path in old(fs.entries) && Within(p, out.error.path)
  {
    ghost var m0 := fs.entries;
    removed := [];
    var present := fs.Access(p);
    if !present {
      return Pass, removed;
    }
    var st := fs.Stat(p);
    if st.value == FileKind {
      out := fs.Unlink(p);
      if out.Pass? {
        removed := [p];
        PrunedLeaf(m0, p);
      }
      return;
    }
    var listing := fs.Readdir(p);
    var names := listing.value;
    var o, log := DeleteChildren(fs, p, names);
    if o.Fail? {
      assert Within(p, o.error.path);
      return o, log;
    }
    ghost var m1 := fs.entries;
    AllDone(m0, m1, p, names);
    out := fs.Rmdir(p);
    removed := log;
    if out.Pass? {
      LastUnpinned(m0, m1, fs.locked, p, names, log);
      LastPruned(m0, m1, fs.locked, p, names, log);
      LastLogged(m0, m1, fs.locked, p, names, log);
      removed := log + [p];
    } else {
      assert Within(p, p);
    }
  }

  /**
   * The `forEach` of `deleteFileSync` over the listing `names` of directory
   * `p`; the first failure ends the walk.  On success everything inside
   * `p` that was listed is gone; on failure the error names a locked entry
   * strictly inside `p`.
   */
  method DeleteChildren(fs: FileSystem, p: Path, names: seq<string>) returns (out: Outcome, ghost removed: seq<Path>)
    requires fs.Valid() && p in fs.entries && fs.entries[p].Dir?
    requires Distinct(names) && forall n :: n in names <==> p + [n] in fs.entries
    modifies fs
    decreases Subtree(fs.entries, p), 1
    ensures fs.Valid()
    ensures Partial(old(fs.entries), fs.entries, fs.locked, p, names, removed)
    ensures out.Pass? ==> Complete(old(fs.entries), fs.entries, p, names)
    ensures out.Fail? ==> out.error.Denied? && out.error.path in fs.locked &&
                          out.error.path in old(fs.entries) && Below(p, out.error.path)
  {
    ghost var m0 := fs.entries;
    out, removed := Pass, [];
    var i := 0;
    while i < |names|
      invariant 0 <= i <= |names|
      invariant fs.Valid()
      invariant out.Pass?
      invariant Partial(m0, fs.entries, fs.locked, p, names[..i], removed)
      invariant Complete(m0, fs.entries, p, names[..i])
    {
      FreshName(names, i);
      PrefixStep(names, i);
      out, removed := DeleteChild(fs, p, names[i], m0, names[..i], removed);
      if out.Fail? {
        PartialPrefix(m0, fs.entries, fs.locked, p, names, i + 1, removed);
        return;
      }
      i := i + 1;
    }
    assert names[..i] == names;
  }

  /**
   * One step of that walk, for child `n` of `p`: a directory is deleted
   * recursively, anything else unlinked.  The log `log` of the walk so far
   * grows by what this step removed.
   */
  method DeleteChild(fs: FileSystem, p: Path, n: string, ghost m0: Entries, ghost done: seq<string>,
                     ghost log: seq<Path>) returns (out: Outcome, ghost log': seq<Path>)
    requires fs.Valid() && WellFormed(m0) && p in m0
    requires p + [n] in m0 && n !in done
    requires Partial(m0, fs.entries, fs.locked, p, done, log) && Complete(m0, fs.entries, p, done)
    modifies fs
    decreases Subtree(m0, p), 0
    ensures fs.Valid()
    ensures Partial(m0, fs.entries, fs.locked, p, done + [n], log')
    ensures out.Pass? ==> Complete(m0, fs.entries, p, done + [n])
    ensures out.Fail? ==> out.error.Denied? && out.error.path in fs.locked &&
                          out.error.path in m0 && Below(p, out.error.path)
  {
    var c := p + [n];
    InsideChild(p, n, c);
    assert c !in log;
    var cs := fs.Stat(c);
    ghost var m1 := fs.entries;
    if cs.value == DirKind {
      SubtreeShrinks(m0, m1, p, n);
      var o, r := DeleteSync(fs, c);
      DirStep(m0, m1, fs.entries, fs.locked, p, done, log, n, r);
      out, log' := o, log + r;
      if o.Fail? {
        InsideChild(p, n, o.error.path);
        return;
      }
      DirDone(m0, m1, fs.entries, p, done, n);
    } else {
      out := fs.Unlink(c);
      log' := log;
      if out.Fail? {
        return;
      }
      FileStep(m0, m1, fs.locked, p, done, log, n);
      log' := log + [c];
    }
  }

  /**
   * `replaceFileSync`: when `p` holds a file and the rewrite qualifies for
   * it, the first occurrence of the token in the file becomes the value;
   * anything else leaves the tree alone.  It fails only when it has to
   * write a locked file.
   */
  method ReplaceSync(fs: FileSystem, p: Path, rw: Rewrite) returns (out: Outcome)
    requires fs.Valid()
    modifies fs
    ensures fs.Valid()
    ensures out.Fail? <==> p in old(fs.entries) && old(fs.entries)[p].File? && Qualifies(rw, p) && p in fs.locked
    ensures out.Fail? ==> out == Fail(Denied(p))
    ensures fs.entries == if out.Pass? && p in old(fs.entries) && old(fs.entries)[p].File?
                          then old(fs.entries)[p := File(Rewritten(rw, p, old(fs.entries)[p].content))]
                          else old(fs.entries)
  {
    out := Pass;
    var present := fs.Access(p);
    if !present {
      return;
    }
    var st := fs.Stat(p);
    if st.value != FileKind || rw.oldContent == "" || rw.newContent == "" {
      return;
    }
    var ext := ExtNoDot(p);
    if rw.suffix == "" || JsString.Includes(rw.suffix, ext) {
      var data := fs.ReadFile(p);
      var content := JsString.ReplaceFirst(data.value, rw.oldContent, rw.newContent);
      out := fs.Write(p, content);
    } else {
      assert fs.entries[p := File(Rewritten(rw, p, fs.entries[p].content))] == fs.entries;
    }
  }

  /**
   * The file branch of `copyFileSync`'s walk: `fs.copyFileSync` and then the
   * callback on the destination.  The callback cannot fail once the copy
   * has succeeded, as it only writes where the copy just wrote.
   */
  method CopyOneFile(fs: FileSystem, src: Path, dst: Path, cb: Option<Rewrite>) returns (out: Outcome)
    requires fs.Valid() && src in fs.entries && fs.entries[src].File?
    modifies fs
    ensures fs.Valid()
    ensures out == WriteError(old(fs.entries), fs.locked, dst)
    ensures fs.entries == if out.Pass? then old(fs.entries)[dst := File(Transform(cb, dst, old(fs.entries)[src].content))]
                          else old(fs.entries)
  {
    ghost var m0 := fs.entries;
    out := fs.CopyFile(src, dst);
    if out.Pass? && cb.Some? {
      ghost var data := m0[src].content;
      assert dst !in fs.locked && fs.entries == m0[dst := File(data)];
      var o := ReplaceSync(fs, dst, cb.value);
      assert o.Pass?;
      assert fs.entries == m0[dst := File(data)][dst := File(Rewritten(cb.value, dst, data))];
    }
  }

  /**
   * `copyFileSync`: copies the tree at directory `from` into `to`, creating
   * `to` if it is missing; each copied file is passed to the callback, here
   * the optional rewrite.  Whatever happens, the tree only grows inside
   * `to`, directories stay directories and locked paths stay as they were.
   * On success `to` mirrors `from` exactly.  A copy into a fresh `to` whose
   * destinations are all writable succeeds; a missing `from` makes it fail.
   */
  method CopySync(fs: FileSystem, from: Path, to: Path, cb: Option<Rewrite>) returns (out: Outcome)
    requires fs.Valid() && Apart(from, to)
    modifies fs
    decreases Subtree(fs.entries, from), 3
    ensures fs.Valid()
    ensures Grows(old(fs.entries), fs.entries, to, fs.locked)
    ensures out.Pass? ==> MirrorOf(old(fs.entries), fs.entries, from, to, cb, None)
    ensures out.Pass? ==> WritesUnlocked(old(fs.entries), from, to, None, fs.locked)
    ensures out.Pass? <==> && from in old(fs.entries) && old(fs.entries)[from].Dir?
                           && Placeable(old(fs.entries), to) && !Refused(old(fs.entries), fs.locked, from, to)
    ensures CanMirror(old(fs.entries), fs.locked, from, to) ==> out.Pass?
  {
    ghost var m0 := fs.entries;
    if CanMirror(m0, fs.locked, from, to) {
      CanMirrorNotRefused(m0, fs.locked, from, to);
    }
    var present := fs.Access(to);
    if !present {
      if from in m0 && m0[from].Dir? && to in fs.locked {
        LockedRootRefused(m0, fs.locked, from, to);
      }
      out := fs.Mkdir(to);
      if out.Fail? {
        return;
      }
    }
    out := CopyListing(fs, from, to, cb, m0);
  }

  /**
   * The rest of `copyFileSync` once `to` is in place: `from` is listed
   * (failing when it is missing or a file) and every child is copied.
   */
  method CopyListing(fs: FileSystem, from: Path, to: Path, cb: Option<Rewrite>, ghost m0: Entries)
    returns (out: Outcome)
    requires fs.Valid() && WellFormed(m0) && Apart(from, to)
    requires fs.entries == if to in m0 then m0 else m0[to := Dir]
    requires to in m0 || to !in fs.locked
    modifies fs
    decreases Subtree(m0, from), 2
    ensures fs.Valid()
    ensures Grows(m0, fs.entries, to, fs.locked)
    ensures out.Pass? ==> MirrorOf(m0, fs.entries, from, to, cb, None)
    ensures out.Pass? ==> WritesUnlocked(m0, from, to, None, fs.locked)
    ensures out.Pass? <==> from in m0 && m0[from].Dir? && !Refused(m0, fs.locked, from, to)
  {
    MirrorStart(m0, fs.entries, from, to, cb);
    var listing := fs.Readdir(from);
    if listing.Err? {
      return Fail(listing.error);
    }
    assert from in m0 && m0[from].Dir?;
    out := CopyChildren(fs, from, to, cb, listing.value, m0);
  }

  /**
   * The `forEach` of `copyFileSync` over the listing `names` of `from`, once
   * `to` exists; the first failure ends the walk.
   */
  method CopyChildren(fs: FileSystem, from: Path, to: Path, cb: Option<Rewrite>, names: seq<string>,
                      ghost m0: Entries) returns (out: Outcome)
    requires fs.Valid() && WellFormed(m0) && Apart(from, to)
    requires from in m0 && Distinct(names) && forall n :: n in names <==> from + [n] in m0
    requires Grows(m0, fs.entries, to, fs.locked) && MirrorOf(m0, fs.entries, from, to, cb, Some({}))
    modifies fs
    decreases Subtree(m0, from), 1
    ensures fs.Valid()
    ensures Grows(m0, fs.entries, to, fs.locked)
    ensures out.Pass? ==> MirrorOf(m0, fs.entries, from, to, cb, None)
    ensures out.Pass? ==> WritesUnlocked(m0, from, to, None, fs.locked)
    ensures out.Pass? <==> !Refused(m0, fs.locked, from, to)
  {
    ghost var done: set<string> := {};
    var i := 0;
    while i < |names|
      invariant 0 <= i <= |names|
      invariant fs.Valid()
      invariant forall k :: k in done <==> k in names[..i]
      invariant Grows(m0, fs.entries, to, fs.locked)
      invariant MirrorOf(m0, fs.entries, from, to, cb, Some(done))
      invariant WritesUnlocked(m0, from, to, Some(done), fs.locked)
    {
      DoneGrows(names, i, done);
      out := CopyChild(fs, from, to, cb, names[i], m0, done);
      if out.Fail? {
        return;
      }
      done := done + {names[i]};
      i := i + 1;
    }
    ListedDone(m0, from, names, done);
    MirrorWiden(m0, fs.entries, from, to, cb, Some(done));
    RefusedFails(m0, fs.entries, fs.locked, from, to, cb);
    out := Pass;
  }

  /**
   * One step of that walk, for child `n` of `from`: a file is copied and
   * handed to the callback, a directory copied recursively.
   */
  method CopyChild(fs: FileSystem, from: Path, to: Path, cb: Option<Rewrite>, n: string,
                   ghost m0: Entries, ghost done: set<string>) returns (out: Outcome)
    requires fs.Valid() && WellFormed(m0) && Apart(from, to)
    requires from in m0 && from + [n] in m0 && n !in done
    requires Grows(m0, fs.entries, to, fs.locked) && MirrorOf(m0, fs.entries, from, to, cb, Some(done))
    requires WritesUnlocked(m0, from, to, Some(done), fs.locked)
    modifies fs
    decreases Subtree(m0, from), 0
    ensures fs.Valid()
    ensures Grows(m0, fs.entries, to, fs.locked)
    ensures out.Pass? ==> MirrorOf(m0, fs.entries, from, to, cb, Some(done + {n}))
    ensures out.Pass? ==> WritesUnlocked(m0, from, to, Some(done + {n}), fs.locked)
    ensures !Refused(m0, fs.locked, from, to) ==> out.Pass?
  {
    var nf, nt := from + [n], to + [n];
    InsideChild(to, n, nt);
    ghost var r := fs.entries;
    GrowsApart(m0, r, from, to, fs.locked);
    InsideChild(from, n, nf);
    var st := fs.Stat(nf);
    assert nt[..|nt| - 1] == to;
    if !Refused(m0, fs.locked, from, to) {
      ToIsDir(m0, r, fs.locked, from, to, cb, Some(done), n);
    }
    if st.value == FileKind {
      if !Refused(m0, fs.locked, from, to) {
        FileDestFree(m0, r, fs.locked, from, to, cb, Some(done), n);
      }
      out := CopyOneFile(fs, nf, nt, cb);
      if out.Pass? {
        GrowsWrite(m0, r, to, fs.locked, nt, Transform(cb, nt, m0[nf].content));
        MirrorFileStep(m0, r, fs.entries, from, to, cb, Some(done), n);
        CopiedFileStep(m0, from, to, Some(done), n);
      }
    } else {
      ApartChildren(from, to, n);
      if Refused(r, fs.locked, nf, nt) {
        RefusedChild(m0, r, fs.locked, from, to, cb, Some(done), n);
      }
      SubtreeShrinks(m0, r, from, n);
      out := CopySync(fs, nf, nt, cb);
      GrowsTrans(m0, r, fs.entries, to, nt, fs.locked);
      if out.Pass? {
        MirrorDirStep(m0, r, fs.entries, from, to, cb, Some(done), n);
      }
    }
  }

  /**
   * The output of a successful build: `dist` mirrors `src` with the rewrite
   * applied, over the tree from which `dist` was first deleted.
   */
  ghost predicate Built(m: Entries, r: Entries, src: Path, dist: Path, rw: Rewrite) {
    MirrorOf(Pruned(m, dist), r, src, dist, Some(rw), None)
  }

  /**
   * `compileBuilder`: deletes the output directory `dist`, then copies the
   * source directory `src` into it, rewriting each copied file.  Whatever
   * happens, nothing outside `dist` changes (so `src` is untouched).  A
   * locked entry inside `dist` makes the build fail before any copy, and a
   * missing or non-directory `src` makes the listing fail; on success the
   * new `dist` is exactly the rewritten mirror of `src`; and a build whose
   * destinations are all writable succeeds.
   */
  method CompileBuilder(fs: FileSystem, src: Path, dist: Path, rw: Rewrite) returns (out: Outcome)
    requires fs.Valid() && Apart(src, dist)
    modifies fs
    ensures fs.Valid()
    ensures forall q :: !Within(dist, q) ==> (q in fs.entries <==> q in old(fs.entries))
    ensures forall q :: !Within(dist, q) && q in fs.entries ==> fs.entries[q] == old(fs.entries)[q]
    ensures Pinned(old(fs.entries), fs.locked, dist) ==> out.Fail?
    ensures out.Pass? ==> Built(old(fs.entries), fs.entries, src, dist, rw)
    ensures !Pinned(old(fs.entries), fs.locked, dist) && CanMirror(Pruned(old(fs.entries), dist), fs.locked, src, dist)
            ==> out.Pass?
    ensures Refused(Pruned(old(fs.entries), dist), fs.locked, src, dist) ==> out.Fail?
    ensures out.Pass? ==> src in old(fs.entries) && old(fs.entries)[src].Dir?
    ensures !Pinned(old(fs.entries), fs.locked, dist) && ParentReady(old(fs.entries), dist) ==>
      (out.Pass? <==> && src in old(fs.entries) && old(fs.entries)[src].Dir?
                      && !Refused(Pruned(old(fs.entries), dist), fs.locked, src, dist))
  {
    ghost var m0 := fs.entries;
    ghost var removed;
    out, removed := DeleteSync(fs, dist);
    if out.Fail? {
      return;
    }
    if dist !in m0 {
      PrunedAbsent(m0, dist);
    }
    assert fs.entries == Pruned(m0, dist);
    if ParentReady(m0, dist) {
      assert ParentReady(fs.entries, dist);
    }
    out := CopySync(fs, src, dist, Some(rw));
  }
}
