/**
 * The filesystem calls of Node's `fs` module that the build script makes,
 * over an in-memory tree.  Each call fails the way the operating system
 * makes it fail (the error names the offending path); `locked` holds the
 * paths whose modification is refused (a permission error).
 */
module Fs {
  import opened NodePath
  import opened Tree

  /** ENOENT, ENOTDIR, EISDIR, EEXIST, ENOTEMPTY and EACCES. */
  datatype FsError =
    | NoEntry(path: Path)
    | NotDir(path: Path)
    | IsDir(path: Path)
    | AlreadyExists(path: Path)
    | NotEmpty(path: Path)
    | Denied(path: Path)

  datatype Outcome = Pass | Fail(error: FsError)

  datatype Result<+T> = Ok(value: T) | Err(error: FsError)

  datatype Kind = FileKind | DirKind

  /** Why an entry cannot be created at `p` (ENOENT or ENOTDIR on the way), if it cannot. */
  function PlacementError(m: Entries, p: Path): (e: Outcome)
    requires p != []
    ensures e.Pass? <==> ParentReady(m, p)
  {
    if |p| == 1 || ParentIsDir(m, p) then Pass
    else if p[..|p| - 1] !in m then Fail(NoEntry(p))
    else Fail(NotDir(p))
  }

  /** Why a file cannot be written at `p`, if it cannot. */
  function WriteError(m: Entries, locked: set<Path>, p: Path): Outcome {
    if p == [] then Fail(IsDir(p))
    else if PlacementError(m, p).Fail? then PlacementError(m, p)
    else if p in m && m[p].Dir? then Fail(IsDir(p))
    else if p in locked then Fail(Denied(p))
    else Pass
  }

  class FileSystem {
    var entries: Entries
    const locked: set<Path>

    ghost predicate Valid()
      reads this
    {
      WellFormed(entries)
    }

    constructor (initial: Entries, denied: set<Path>)
      requires WellFormed(initial)
      ensures Valid() && entries == initial && locked == denied
    {
      entries := initial;
      locked := denied;
    }

    /** `fs.existsSync` / `fs.access`: whether anything is at `p`. */
    method Access(p: Path) returns (ok: bool)
      ensures ok <==> p in entries
    {
      ok := p in entries;
    }

    /** `fs.stat`: the kind of the entry at `p`. */
    method Stat(p: Path) returns (r: Result<Kind>)
      ensures p !in entries ==> r == Err(NoEntry(p))
      ensures p in entries ==> r == Ok(if entries[p].Dir? then DirKind else FileKind)
    {
      if p !in entries {
        r := Err(NoEntry(p));
      } else {
        r := Ok(if entries[p].Dir? then DirKind else FileKind);
      }
    }

    /** `fs.readdir`: the names in directory `p`, each once, in no particular order. */
    method Readdir(p: Path) returns (r: Result<seq<string>>)
      ensures p !in entries ==> r == Err(NoEntry(p))
      ensures p in entries && entries[p].File? ==> r == Err(NotDir(p))
      ensures p in entries && entries[p].Dir? ==> r.Ok?
      ensures r.Ok? ==> Distinct(r.value) && forall n :: n in r.value <==> p + [n] in entries
    {
      if p !in entries {
        return Err(NoEntry(p));
      }
      if entries[p].File? {
        return Err(NotDir(p));
      }
      var rest := set q | q in entries && |q| == |p| + 1 && q[..|p|] == p :: q[|p|];
      forall n ensures n in rest <==> p + [n] in entries {
        if p + [n] in entries {
          var q := p + [n];
          assert q[..|p|] == p && q[|p|] == n;
        }
        if n in rest {
          var q :| q in entries && |q| == |p| + 1 && q[..|p|] == p && q[|p|] == n;
          assert q == p + [n];
        }
      }
      var names := [];
      while rest != {}
        invariant Distinct(names)
        invariant forall n :: n in names ==> p + [n] in entries
        invariant forall n :: p + [n] in entries ==> (n in names <==> n !in rest)
        invariant forall n :: n in rest ==> p + [n] in entries
        decreases rest
      {
        var n :| n in rest;
        names := names + [n];
        rest := rest - {n};
      }
      r := Ok(names);
    }

    /** `fs.unlink`: removes the file at `p`. */
    method Unlink(p: Path) returns (out: Outcome)
      requires Valid()
      modifies this
      ensures Valid()
      ensures out == (if p !in old(entries) then Fail(NoEntry(p))
                      else if old(entries)[p].Dir? then Fail(IsDir(p))
                      else if p in locked then Fail(Denied(p))
                      else Pass)
      ensures entries == if out.Pass? then old(entries) - {p} else old(entries)
    {
      if p !in entries {
        out := Fail(NoEntry(p));
      } else if entries[p].Dir? {
        out := Fail(IsDir(p));
      } else if p in locked {
        out := Fail(Denied(p));
      } else {
        forall q | q in entries ensures !Below(p, q) { FileIsLeaf(entries, p, q); }
        entries := entries - {p};
        out := Pass;
      }
    }

    /** `fs.rmdir`: removes the empty directory at `p`. */
    method Rmdir(p: Path) returns (out: Outcome)
      requires Valid()
      modifies this
      ensures Valid()
      ensures out == (if p !in old(entries) then Fail(NoEntry(p))
                      else if old(entries)[p].File? then Fail(NotDir(p))
                      else if HasChildren(old(entries), p) then Fail(NotEmpty(p))
                      else if p in locked then Fail(Denied(p))
                      else Pass)
      ensures entries == if out.Pass? then old(entries) - {p} else old(entries)
    {
      if p !in entries {
        out := Fail(NoEntry(p));
      } else if entries[p].File? {
        out := Fail(NotDir(p));
      } else if exists q :: q in entries && |q| == |p| + 1 && q[..|p|] == p {
        var q :| q in entries && |q| == |p| + 1 && q[..|p|] == p;
        assert Below(p, q);
        out := Fail(NotEmpty(p));
      } else if p in locked {
        forall q | q in entries && Below(p, q) ensures false {
          ChildOnTheWay(entries, p, q);
        }
        out := Fail(Denied(p));
      } else {
        forall q | q in entries && Below(p, q) ensures false {
          ChildOnTheWay(entries, p, q);
        }
        entries := entries - {p};
        out := Pass;
      }
    }

    /** `fs.mkdir` (not recursive): creates directory `p` inside an existing directory. */
    method Mkdir(p: Path) returns (out: Outcome)
      requires Valid()
      modifies this
      ensures Valid()
      ensures out == (if p == [] || p in old(entries) then Fail(AlreadyExists(p))
                      else if PlacementError(old(entries), p).Fail? then PlacementError(old(entries), p)
                      else if p in locked then Fail(Denied(p))
                      else Pass)
      ensures entries == if out.Pass? then old(entries)[p := Dir] else old(entries)
    {
      if p == [] || p in entries {
        out := Fail(AlreadyExists(p));
      } else if PlacementError(entries, p).Fail? {
        out := PlacementError(entries, p);
      } else if p in locked {
        out := Fail(Denied(p));
      } else {
        entries := entries[p := Dir];
        out := Pass;
      }
    }

    /** `fs.copyFile`: copies the file `src` to `dst`, replacing a file already there. */
    method CopyFile(src: Path, dst: Path) returns (out: Outcome)
      requires Valid()
      modifies this
      ensures Valid()
      ensures out == (if src !in old(entries) then Fail(NoEntry(src))
                      else if old(entries)[src].Dir? then Fail(IsDir(src))
                      else WriteError(old(entries), locked, dst))
      ensures entries == if out.Pass? then old(entries)[dst := File(old(entries)[src].content)] else old(entries)
    {
      if src !in entries {
        out := Fail(NoEntry(src));
      } else if entries[src].Dir? {
        out := Fail(IsDir(src));
      } else {
        out := Write(dst, entries[src].content);
      }
    }

    /** `fs.readFile`: the content of the file at `p`. */
    method ReadFile(p: Path) returns (r: Result<string>)
      ensures p !in entries ==> r == Err(NoEntry(p))
      ensures p in entries && entries[p].Dir? ==> r == Err(IsDir(p))
      ensures p in entries && entries[p].File? ==> r == Ok(entries[p].content)
    {
      if p !in entries {
        r := Err(NoEntry(p));
      } else if entries[p].Dir? {
        r := Err(IsDir(p));
      } else {
        r := Ok(entries[p].content);
      }
    }

    /** `fs.writeFile`: creates or overwrites the file at `p`. */
    method Write(p: Path, data: string) returns (out: Outcome)
      requires Valid()
      modifies this
      ensures Valid()
      ensures out == WriteError(old(entries), locked, p)
      ensures entries == if out.Pass? then old(entries)[p := File(data)] else old(entries)
    {
      out := WriteError(entries, locked, p);
      if out.Pass? {
        if p in entries {
          forall q | q in entries ensures !Below(p, q) { FileIsLeaf(entries, p, q); }
        } else {
          forall q | q in entries ensures !Below(p, q) { AbsentIsEmpty(entries, p, q); }
        }
        entries := entries[p := File(data)];
      }
    }
  }
}
