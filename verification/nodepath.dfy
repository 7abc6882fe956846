/**
 * The parts of Node's `path` module the build script uses, over paths
 * written as sequences of segment names: `path.extname` and the splitting
 * that `path.join` applies to a URL pathname.
 */
module NodePath {
  import opened Wrappers
  import JsString

  /** A file-system path as the sequence of its segment names below the root. */
  type Path = seq<string>

  /** A segment name: not empty and free of the separator. */
  predicate IsSegment(name: string) {
    name != "" && '/' !in name
  }

  /** The index of the last `c` in `s` (JavaScript's `lastIndexOf`). */
  function LastIndexOf(s: string, c: char): (r: Option<nat>)
    ensures r.Some? ==> r.value < |s| && s[r.value] == c
    ensures r.Some? ==> forall j :: r.value < j < |s| ==> s[j] != c
    ensures r.None? ==> forall j :: 0 <= j < |s| ==> s[j] != c
    decreases |s|
  {
    if |s| == 0 then None
    else if s[|s| - 1] == c then Some(|s| - 1)
    else LastIndexOf(s[..|s| - 1], c)
  }

  /**
   * `path.extname` of one segment: from the last dot to the end, except for
   * names without a dot, names whose only leading dot is the last dot
   * (".env") and the name "..", which have no extension.
   */
  function Extname(name: string): (e: string)
    ensures e == "" || (e[0] == '.' && '.' !in e[1..])
    ensures e != "" ==> |e| < |name| && name[|name| - |e|..] == e
    ensures e == "" <==> '.' !in name || (name[0] == '.' && '.' !in name[1..]) || name == ".."
  {
    match LastIndexOf(name, '.')
    case None => ""
    case Some(i) =>
      if i == 0 || name == ".." then ""
      else name[i..]
  }

  /** `path.extname(p).slice(1)`: the extension of the last segment without its dot. */
  function ExtNoDot(p: Path): (x: string)
    ensures '.' !in x
  {
    if p == [] then ""
    else
      var e := Extname(p[|p| - 1]);
      if e == "" then "" else e[1..]
  }

  /**
   * The segments `path.join` keeps from a URL pathname: the pieces between
   * slashes, with empty pieces (leading, trailing or doubled slashes) dropped.
   */
  function Segments(s: string): (r: seq<string>)
    ensures forall k :: 0 <= k < |r| ==> IsSegment(r[k])
    decreases |s|
  {
    match JsString.IndexOf(s, "/")
    case None =>
      assert forall j :: 0 <= j < |s| ==> s[j] != '/' by {
        forall j | 0 <= j < |s| ensures s[j] != '/' { assert !JsString.OccursAt(s, "/", j); }
      }
      if s == "" then [] else [s]
    case Some(i) =>
      assert forall j :: 0 <= j < i ==> s[j] != '/' by {
        forall j | 0 <= j < i ensures s[j] != '/' { assert !JsString.OccursAt(s, "/", j); }
      }
      (if i == 0 then [] else [s[..i]]) + Segments(s[i + 1..])
  }

  /** The URL pathname naming `p`: "/" before every segment. */
  function UrlPath(p: Path): string {
    if p == [] then "" else "/" + p[0] + UrlPath(p[1..])
  }

  /** A leading slash contributes no segment. */
  lemma SegmentsAfterSlash(x: string)
    ensures Segments("/" + x) == Segments(x)
  {
    assert JsString.OccursAt("/" + x, "/", 0);
    assert ("/" + x)[1..] == x;
  }

  /** A segment followed by the rest of a pathname splits off as its first segment. */
  lemma SegmentsOfSegment(a: string, x: string)
    requires IsSegment(a)
    ensures x == "" ==> Segments(a) == [a]
    ensures x != "" && x[0] == '/' ==> Segments(a + x) == [a] + Segments(x[1..])
  {
    forall j | 0 <= j < |a| ensures !JsString.OccursAt(a, "/", j) && !JsString.OccursAt(a + x, "/", j) {
      assert (a + x)[j] == a[j];
      assert a[j] != '/';
    }
    if x != "" && x[0] == '/' {
      assert JsString.OccursAt(a + x, "/", |a|);
      assert (a + x)[..|a|] == a;
      assert (a + x)[|a| + 1..] == x[1..];
    }
  }

  /** The URL pathname of a non-empty path: a slash, the first segment, the rest. */
  lemma UrlPathCons(p: Path)
    requires p != []
    ensures UrlPath(p) == "/" + (p[0] + UrlPath(p[1..]))
  {
  }

  /** Splitting the URL pathname of a path gives back that path. */
  lemma {:induction false} SegmentsOfUrlPath(p: Path)
    requires forall k :: 0 <= k < |p| ==> IsSegment(p[k])
    ensures Segments(UrlPath(p)) == p
    decreases |p|
  {
    if p != [] {
      SegmentsOfCons(p[0], p[1..]);
      SegmentsOfUrlPath(p[1..]);
      assert p == [p[0]] + p[1..];
    }
  }

  /** Splitting the URL pathname of a path with first segment `a` gives `a`, then the rest's segments. */
  lemma SegmentsOfCons(a: string, q: Path)
    requires IsSegment(a)
    ensures Segments(UrlPath([a] + q)) == [a] + Segments(UrlPath(q))
  {
    var rest := UrlPath(q);
    UrlPathCons([a] + q);
    assert ([a] + q)[1..] == q;
    assert UrlPath([a] + q) == "/" + (a + rest);
    SegmentsAfterSlash(a + rest);
    if q == [] {
      assert a + rest == a;
      SegmentsOfSegment(a, rest);
    } else {
      UrlPathCons(q);
      SegmentsOfSegment(a, rest);
      assert rest == "/" + rest[1..];
      SegmentsAfterSlash(rest[1..]);
    }
  }


  /** The extension of a name "base.ext" with a non-empty base and a dot-free, non-empty `ext` is ".ext". */
  lemma ExtnameOf(base: string, ext: string)
    requires base != "" && ext != "" && '.' !in ext
    ensures Extname(base + "." + ext) == "." + ext
    ensures forall p: Path :: ExtNoDot(p + [base + "." + ext]) == ext
  {
    var name := base + "." + ext;
    assert name[|base|] == '.';
    forall j | |base| < j < |name| ensures name[j] != '.' {
      assert name[j] == ext[j - |base| - 1];
    }
    assert LastIndexOf(name, '.') == Some(|base|);
    assert name[|base|..] == "." + ext;
    forall p: Path ensures ExtNoDot(p + [name]) == ext {
      assert (p + [name])[|p + [name]| - 1] == name;
      assert ("." + ext)[1..] == ext;
    }
  }

  /** A segment that `path.join` keeps as a name: neither "." nor "..". */
  predicate IsName(s: string) {
    IsSegment(s) && s != "." && s != ".."
  }

  /**
   * `path.join(base, ...)` on the segments of the joined tail: "." is
   * dropped and ".." removes the last segment so far, never going above the
   * file-system root.
   */
  function Join(base: Path, segs: seq<string>): Path
    decreases |segs|
  {
    if segs == [] then base
    else if segs[0] == "." then Join(base, segs[1..])
    else if segs[0] == ".." then Join(if base == [] then [] else base[..|base| - 1], segs[1..])
    else Join(base + [segs[0]], segs[1..])
  }

  /** Joining plain names appends them. */
  lemma {:induction false} JoinNames(base: Path, segs: seq<string>)
    requires forall k :: 0 <= k < |segs| ==> segs[k] != "." && segs[k] != ".."
    ensures Join(base, segs) == base + segs
    decreases |segs|
  {
    if segs != [] {
      JoinNames(base + [segs[0]], segs[1..]);
      assert base + [segs[0]] + segs[1..] == base + segs;
    }
  }

  /** Without ".." segments the join stays within `base`. */
  lemma {:induction false} JoinStaysWithin(base: Path, segs: seq<string>)
    requires forall k :: 0 <= k < |segs| ==> segs[k] != ".."
    ensures |Join(base, segs)| >= |base| && Join(base, segs)[..|base|] == base
    decreases |segs|
  {
    if segs != [] {
      if segs[0] == "." {
        JoinStaysWithin(base, segs[1..]);
      } else {
        var next := base + [segs[0]];
        JoinStaysWithin(next, segs[1..]);
        var r := Join(next, segs[1..]);
        assert r[..|base|] == r[..|next|][..|base|];
      }
    }
  }
}
