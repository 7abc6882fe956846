/**
 * The request handler of `staticServer`: the file a request names, and the
 * response it gets (404 when the file is missing, 500 when the handler's
 * header test throws, 200 otherwise, with the content encoding it
 * negotiates).  Streams, compression bytes and the MIME table are outside
 * the model: the response says which file is streamed and how it is
 * encoded, and the MIME lookup is a parameter.
 */
module StaticServer {
  import opened Wrappers
  import opened NodePath
  import opened Tree
  import JsString

  /** The `Content-Encoding` of a 200 response; `Identity` when the header is not set. */
  datatype Encoding = Identity | Gzip | Deflate

  /** What the response carries: a file piped from a read stream, a text message, or the caught error. */
  datatype Body = FileStream(file: Path) | Message(text: string) | CaughtError

  datatype Response = Response(status: nat, contentType: string, encoding: Encoding, body: Body)

  /** The settings the handler reads: static root, index page, the gzip switch and the `|`-separated compress list. */
  datatype Settings = Settings(root: Path, index: string, gzip: bool, compress: string)

  /** The default settings over a given root: "index.html", gzip on, compress "html|css|js". */
  function Defaults(root: Path): Settings {
    Settings(root, "index.html", true, "html|css|js")
  }

  /** Whether a pathname ends with a slash (`pathname.slice(-1) === '/'`). */
  predicate EndsWithSlash(pathname: string) {
    |pathname| > 0 && pathname[|pathname| - 1] == '/'
  }

  /** The file a request names: the index page for a pathname ending in '/', otherwise the pathname, joined to the root. */
  function ResolvePath(cfg: Settings, pathname: string): Path {
    Join(cfg.root, Segments(if EndsWithSlash(pathname) then cfg.index else pathname))
  }

  /**
   * `fs.existsSync` of the resolved file: an entry of the tree, or the
   * file-system root itself, which always exists (a request can climb to it
   * with "..").
   */
  predicate Found(tree: Entries, file: Path) {
    file == [] || file in tree
  }

  /** The file is served compressed when possible: gzip is on and its extension occurs in the compress list. */
  predicate Compressible(cfg: Settings, file: Path) {
    cfg.gzip && JsString.Includes(cfg.compress, ExtNoDot(file))
  }

  /** The encoding named in an `Accept-Encoding` header: gzip if mentioned, else deflate if mentioned, else none. */
  function Negotiate(header: string): Encoding {
    if JsString.Includes(header, "gzip") then Gzip
    else if JsString.Includes(header, "deflate") then Deflate
    else Identity
  }

  /** The token for an encoding in `Accept-Encoding` and `Content-Encoding`. */
  function EncodingName(e: Encoding): string {
    match e
    case Identity => "identity"
    case Gzip => "gzip"
    case Deflate => "deflate"
  }

  /** The 404 message for a pathname. */
  function NotFoundText(pathname: string): string {
    "This request URL " + pathname + " was not found on this server."
  }

  /**
   * The handler's response to a request for `pathname` against the tree,
   * with `acceptEncoding` the request's `Accept-Encoding` header, if sent.
   * The header is read only for a compressible file, and reading a missing
   * header throws, which the handler turns into a 500.
   */
  function Respond(cfg: Settings, tree: Entries, mimeOf: Path -> Option<string>, pathname: string,
                   acceptEncoding: Option<string>): (r: Response)
    ensures r.status == 200 || r.status == 404 || r.status == 500
    ensures r.status == 404 <==> ResolvePath(cfg, pathname) != [] && ResolvePath(cfg, pathname) !in tree
  {
    var file := ResolvePath(cfg, pathname);
    if !Found(tree, file) then
      Response(404, "text/plain", Identity, Message(NotFoundText(pathname)))
    else if Compressible(cfg, file) && acceptEncoding.None? then
      Response(500, "text/plain", Identity, CaughtError)
    else
      Response(200, mimeOf(file).GetOr("text/plain"),
               if Compressible(cfg, file) then Negotiate(acceptEncoding.value) else Identity,
               FileStream(file))
  }

  /** The last character of the URL pathname of a non-empty path of segments is not a slash. */
  lemma {:induction false} UrlPathNoTrailingSlash(p: Path)
    requires forall k :: 0 <= k < |p| ==> IsSegment(p[k])
    ensures !EndsWithSlash(UrlPath(p))
    decreases |p|
  {
    if p != [] {
      UrlPathCons(p);
      var a, rest := p[0], UrlPath(p[1..]);
      assert UrlPath(p) == "/" + a + rest;
      if p[1..] == [] {
        assert UrlPath(p)[|UrlPath(p)| - 1] == a[|a| - 1];
        assert a[|a| - 1] in a;
      } else {
        UrlPathNoTrailingSlash(p[1..]);
        assert UrlPath(p)[|UrlPath(p)| - 1] == rest[|rest| - 1];
      }
    }
  }

  /**
   * A request for the URL pathname of a path of segments names that path
   * under the root, and a pathname ending in '/' names the index page under
   * the root.
   */
  lemma ResolveUrl(cfg: Settings, p: Path, dir: string)
    requires forall k :: 0 <= k < |p| ==> IsName(p[k])
    ensures ResolvePath(cfg, UrlPath(p)) == cfg.root + p
    ensures ResolvePath(cfg, dir + "/") == Join(cfg.root, Segments(cfg.index))
  {
    UrlPathNoTrailingSlash(p);
    SegmentsOfUrlPath(p);
    JoinNames(cfg.root, p);
    assert EndsWithSlash(dir + "/");
  }

  /** A pathname (or, for one ending in '/', an index page) without ".." segments names a file inside the root. */
  lemma ResolveStaysInRoot(cfg: Settings, pathname: string)
    requires forall k :: 0 <= k < |Segments(pathname)| ==> Segments(pathname)[k] != ".."
    requires forall k :: 0 <= k < |Segments(cfg.index)| ==> Segments(cfg.index)[k] != ".."
    ensures var p := ResolvePath(cfg, pathname); |p| >= |cfg.root| && p[..|cfg.root|] == cfg.root
  {
    JoinStaysWithin(cfg.root, Segments(if EndsWithSlash(pathname) then cfg.index else pathname));
  }

  /**
   * As `path.join` resolves "..", a request for "/../" followed by a name
   * names a sibling of the root: a file outside the static root.
   */
  lemma ResolveEscapesRoot(cfg: Settings, name: string)
    requires cfg.root != [] && IsName(name) && name != cfg.root[|cfg.root| - 1]
    ensures var p := ResolvePath(cfg, "/../" + name);
      p == cfg.root[..|cfg.root| - 1] + [name] && !(|p| >= |cfg.root| && p[..|cfg.root|] == cfg.root)
  {
    DotDotSegments(name);
    var p := ResolvePath(cfg, "/../" + name);
    var up := cfg.root[..|cfg.root| - 1];
    assert Join(up, [name]) == Join(up + [name], []);
    assert p == up + [name];
    assert p[|cfg.root| - 1] == name;
  }

  /**
   * Under a root one level deep, "/.." climbs to the file-system root,
   * which exists whatever the tree holds.  It has no extension, so with
   * the defaults it counts as compressible: a client sending "gzip" gets a
   * 200 with gzip, and one sending no header gets the 500.
   */
  lemma RootRequest(dir: string, tree: Entries, mimeOf: Path -> Option<string>)
    requires IsName(dir)
    ensures ResolvePath(Defaults([dir]), "/..") == []
    ensures Respond(Defaults([dir]), tree, mimeOf, "/..", Some("gzip")) ==
      Response(200, mimeOf([]).GetOr("text/plain"), Gzip, FileStream([]))
    ensures Respond(Defaults([dir]), tree, mimeOf, "/..", None).status == 500
  {
    RootPath(dir);
    assert JsString.OccursAt("html|css|js", "", 0);
    assert JsString.OccursAt("gzip", "gzip", 0);
  }

  lemma RootPath(dir: string)
    requires IsName(dir)
    ensures ResolvePath(Defaults([dir]), "/..") == []
  {
    assert "/.." == "/" + "..";
    SegmentsAfterSlash("..");
    SegmentsOfSegment("..", "");
    assert !EndsWithSlash("/..");
    assert Join([dir], [".."]) == Join([], []);
  }

  /** The pathname "/../name" splits into "..", then the name, and does not end with a slash. */
  lemma DotDotSegments(name: string)
    requires IsName(name)
    ensures Segments("/../" + name) == ["..", name]
    ensures !EndsWithSlash("/../" + name)
  {
    var pathname := "/../" + name;
    assert pathname[|pathname| - 1] == name[|name| - 1] && name[|name| - 1] in name;
    assert pathname == "/" + ".." + "/" + name;
    assert IsSegment("..");
    SegmentsOfPair("..", name);
  }

  /** "/a/b" splits into `a` and `b`. */
  lemma SegmentsOfPair(a: string, b: string)
    requires IsSegment(a) && IsSegment(b)
    ensures Segments("/" + a + "/" + b) == [a, b]
  {
    assert [a, b][1..] == [b] && [b][1..] == [];
    UrlPathCons([a, b]);
    UrlPathCons([b]);
    assert UrlPath([a, b]) == "/" + (a + ("/" + (b + "")));
    assert "/" + a + "/" + b == UrlPath([a, b]);
    SegmentsOfUrlPath([a, b]);
  }

  /** A missing file gets a plain-text 404 whose message names the requested pathname. */
  lemma NotFound(cfg: Settings, tree: Entries, mimeOf: Path -> Option<string>, pathname: string,
                 acceptEncoding: Option<string>)
    requires !Found(tree, ResolvePath(cfg, pathname))
    ensures var r := Respond(cfg, tree, mimeOf, pathname, acceptEncoding);
      && r.status == 404 && r.contentType == "text/plain" && r.encoding == Identity
      && r.body.Message? && JsString.Includes(r.body.text, pathname)
  {
    var text := NotFoundText(pathname);
    assert text[17..17 + |pathname|] == pathname;
    assert JsString.OccursAt(text, pathname, 17);
  }

  /**
   * An existing file is streamed, with 200 and its MIME type (text/plain
   * when unknown), exactly when no missing header is needed; otherwise the
   * response is a plain-text 500.
   */
  lemma ServesExistingFile(cfg: Settings, tree: Entries, mimeOf: Path -> Option<string>, pathname: string,
                           acceptEncoding: Option<string>)
    requires Found(tree, ResolvePath(cfg, pathname))
    ensures var file := ResolvePath(cfg, pathname);
      var r := Respond(cfg, tree, mimeOf, pathname, acceptEncoding);
      && (r.status == 200 <==> !(Compressible(cfg, file) && acceptEncoding.None?))
      && (r.status == 200 ==> r.body == FileStream(file) && r.contentType == mimeOf(file).GetOr("text/plain"))
      && (r.status == 500 ==> r.body == CaughtError && r.contentType == "text/plain")
  {
  }

  /**
   * A response is only ever encoded for a compressible file, with an
   * encoding the client's header names; gzip is preferred to deflate, and
   * a compressible file is encoded whenever the header names either.
   */
  lemma EncodingAccepted(cfg: Settings, tree: Entries, mimeOf: Path -> Option<string>, pathname: string,
                         acceptEncoding: Option<string>)
    ensures var file := ResolvePath(cfg, pathname);
      var r := Respond(cfg, tree, mimeOf, pathname, acceptEncoding);
      && (r.encoding != Identity ==>
            r.status == 200 && Compressible(cfg, file) && acceptEncoding.Some? &&
            JsString.Includes(acceptEncoding.value, EncodingName(r.encoding)))
      && (r.encoding == Deflate ==> !JsString.Includes(acceptEncoding.value, "gzip"))
      && (r.status == 200 && Compressible(cfg, file) && JsString.Includes(acceptEncoding.value, "gzip") ==>
            r.encoding == Gzip)
      && (r.status == 200 && Compressible(cfg, file) && JsString.Includes(acceptEncoding.value, "deflate") ==>
            r.encoding != Identity)
  {
  }

  /** A found, compressible file asked for with a header that names gzip is streamed gzip-compressed with status 200. */
  lemma ServedGzip(cfg: Settings, tree: Entries, mimeOf: Path -> Option<string>, pathname: string, header: string)
    requires Found(tree, ResolvePath(cfg, pathname)) && Compressible(cfg, ResolvePath(cfg, pathname))
    requires JsString.OccursAt(header, "gzip", 0)
    ensures var file := ResolvePath(cfg, pathname);
      Respond(cfg, tree, mimeOf, pathname, Some(header)) ==
      Response(200, mimeOf(file).GetOr("text/plain"), Gzip, FileStream(file))
  {
  }

  /** For a file that is not compressible the header is never read: any two headers get the same response. */
  lemma HeaderIgnored(cfg: Settings, tree: Entries, mimeOf: Path -> Option<string>, pathname: string,
                      h1: Option<string>, h2: Option<string>)
    requires !Compressible(cfg, ResolvePath(cfg, pathname))
    ensures Respond(cfg, tree, mimeOf, pathname, h1) == Respond(cfg, tree, mimeOf, pathname, h2)
  {
  }

  /**
   * Because the compress test is a substring test, a file without an
   * extension counts as compressible when gzip is on, so requesting it
   * without an `Accept-Encoding` header gets a 500.
   */
  lemma ExtensionlessFails(cfg: Settings, tree: Entries, mimeOf: Path -> Option<string>, pathname: string)
    requires cfg.gzip && Found(tree, ResolvePath(cfg, pathname)) && ExtNoDot(ResolvePath(cfg, pathname)) == ""
    ensures Respond(cfg, tree, mimeOf, pathname, None).status == 500
  {
    assert JsString.OccursAt(cfg.compress, "", 0);
  }

  /**
   * With the defaults, "/" serves `index.html` from the root, compressed
   * with gzip for a browser that accepts "gzip, deflate, br".
   */
  lemma IndexPageScenario(root: Path, tree: Entries, mimeOf: Path -> Option<string>)
    requires root + ["index.html"] in tree
    ensures Respond(Defaults(root), tree, mimeOf, "/", Some("gzip, deflate, br")) ==
      Response(200, mimeOf(root + ["index.html"]).GetOr("text/plain"), Gzip, FileStream(root + ["index.html"]))
  {
    IndexFile(root);
    HtmlListed();
    assert JsString.OccursAt("gzip, deflate, br", "gzip", 0);
    ServedGzip(Defaults(root), tree, mimeOf, "/", "gzip, deflate, br");
  }

  /** "/" resolves, under the defaults, to the index page, whose extension is "html". */
  lemma IndexFile(root: Path)
    ensures ResolvePath(Defaults(root), "/") == root + ["index.html"]
    ensures ExtNoDot(root + ["index.html"]) == "html"
  {
    IndexPath(root);
    HtmlExtension(root);
  }

  lemma IndexPath(root: Path)
    ensures ResolvePath(Defaults(root), "/") == root + ["index.html"]
  {
    assert EndsWithSlash("/");
    IndexSegments();
    JoinNames(root, ["index.html"]);
  }

  lemma HtmlExtension(root: Path)
    ensures ExtNoDot(root + ["index.html"]) == "html"
  {
    assert "index.html" == "index" + "." + "html";
    ExtnameOf("index", "html");
  }

  /** "html" occurs in the default compress list. */
  lemma HtmlListed()
    ensures JsString.Includes("html|css|js", "html")
  {
    assert JsString.OccursAt("html|css|js", "html", 0);
  }

  /** "js" occurs in the default compress list. */
  lemma JsListed()
    ensures JsString.Includes("html|css|js", "js")
  {
    assert JsString.OccursAt("html|css|js", "js", 9);
  }

  /** "png" does not occur in the default compress list: it has no 'p'. */
  lemma PngNotListed()
    ensures !JsString.Includes("html|css|js", "png")
  {
    JsString.OccursFirstChar("html|css|js", "png");
    assert 'p' !in "html|css|js";
  }

  lemma IndexSegments()
    ensures Segments("index.html") == ["index.html"]
  {
    assert IsSegment("index.html");
    SegmentsOfSegment("index.html", "");
  }

  /**
   * With the defaults, a client that sends no `Accept-Encoding` header gets
   * a 500 for the index page, since html is in the compress list.
   */
  lemma IndexPageWithoutHeader(root: Path, tree: Entries, mimeOf: Path -> Option<string>)
    requires root + ["index.html"] in tree
    ensures Respond(Defaults(root), tree, mimeOf, "/", None) == Response(500, "text/plain", Identity, CaughtError)
  {
    IndexFile(root);
    HtmlListed();
  }

  /** A request for "/name" names `name` under the root. */
  lemma ResolveName(cfg: Settings, name: string)
    requires IsName(name)
    ensures ResolvePath(cfg, "/" + name) == cfg.root + [name]
  {
    ResolveUrl(cfg, [name], "");
    assert UrlPath([name]) == "/" + name;
  }

  /** With the defaults, "/app.js" asked for with "gzip" is served gzip-compressed. */
  lemma ScriptScenario(root: Path, tree: Entries, mimeOf: Path -> Option<string>, name: string)
    requires name == "app.js" && root + [name] in tree
    ensures Respond(Defaults(root), tree, mimeOf, "/" + name, Some("gzip")) ==
      Response(200, mimeOf(root + [name]).GetOr("text/plain"), Gzip, FileStream(root + [name]))
  {
    ScriptCompressible(root, name);
    GzipHeader();
    ServedGzip(Defaults(root), tree, mimeOf, "/" + name, "gzip");
  }

  /** Under the defaults, "/app.js" names `app.js` under the root, and a ".js" file is compressible. */
  lemma ScriptCompressible(root: Path, name: string)
    requires name == "app.js"
    ensures ResolvePath(Defaults(root), "/" + name) == root + [name]
    ensures Compressible(Defaults(root), root + [name])
  {
    NamedFile(Defaults(root), name, "app", "js");
    JsListed();
  }

  /** The header "gzip" names gzip. */
  lemma GzipHeader()
    ensures JsString.OccursAt("gzip", "gzip", 0)
  {
  }

  /** With the defaults, "/photo.png" asked for with "gzip" is served as it is: png is not compressible. */
  lemma ImageScenario(root: Path, tree: Entries, mimeOf: Path -> Option<string>, name: string)
    requires name == "photo.png" && root + [name] in tree
    ensures Respond(Defaults(root), tree, mimeOf, "/" + name, Some("gzip")) ==
      Response(200, mimeOf(root + [name]).GetOr("text/plain"), Identity, FileStream(root + [name]))
  {
    NamedFile(Defaults(root), name, "photo", "png");
    PngNotListed();
  }

  /** A request for "/name", with `name` of the form "base.ext", names that file under the root, whose extension without its dot is `ext`. */
  lemma NamedFile(cfg: Settings, name: string, base: string, ext: string)
    requires name == base + "." + ext && IsSegment(base) && IsSegment(ext) && '.' !in ext
    ensures ResolvePath(cfg, "/" + name) == cfg.root + [name]
    ensures ExtNoDot(cfg.root + [name]) == ext
  {
    assert |name| == |base| + 1 + |ext| && '/' !in name;
    ResolveName(cfg, name);
    ExtnameOf(base, ext);
  }
}
