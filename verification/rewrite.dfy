/**
 * The content rewrite of the build step: which files `replaceFileSync`
 * touches, and what it writes back.
 */
module Rewriting {
  import opened Wrappers
  import opened NodePath
  import JsString

  /** The `replace` and `suffix` settings of a build: token, value, and the `|`-separated suffix list. */
  datatype Rewrite = Rewrite(oldContent: string, newContent: string, suffix: string)

  /**
   * The filter of `replaceFileSync` for a path that holds a file: token and
   * value are non-empty (JavaScript truthiness), and either no suffix list is
   * given or the extension without its dot occurs in the list as a substring.
   */
  predicate Qualifies(rw: Rewrite, p: Path) {
    && rw.oldContent != ""
    && rw.newContent != ""
    && (rw.suffix == "" || JsString.Includes(rw.suffix, ExtNoDot(p)))
  }

  /** The content `replaceFileSync` leaves in the file at `p` that held `content`. */
  function Rewritten(rw: Rewrite, p: Path, content: string): string {
    if Qualifies(rw, p) then JsString.ReplaceFirst(content, rw.oldContent, rw.newContent) else content
  }

  /** The content a copy leaves at destination `p`: rewritten when the copy carries the rewrite callback. */
  function Transform(cb: Option<Rewrite>, p: Path, content: string): string {
    match cb
    case None => content
    case Some(rw) => Rewritten(rw, p, content)
  }

  /**
   * What a rewrite does to a file's content: nothing when the file does not
   * qualify or the token is absent; otherwise exactly the first occurrence
   * of the token becomes the value.
   */
  lemma RewrittenSpec(rw: Rewrite, p: Path, content: string)
    ensures !Qualifies(rw, p) ==> Rewritten(rw, p, content) == content
    ensures Qualifies(rw, p) && JsString.IndexOf(content, rw.oldContent).None? ==>
      Rewritten(rw, p, content) == content
    ensures Qualifies(rw, p) && JsString.IndexOf(content, rw.oldContent).Some? ==>
      var i := JsString.IndexOf(content, rw.oldContent).value;
      Rewritten(rw, p, content) == content[..i] + rw.newContent + content[i + |rw.oldContent|..]
  {
    JsString.ReplaceFirstSpec(content, rw.oldContent, rw.newContent);
  }

  /** Because the suffix test is a substring test, a file without an extension always qualifies. */
  lemma NoExtensionQualifies(rw: Rewrite, p: Path)
    requires rw.oldContent != "" && rw.newContent != ""
    requires ExtNoDot(p) == ""
    ensures Qualifies(rw, p)
  {
    assert JsString.OccursAt(rw.suffix, "", 0);
  }

  /** With the list "html|css|js", the extension "ht" passes the filter, being a piece of "html". */
  lemma SubstringFilterAccepts(token: string, value: string)
    requires token != "" && value != ""
    ensures Qualifies(Rewrite(token, value, "html|css|js"), ["page.ht"])
  {
    assert "page.ht" == "page" + "." + "ht";
    ExtnameOf("page", "ht");
    assert [] + ["page.ht"] == ["page.ht"];
    assert JsString.OccursAt("html|css|js", "ht", 0);
  }

  /** With the list "html|css|js", the extension "png" does not pass the filter. */
  lemma SubstringFilterRejects(token: string, value: string)
    requires token != "" && value != ""
    ensures !Qualifies(Rewrite(token, value, "html|css|js"), ["photo.png"])
  {
    PhotoExtension();
    JsString.OccursFirstChar("html|css|js", "png");
    assert 'p' !in "html|css|js";
  }

  lemma PhotoExtension()
    ensures ExtNoDot(["photo.png"]) == "png"
  {
    assert "photo.png" == "photo" + "." + "png";
    ExtnameOf("photo", "png");
    assert [] + ["photo.png"] == ["photo.png"];
  }
}
