/**
 * The page fallback of the catch-all GET handler: a request classified as a
 * page, which static delivery did not serve, is answered with the
 * pre-rendered `.html` file for its lower-cased path when that file exists
 * under the physical root, and with a redirect to the home post otherwise.
 */
module Fallback {
  import opened Text
  import opened Classifier

  /** The directory the host serves from. */
  const PhysicalRoot := "../dist"
  /** The fixed redirect target for a page whose file is missing. */
  const HomeRoute := "/posts/home"
  const HtmlExtension := ".html"

  /** What the handler does with the response. */
  datatype Action =
    | ServeFile(path: string)   // `sendFile(path, {root: PhysicalRoot})`
    | Redirect(target: string)  // `redirect(target)`
    | NoAction                  // the handler leaves the response alone

  /**
   * The handler's decision for the URL `originalUrl` classified `c`, where
   * `fileExists` answers `fs.existsSync` for a file-system path.
   */
  function Resolve(c: Classification, originalUrl: string, fileExists: string -> bool): (a: Action)
    ensures a == NoAction <==> c != Page
    ensures a.ServeFile? ==> a.path == Lower(originalUrl) + HtmlExtension && fileExists(PhysicalRoot + a.path)
    ensures a.Redirect? ==> a.target == HomeRoute && !fileExists(PhysicalRoot + Lower(originalUrl) + HtmlExtension)
    ensures c == Page ==> (a.ServeFile? <==> fileExists(PhysicalRoot + Lower(originalUrl) + HtmlExtension))
  {
    if c == Page then
      var path := Lower(originalUrl);
      if !fileExists(PhysicalRoot + path + HtmlExtension) then Redirect(HomeRoute)
      else
        assert PhysicalRoot + path + HtmlExtension == PhysicalRoot + (path + HtmlExtension);
        ServeFile(path + HtmlExtension)
    else NoAction
  }

  /** The redirect target never depends on the requested path. */
  lemma RedirectTargetFixed(u: string, v: string, fileExists: string -> bool)
    requires Resolve(Page, u, fileExists).Redirect?
    requires Resolve(Page, v, fileExists).Redirect?
    ensures Resolve(Page, u, fileExists) == Resolve(Page, v, fileExists) == Redirect("/posts/home")
  {
  }

  /** A served path is already lower case and ends in `.html`. */
  lemma ServedPathNormalised(c: Classification, originalUrl: string, fileExists: string -> bool)
    requires Resolve(c, originalUrl, fileExists).ServeFile?
    ensures var p := Resolve(c, originalUrl, fileExists).path;
            Lower(p) == p && |p| >= 5 && p[|p| - 5..] == ".html"
  {
    LowerAppend(Lower(originalUrl), HtmlExtension);
    LowerIdempotent(originalUrl);
    assert Lower(HtmlExtension) == HtmlExtension;
  }

  /** An extension with a leading `.` and no other `.`. */
  predicate SingleDot(sub: string) {
    |sub| >= 2 && sub[0] == '.' && forall k :: 1 <= k < |sub| ==> sub[k] != '.'
  }

  /**
   * Appending `.html` to a path creates no occurrence of an extension that has
   * a single leading dot and is not a substring of `.html`.
   */
  lemma {:induction false} AppendHtmlNoNewOccurrence(path: string, ext: string)
    requires SingleDot(ext)
    requires !Contains(HtmlExtension, ext)
    requires !Contains(path, ext)
    ensures !Contains(path + HtmlExtension, ext)
  {
    var s := path + HtmlExtension;
    forall i | 0 <= i && i + |ext| <= |s|
      ensures !OccursAt(s, ext, i)
    {
      if i + |ext| <= |path| {
        assert s[i..i + |ext|] == path[i..i + |ext|];
        assert !OccursAt(path, ext, i);
      } else if i >= |path| {
        assert s[i..i + |ext|] == HtmlExtension[i - |path|..i - |path| + |ext|];
        assert !OccursAt(HtmlExtension, ext, i - |path|);
      } else {
        var k := |path| - i;
        assert s[i..i + |ext|][k] == '.' != ext[k];
      }
    }
  }

  /** The file served for a page is itself classified as a page. */
  lemma ServedFileIsPage(c: Classification, originalUrl: string, fileExists: string -> bool)
    requires c == Classify(originalUrl)
    requires Resolve(c, originalUrl, fileExists).ServeFile?
    ensures Classify(Resolve(c, originalUrl, fileExists).path) == Page
  {
    var path := Lower(originalUrl);
    ServedPathNormalised(c, originalUrl, fileExists);
    assert IndexOf(HtmlExtension, ".jpg") == -1 && IndexOf(HtmlExtension, ".ico") == -1;
    assert IndexOf(HtmlExtension, ".js") == -1 && IndexOf(HtmlExtension, ".json") == -1;
    AppendHtmlNoNewOccurrence(path, ".jpg");
    AppendHtmlNoNewOccurrence(path, ".ico");
    AppendHtmlNoNewOccurrence(path, ".js");
    AppendHtmlNoNewOccurrence(path, ".json");
  }

  /** A page whose pre-rendered file exists is served from that file. */
  lemma ExistingPageServed(fileExists: string -> bool)
    requires fileExists("../dist/posts/hello-world.html")
    ensures Resolve(Classify("/posts/hello-world"), "/posts/hello-world", fileExists)
            == ServeFile("/posts/hello-world.html")
  {
    assert forall i :: 0 <= i < |"/posts/hello-world"| ==> "/posts/hello-world"[i] != '.';
    assert Lower("/posts/hello-world") == "/posts/hello-world";
    DotlessIsPage("/posts/hello-world");
    ExamplePaths();
  }

  /** A page whose pre-rendered file is missing is redirected to the home post. */
  lemma MissingPageRedirected(fileExists: string -> bool)
    requires !fileExists("../dist/posts/missing.html")
    ensures Resolve(Classify("/posts/missing"), "/posts/missing", fileExists) == Redirect("/posts/home")
  {
    assert forall i :: 0 <= i < |"/posts/missing"| ==> "/posts/missing"[i] != '.';
    assert Lower("/posts/missing") == "/posts/missing";
    DotlessIsPage("/posts/missing");
    ExamplePaths();
  }

  /** The file-system and served paths of the two example pages. */
  lemma ExamplePaths()
    ensures PhysicalRoot + "/posts/hello-world" + HtmlExtension == "../dist/posts/hello-world.html"
    ensures "/posts/hello-world" + HtmlExtension == "/posts/hello-world.html"
    ensures PhysicalRoot + "/posts/missing" + HtmlExtension == "../dist/posts/missing.html"
  {
  }
}
