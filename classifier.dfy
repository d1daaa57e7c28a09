/**
 * The request classifier (`classifyFile`): the lower-cased request URL is
 * tagged `cacheable` when it contains a cacheable extension anywhere, else
 * `noncacheable` when it contains a non-cacheable extension anywhere, else
 * `page`.
 */
module Classifier {
  import opened Text

  datatype Classification = Cacheable | Noncacheable | Page {
    /** The string stored in `response.locals.type`. */
    function Tag(): (t: string)
      ensures t != ""
    {
      match this
      case Cacheable => "cacheable"
      case Noncacheable => "noncacheable"
      case Page => "page"
    }
  }

  const CacheableExtensions: seq<string> := [".jpg", ".ico"]
  const NoncacheableExtensions: seq<string> := [".js", ".json"]

  /** The classification `classifyFile` stores for the URL `originalUrl`. */
  function Classify(originalUrl: string): (r: Classification)
    ensures r == Cacheable <==>
              Contains(Lower(originalUrl), ".jpg") || Contains(Lower(originalUrl), ".ico")
    ensures r == Noncacheable <==>
              !Contains(Lower(originalUrl), ".jpg") && !Contains(Lower(originalUrl), ".ico") &&
              (Contains(Lower(originalUrl), ".js") || Contains(Lower(originalUrl), ".json"))
    ensures r == Page <==>
              !Contains(Lower(originalUrl), ".jpg") && !Contains(Lower(originalUrl), ".ico") &&
              !Contains(Lower(originalUrl), ".js") && !Contains(Lower(originalUrl), ".json")
  {
    var path := Lower(originalUrl);
    var cacheableExtension := FindContained(CacheableExtensions, path);
    var noncacheableExtension := FindContained(NoncacheableExtensions, path);
    assert forall k :: 0 <= k < 2 ==> CacheableExtensions[k] != "" && NoncacheableExtensions[k] != "";
    if Truthy(cacheableExtension) then Cacheable
    else if Truthy(noncacheableExtension) then Noncacheable
    else Page
  }

  /** The three tags are distinct, so comparing `locals.type` with a tag identifies the classification. */
  lemma TagInjective(c: Classification, d: Classification)
    ensures c.Tag() == d.Tag() <==> c == d
  {
  }

  /** A URL containing `.json` also contains `.js`: the `.json` entry of the non-cacheable list never decides anything. */
  lemma JsonContainsJs(s: string)
    ensures Contains(s, ".json") ==> Contains(s, ".js")
  {
    if Contains(s, ".json") {
      var i :| OccursAt(s, ".json", i);
      assert s[i..i + 5] == ".json";
      assert s[i..i + 3] == s[i..i + 5][..3] == ".js";
      assert OccursAt(s, ".js", i);
    }
  }

  /** Classification is the same as testing `.jpg`/`.ico`, then `.js` alone. */
  lemma ClassifyWithoutJson(originalUrl: string)
    ensures Classify(originalUrl) ==
              if Contains(Lower(originalUrl), ".jpg") || Contains(Lower(originalUrl), ".ico") then Cacheable
              else if Contains(Lower(originalUrl), ".js") then Noncacheable
              else Page
  {
    JsonContainsJs(Lower(originalUrl));
  }

  /** Classification only depends on the lower-cased URL. */
  lemma ClassifyCaseInsensitive(u: string, v: string)
    requires Lower(u) == Lower(v)
    ensures Classify(u) == Classify(v)
    ensures Classify(Lower(u)) == Classify(u)
  {
    LowerIdempotent(u);
  }

  /** A cacheable extension anywhere wins over a non-cacheable one anywhere. */
  lemma CacheableTakesPriority(originalUrl: string, ext: string)
    requires ext in CacheableExtensions
    requires Contains(Lower(originalUrl), ext)
    ensures Classify(originalUrl) == Cacheable
  {
  }

  /** A URL without any `.` is a page. */
  lemma DotlessIsPage(originalUrl: string)
    requires forall i :: 0 <= i < |originalUrl| ==> originalUrl[i] != '.'
    ensures Classify(originalUrl) == Page
  {
    NoDotNoExtension(Lower(originalUrl), ".jpg");
    NoDotNoExtension(Lower(originalUrl), ".ico");
    NoDotNoExtension(Lower(originalUrl), ".js");
    NoDotNoExtension(Lower(originalUrl), ".json");
  }

  /** A style sheet matches neither list and is treated as a page. */
  lemma StyleSheetIsPage()
    ensures Classify("/style.css") == Page
  {
    var path := "/style.css";
    assert Lower(path) == path;
    assert IndexOf(path, ".jpg") == -1 && IndexOf(path, ".ico") == -1;
    assert IndexOf(path, ".js") == -1 && IndexOf(path, ".json") == -1;
  }

  /** Matching is by containment, not by suffix: an extension in the middle of the URL counts. */
  lemma ExtensionMidUrlMatches()
    ensures Classify("/foo.jpgbar") == Cacheable
  {
    assert Lower("/foo.jpgbar") == "/foo.jpgbar";
    assert MatchesFrom("/foo.jpgbar", ".jpg", 4, 0);
    MatchesFromOccurs("/foo.jpgbar", ".jpg", 4, 0);
    assert OccursAt("/foo.jpgbar", ".jpg", 4);
  }

  /** Upper-case extensions match, and a cacheable one wins over a later `.js`. */
  lemma UpperCaseCacheableWins()
    ensures Classify("/LOGO.JPG?v=A.JS") == Cacheable
  {
    assert forall i :: 0 <= i < 16 ==> Lower("/LOGO.JPG?v=A.JS")[i] == "/logo.jpg?v=a.js"[i];
    assert Lower("/LOGO.JPG?v=A.JS") == "/logo.jpg?v=a.js";
    assert MatchesFrom("/logo.jpg?v=a.js", ".jpg", 5, 0);
    MatchesFromOccurs("/logo.jpg?v=a.js", ".jpg", 5, 0);
    assert OccursAt("/logo.jpg?v=a.js", ".jpg", 5);
  }

  /** A JSON document is non-cacheable. */
  lemma JsonIsNoncacheable()
    ensures Classify("/feed.json") == Noncacheable
  {
    assert Lower("/feed.json") == "/feed.json";
    assert IndexOf("/feed.json", ".jpg") == -1 && IndexOf("/feed.json", ".ico") == -1;
    assert MatchesFrom("/feed.json", ".js", 5, 0);
    MatchesFromOccurs("/feed.json", ".js", 5, 0);
    assert OccursAt("/feed.json", ".js", 5);
  }
}
