/**
 * The site configuration object built once at load time: the site name and
 * the current page identifier derived from the URL path. The origin is
 * carried through untouched and plays no part in any decision.
 */
module SiteConfig {

  import opened JsStrings

  const SiteName: string := "SpaceCongo"

  /** The page a bare directory path stands for. */
  const IndexPage: string := "index.html"

  datatype Config = Config(siteName: string, siteUrl: string, currentPage: string)

  /** `pathname.split("/").pop() || "index.html"`: the last path segment,
      or the index page when that segment is empty. */
  function CurrentPage(path: string): (r: string)
    ensures r != []
    ensures '/' !in r
    ensures LastSegment(path, '/') == [] ==> r == IndexPage
    ensures LastSegment(path, '/') != [] ==> r == LastSegment(path, '/')
  {
    var last := LastSegment(path, '/');
    if last == [] then IndexPageIsASegment(); IndexPage else last
  }

  lemma IndexPageIsASegment()
    ensures IndexPage != [] && '/' !in IndexPage
  {
    assert IndexPage == ['i', 'n', 'd', 'e', 'x', '.', 'h', 't', 'm', 'l'];
  }

  /** The configuration for a page served from `origin` at `path`. */
  function Init(origin: string, path: string): (c: Config)
    ensures c.siteName == SiteName && c.siteUrl == origin
    ensures c.currentPage == CurrentPage(path)
    ensures c.currentPage != []
  {
    Config(SiteName, origin, CurrentPage(path))
  }

  /** The site root and a trailing slash both mean the index page. */
  lemma DirectoryPathIsIndex(path: string)
    requires |path| > 0 && path[|path| - 1] == '/'
    ensures CurrentPage(path) == IndexPage
  {
  }

  /** A page reached through any directory is named by its file name. */
  lemma PageInDirectory(dir: string, name: string)
    requires name != [] && '/' !in name
    ensures CurrentPage(dir + "/" + name) == name
  {
    LastSegmentAfterSeparator(dir, '/', name);
  }

  lemma NestedPageName()
    ensures CurrentPage("/fr/contact.html") == "contact.html"
  {
    assert "/fr/contact.html" == "/fr" + "/" + "contact.html";
    PageInDirectory("/fr", "contact.html");
  }
}
