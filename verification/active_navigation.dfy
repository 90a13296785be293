/**
 * Marking the navigation link of the current page. Every link first loses
 * its "active" class; then a link gains it when its href equals the current
 * page, or when the current page is empty and the href is the index page,
 * or when the current page includes the href with its first ".html"
 * removed and the href is not the index page.
 */
module ActiveNavigation {

  import opened JsStrings
  import opened SiteConfig

  /** A navigation anchor: its `href` attribute and whether it carries the
      "active" class. */
  datatype Link = Link(href: string, active: bool)

  const HtmlExtension: string := ".html"

  /** The three-way match of one link against the current page. */
  predicate IsActive(href: string, currentPage: string)
    ensures href == currentPage ==> IsActive(href, currentPage)
    ensures href == IndexPage ==>
      (IsActive(href, currentPage) <==> currentPage == IndexPage || currentPage == [])
    ensures href != IndexPage && href != currentPage ==>
      (IsActive(href, currentPage) <==> Includes(currentPage, ReplaceFirst(href, HtmlExtension, [])))
  {
    || href == currentPage
    || (currentPage == [] && href == IndexPage)
    || (Contains(currentPage, ReplaceFirst(href, HtmlExtension, [])) && href != IndexPage)
  }

  /** The link list after marking: same links in the same order, each
      active exactly when it matches, whatever it carried before. */
  function SetActiveNavigation(links: seq<Link>, currentPage: string): (r: seq<Link>)
    ensures |r| == |links|
    ensures forall i :: 0 <= i < |r| ==> r[i].href == links[i].href
    ensures forall i :: 0 <= i < |r| && links[i].href == currentPage ==> r[i].active
    ensures forall i :: 0 <= i < |r| && r[i].active ==> IsActive(links[i].href, currentPage)
    ensures forall i :: 0 <= i < |r| && IsActive(links[i].href, currentPage) ==> r[i].active
  {
    seq(|links|, i requires 0 <= i < |links| => Link(links[i].href, IsActive(links[i].href, currentPage)))
  }

  /** The previous marking is forgotten: two link lists with the same hrefs
      come out identical. */
  lemma MarkingIgnoresPreviousState(a: seq<Link>, b: seq<Link>, currentPage: string)
    requires |a| == |b|
    requires forall i :: 0 <= i < |a| ==> a[i].href == b[i].href
    ensures SetActiveNavigation(a, currentPage) == SetActiveNavigation(b, currentPage)
  {
    var ra := SetActiveNavigation(a, currentPage);
    var rb := SetActiveNavigation(b, currentPage);
    forall i | 0 <= i < |ra|
      ensures ra[i] == rb[i]
    {
      assert ra[i].active <==> IsActive(a[i].href, currentPage);
      assert rb[i].active <==> IsActive(b[i].href, currentPage);
    }
  }

  /** The current page derived from a URL is never empty, so the second
      branch of the match never fires and the match reduces to equality or
      the stem fallback. */
  lemma EmptyPageBranchIsDead(path: string, href: string)
    ensures IsActive(href, CurrentPage(path)) <==>
      || href == CurrentPage(path)
      || (href != IndexPage && Contains(CurrentPage(path), ReplaceFirst(href, HtmlExtension, [])))
  {
  }

  /** Consequently the index link is lit on the index page and nowhere else. */
  lemma IndexLinkOnlyOnIndexPage(path: string)
    ensures IsActive(IndexPage, CurrentPage(path)) <==> CurrentPage(path) == IndexPage
  {
  }

  /** Removing the first ".html" from "stem.html" leaves the stem, when the
      stem itself holds no dot. */
  lemma {:induction false} StemOfHtmlHref(stem: string)
    requires '.' !in stem
    ensures ReplaceFirst(stem + HtmlExtension, HtmlExtension, []) == stem
  {
    var s := stem + HtmlExtension;
    assert OccursAt(s, HtmlExtension, |stem|) by {
      assert s[|stem|..|stem| + |HtmlExtension|] == HtmlExtension;
    }
    forall j | 0 <= j < |stem|
      ensures !OccursAt(s, HtmlExtension, j)
    {
      assert s[j] == stem[j];
    }
    var i := IndexOf(s, HtmlExtension).value;
    assert i == |stem|;
    assert s[..i] == stem;
    assert s[i + |HtmlExtension|..] == [];
  }

  /** The fallback in practice: a link "stem.html" other than the index is
      lit on every page whose name includes its stem, not only its own. */
  lemma StemLinkActiveIff(stem: string, path: string)
    requires '.' !in stem
    requires stem + HtmlExtension != IndexPage
    ensures IsActive(stem + HtmlExtension, CurrentPage(path)) <==> Contains(CurrentPage(path), stem)
  {
    StemOfHtmlHref(stem);
    var page := CurrentPage(path);
    if stem + HtmlExtension == page {
      assert page[..|stem|] == stem;
      IncludesPrefix(page, stem);
    }
  }

  /** More than one link can be active at once: on "blog-archive.html" both
      the "blog.html" and the "blog-archive.html" links are marked. */
  lemma SeveralLinksCanBeActive()
    ensures var r := SetActiveNavigation([Link("blog.html", false), Link("blog-archive.html", false)],
                                         CurrentPage("/blog-archive.html"));
            r[0].active && r[1].active
  {
    var page := CurrentPage("/blog-archive.html");
    BlogArchivePage();
    BlogLinkOnBlogArchive();
    var links := [Link("blog.html", false), Link("blog-archive.html", false)];
    assert links[0].href == "blog.html" && links[1].href == page;
  }

  lemma BlogArchivePage()
    ensures CurrentPage("/blog-archive.html") == "blog-archive.html"
  {
    assert "/blog-archive.html" == [] + "/" + "blog-archive.html";
    PageInDirectory([], "blog-archive.html");
  }

  lemma BlogLinkOnBlogArchive()
    ensures IsActive("blog.html", CurrentPage("/blog-archive.html"))
  {
    BlogArchivePage();
    var page := "blog-archive.html";
    assert "blog.html" == "blog" + HtmlExtension;
    assert "blog.html" != IndexPage by {
      assert "blog.html"[0] != IndexPage[0];
    }
    StemLinkActiveIff("blog", "/blog-archive.html");
    assert page[..4] == "blog";
    IncludesPrefix(page, "blog");
  }
}
