/**
 * The two static lookup tables of the script: page file name to display
 * title (used for the document title) and page key to content outline
 * (exported for other scripts, `null` for an unknown key).
 */
module PageTables {

  import opened Wrappers
  import opened SiteConfig

  const Tagline: string := "Solutions Immobilières Intelligentes"

  /** The text after the page name in every document title: " | ", the site
      name, " - " and the tagline (the script spells the site name out in
      the template rather than reading it from the configuration). */
  const TitleSuffix: string := " | " + SiteName + " - " + Tagline

  const PageTitles: map<string, string> := map[
    "index.html" := "Accueil",
    "solutions.html" := "Solutions",
    "technologies.html" := "Technologies",
    "realisations.html" := "Réalisations",
    "entreprise.html" := "Entreprise",
    "contact.html" := "Contact",
    "login.html" := "Connexion",
    "blog.html" := "Blog",
    "presse.html" := "Presse"
  ]

  /** The name shown for a page: its table entry, or the site name for a
      page the table does not list. */
  function PageName(page: string): (r: string)
    ensures page in PageTitles ==> r == PageTitles[page]
    ensures page !in PageTitles ==> r == SiteName
    ensures r in PageTitles.Values || r == SiteName
  {
    if page in PageTitles then PageTitles[page] else SiteName
  }

  /** `updatePageTitle`: the document title for the current page. */
  function DocumentTitle(page: string): (r: string)
    ensures page in PageTitles ==> r == PageTitles[page] + TitleSuffix
    ensures page !in PageTitles ==> r == SiteName + TitleSuffix
    ensures |r| > |TitleSuffix| && r[|r| - |TitleSuffix|..] == TitleSuffix
    ensures r[..|r| - |TitleSuffix|] in PageTitles.Values || r[..|r| - |TitleSuffix|] == SiteName
  {
    var name := PageName(page);
    assert name != [];
    var r := name + TitleSuffix;
    assert r[..|name|] == name;
    assert r[|name|..] == TitleSuffix;
    r
  }

  /** The title names the page: two pages get the same document title
      exactly when they get the same page name. */
  lemma TitleDeterminesPageName(p: string, q: string)
    ensures DocumentTitle(p) == DocumentTitle(q) <==> PageName(p) == PageName(q)
  {
    var tp := DocumentTitle(p);
    var tq := DocumentTitle(q);
    if tp == tq {
      assert PageName(p) == tp[..|tp| - |TitleSuffix|];
      assert PageName(q) == tq[..|tq| - |TitleSuffix|];
    }
  }

  /** Every page outside the table gets the one fallback title. */
  lemma UnlistedPagesShareTitle(page: string)
    requires page !in PageTitles
    ensures DocumentTitle(page) == SiteName + TitleSuffix
  {
  }

  lemma ContactTitle()
    ensures DocumentTitle("contact.html") == "Contact" + TitleSuffix
  {
  }

  /** The site root is titled as the home page. */
  lemma RootIsTitledHome()
    ensures DocumentTitle(CurrentPage("/")) == "Accueil" + TitleSuffix
  {
    DirectoryPathIsIndex("/");
  }

  /** The outline of a page: a heading and its section identifiers in order. */
  datatype PageContent = PageContent(title: string, sections: seq<string>)

  const PageContents: map<string, PageContent> := map[
    "solutions" := PageContent("Nos Solutions Immobilières Intelligentes",
                               ["gestion", "energie", "maintenance", "securite", "residences"]),
    "technologies" := PageContent("Technologies Innovantes", ["iot", "ia", "bigdata", "cloud"]),
    "realisations" := PageContent("Nos Réalisations au Congo",
                                  ["commercial", "residentiel", "public", "temoignages"])
  ]

  /** `loadPageContent`: the outline for one of the three known keys, `null`
      (here `None`) for every other key. */
  function LoadPageContent(pageId: string): (r: Option<PageContent>)
    ensures r.Some? <==> pageId in {"solutions", "technologies", "realisations"}
    ensures r.Some? ==> r.value == PageContents[pageId]
    ensures r.Some? ==> r.value.title != [] && |r.value.sections| >= 4
  {
    if pageId in PageContents then Some(PageContents[pageId]) else None
  }

  /** The keys are bare names: a page file name never finds content. */
  lemma FileNamesFindNoContent(page: string)
    requires page in PageTitles
    ensures LoadPageContent(page).None?
  {
  }

  // ---------------------------------------------------------------------
  // The lookups as written. Both tables are plain object literals, and
  // indexing an object literal also finds the members every object
  // inherits from Object.prototype. Each such member is a function (or,
  // for "__proto__", the prototype object itself), which is truthy, so the
  // `|| "SpaceCongo"` and `|| null` fallbacks do not apply to it.
  // ---------------------------------------------------------------------

  /** The property names every object literal inherits (section 20.1.3 of
      ECMA-262 and its annex B additions). */
  const ObjectPrototypeMembers: set<string> := {
    "constructor", "hasOwnProperty", "isPrototypeOf", "propertyIsEnumerable",
    "toLocaleString", "toString", "valueOf", "__proto__",
    "__defineGetter__", "__defineSetter__", "__lookupGetter__", "__lookupSetter__"
  }

  /** What `table[key]` yields on an object literal: an own entry, an
      inherited member, or `undefined`. */
  datatype Lookup<T> = Own(value: T) | Inherited(member: string) | Undefined

  function ObjectLookup<T>(table: map<string, T>, key: string): (r: Lookup<T>)
    ensures r.Own? <==> key in table
    ensures r.Own? ==> r.value == table[key]
    ensures key !in table && key in ObjectPrototypeMembers ==> r == Inherited(key)
    ensures key !in table && key !in ObjectPrototypeMembers ==> r == Undefined
  {
    if key in table then Own(table[key])
    else if key in ObjectPrototypeMembers then Inherited(key)
    else Undefined
  }

  /** The page name as the script computes it: `pageTitles[page] || "SpaceCongo"`.
      An inherited member is rendered as whatever the function's text is;
      here it stays `Inherited`. */
  function PageNameAsWritten(page: string): (r: Lookup<string>)
    ensures page in PageTitles ==> r == Own(PageTitles[page])
    ensures page !in PageTitles && page in ObjectPrototypeMembers ==> r == Inherited(page)
    ensures page !in PageTitles && page !in ObjectPrototypeMembers ==> r == Own(SiteName)
  {
    match ObjectLookup(PageTitles, page)
    case Own(t) => if t == [] then Own(SiteName) else Own(t)
    case Inherited(m) => Inherited(m)
    case Undefined => Own(SiteName)
  }

  /** The content lookup as the script computes it: `pageContent[id] || null`. */
  function LoadPageContentAsWritten(pageId: string): (r: Lookup<PageContent>)
    ensures pageId in PageContents ==> r == Own(PageContents[pageId])
    ensures pageId !in PageContents && pageId in ObjectPrototypeMembers ==> r == Inherited(pageId)
    ensures r.Undefined? <==> pageId !in PageContents && pageId !in ObjectPrototypeMembers
  {
    ObjectLookup(PageContents, pageId)
  }

  /** On a page served as "/toString" the title is not the fallback: the
      script titles the page with the text of a built-in function. */
  lemma InheritedKeyEscapesTitleFallback()
    ensures CurrentPage("/toString") == "toString"
    ensures PageNameAsWritten("toString") == Inherited("toString")
    ensures PageName("toString") == SiteName
  {
    assert "/toString" == [] + "/" + "toString";
    PageInDirectory([], "toString");
  }

  /** `loadPageContent("constructor")` answers the Object constructor, not
      `null`, while the intended lookup answers nothing. */
  lemma InheritedKeyEscapesNullFallback()
    ensures LoadPageContentAsWritten("constructor") == Inherited("constructor")
    ensures LoadPageContent("constructor") == None
  {
  }

  /** The two readings agree everywhere except on inherited member names. */
  lemma AsWrittenAgreesOffPrototype(key: string)
    requires key !in ObjectPrototypeMembers
    ensures PageNameAsWritten(key) == Own(PageName(key))
    ensures LoadPageContent(key).None? <==> LoadPageContentAsWritten(key).Undefined?
    ensures LoadPageContent(key).Some? ==> LoadPageContentAsWritten(key) == Own(LoadPageContent(key).value)
  {
    if key in PageTitles {
      assert PageTitles[key] != [];
    }
  }
}
