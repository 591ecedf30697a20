// The page actions of the documentation hub: `updatePageContent`,
// `createNewPage` and `deletePage`, over one store holding the page records,
// the navigation forest and the active page.
module DocsActions {
  import opened JsRuntime
  import opened DocsTypes
  import opened DocsUtils

  /** `prev[slug]`: the record stored under `slug`, if any. */
  function Lookup(pages: map<string, PageRecord>, slug: string): Option<PageRecord> {
    if slug in pages then Some(pages[slug]) else None
  }

  /**
   * `{ ...prev[slug], content, ...(title && { title }) }`: the content is always
   * replaced, the title only by a non-empty one; every other field comes from
   * the previous record, or is missing when there was none.
   */
  function MergeUpdate(prev: Option<PageRecord>, content: string, title: Option<string>): (r: PageRecord)
    ensures r.content == Some(content)
    ensures title.Some? && title.value != "" ==> r.title == title
    ensures !(title.Some? && title.value != "") ==> r.title == (if prev.Some? then prev.value.title else None)
    ensures r.slug == (if prev.Some? then prev.value.slug else None)
    ensures r.tab == (if prev.Some? then prev.value.tab else None)
  {
    var base := if prev.Some? then prev.value else EmptyRecord;
    var withContent := base.(content := Some(content));
    if title.Some? && title.value != "" then withContent.(title := title) else withContent
  }

  /** Updating a slug that has no record creates one holding only the content and a given title. */
  lemma UpdateOfMissingIsPartial(content: string, title: Option<string>)
    ensures var r := MergeUpdate(None, content, title);
      r.slug == None && r.tab == None && r.content == Some(content) &&
      (r.title.Some? <==> title.Some? && title.value != "")
  {
  }

  /** Stand-ins for the fixed Persian paragraphs of a new page. */
  const NewPageIntro := "(new page intro)"
  const NewPageHeading := "(getting started)"
  const NewPageHint := "(editor hint)"

  /** The body of a freshly created page: a heading with its title, then fixed text. */
  function NewPageContent(title: string): (r: string)
    ensures StartsWith(r, "<h1>" + title + "</h1>")
  {
    var head := "<h1>" + title + "</h1>";
    var r := head + "<p>" + NewPageIntro + "</p><h2>" + NewPageHeading + "</h2><p>" + NewPageHint + "</p>";
    assert r == head + (r[|head|..]);
    StartsWithAppend(head, r[|head|..]);
    r
  }

  function NewPage(title: string, slug: string, tab: string): PageRecord {
    PageRecord(Some(title), Some(NewPageContent(title)), Some(slug), Some(tab))
  }

  /** The navigation item of a new page or folder: a folder starts with an empty `children` list. */
  function NewNavItem(title: string, slug: string, pageType: PageType): (r: NavItem)
    ensures r.title == title && r.slug == slug && r.itemType == None
    ensures r.children.Present? <==> pageType == Folder
    ensures r.children.Present? ==> r.children.items == []
  {
    NavItem(title, slug, if pageType == Folder then Present([]) else Absent, None)
  }

  /** The store behind `useDocsActions`: the three pieces of state its actions update. */
  class DocsStore {
    var pageContents: map<string, PageRecord>
    var navigationData: Navigation
    var activePage: string

    constructor(pages: map<string, PageRecord>, nav: Navigation, active: string)
      ensures pageContents == pages && navigationData == nav && activePage == active
    {
      pageContents := pages;
      navigationData := nav;
      activePage := active;
    }

    /** `setActivePage(slug)` of the docs context. */
    method SetActivePage(slug: string)
      modifies this
      ensures activePage == slug
      ensures pageContents == old(pageContents) && navigationData == old(navigationData)
    {
      activePage := slug;
    }

    /** `updatePageContent(slug, content, title?)` */
    method UpdatePageContent(slug: string, content: string, title: Option<string>)
      modifies this
      ensures pageContents == old(pageContents)[slug := MergeUpdate(Lookup(old(pageContents), slug), content, title)]
      ensures navigationData == old(navigationData) && activePage == old(activePage)
    {
      pageContents := pageContents[slug := MergeUpdate(Lookup(pageContents, slug), content, title)];
    }

    /**
     * `createNewPage(title, tab, parentSlug?, type)` with `Date.now()` passed as
     * `now`: a page gets a record, both kinds get a navigation item.
     */
    method CreateNewPage(title: string, tab: string, parentSlug: Option<string>, pageType: PageType, now: nat)
      returns (slug: string)
      modifies this
      ensures slug == CreateUniqueSlug(title, now)
      ensures pageType == Page ==> pageContents == old(pageContents)[slug := NewPage(title, slug, tab)]
      ensures pageType == Folder ==> pageContents == old(pageContents)
      ensures navigationData == AddToNavigationTree(old(navigationData), tab, NewNavItem(title, slug, pageType), parentSlug)
      ensures activePage == old(activePage)
    {
      slug := CreateUniqueSlug(title, now);
      if pageType == Page {
        pageContents := pageContents[slug := NewPage(title, slug, tab)];
      }
      navigationData := AddToNavigationTree(navigationData, tab, NewNavItem(title, slug, pageType), parentSlug);
    }

    /**
     * `deletePage(slug)`: the record and every node carrying `slug` go; the
     * active page falls back to `intro` when it was the deleted one.
     */
    method DeletePage(slug: string)
      modifies this
      ensures pageContents == old(pageContents) - {slug}
      ensures navigationData == NavWithout(old(navigationData), slug)
      ensures activePage == if old(activePage) == slug then "intro" else old(activePage)
    {
      pageContents := pageContents - {slug};
      navigationData := RemoveFromNavigationTree(navigationData, slug);
      if activePage == slug {
        activePage := "intro";
      }
    }
  }

  /**
   * Deleting a freshly created page or folder restores the store's records and
   * navigation, when its tab existed and the parent it went under was a folder.
   */
  lemma DeleteUndoesCreate(pages: map<string, PageRecord>, nav: Navigation, tab: string, title: string,
                           slug: string, pageType: PageType, parentSlug: Option<string>)
    requires slug !in pages && tab in nav
    requires forall t :: t in nav ==> !HasSlug(nav[t], slug)
    requires parentSlug.Some? && parentSlug.value != "" ==> ParentsAreFolders(nav[tab], parentSlug.value)
    ensures (if pageType == Page then pages[slug := NewPage(title, slug, tab)] else pages) - {slug} == pages
    ensures NavWithout(AddToNavigationTree(nav, tab, NewNavItem(title, slug, pageType), parentSlug), slug) == nav
  {
    var x := NewNavItem(title, slug, pageType);
    var added := AddToNavigationTree(nav, tab, x, parentSlug);
    RemoveUndoesPut(pages, slug, NewPage(title, slug, tab));
    forall t | t in nav
      ensures RemoveFromTree(added[t], slug) == nav[t]
    {
      RemoveAfterAddInTab(nav, tab, x, parentSlug, t);
    }
    NavWithoutTabwise(added, nav, slug);
  }

  lemma RemoveUndoesPut(pages: map<string, PageRecord>, slug: string, page: PageRecord)
    requires slug !in pages
    ensures pages[slug := page] - {slug} == pages && pages - {slug} == pages
  {
  }

  /** Each tab of the navigation, after the insert and the removal of the new slug, is as before. */
  lemma RemoveAfterAddInTab(nav: Navigation, tab: string, x: NavItem, parentSlug: Option<string>, t: string)
    requires tab in nav && t in nav
    requires forall u :: u in nav ==> !HasSlug(nav[u], x.slug)
    requires parentSlug.Some? && parentSlug.value != "" ==> ParentsAreFolders(nav[tab], parentSlug.value)
    ensures t in AddToNavigationTree(nav, tab, x, parentSlug)
    ensures RemoveFromTree(AddToNavigationTree(nav, tab, x, parentSlug)[t], x.slug) == nav[t]
  {
    if t != tab {
      RemoveAbsentIsIdentity(nav[t], x.slug);
    } else {
      RemoveUndoesInsert(nav[tab], x, parentSlug);
      AddedTab(nav, tab, x, parentSlug);
    }
  }

  /** The tab `AddToNavigationTree` changes holds what inserting into its roots gives. */
  lemma AddedTab(nav: Navigation, tab: string, x: NavItem, parentSlug: Option<string>)
    requires tab in nav
    ensures AddToNavigationTree(nav, tab, x, parentSlug)[tab] == InsertIntoTab(nav[tab], x, parentSlug)
  {
  }

  /** The roots of a tab after inserting `x` under `parentSlug`, or at the end without one. */
  function InsertIntoTab(items: seq<NavItem>, x: NavItem, parentSlug: Option<string>): seq<NavItem> {
    if parentSlug.Some? && parentSlug.value != "" then AddToParent(items, parentSlug.value, x) else items + [x]
  }

  lemma RemoveUndoesInsert(items: seq<NavItem>, x: NavItem, parentSlug: Option<string>)
    requires !HasSlug(items, x.slug)
    requires parentSlug.Some? && parentSlug.value != "" ==> ParentsAreFolders(items, parentSlug.value)
    ensures RemoveFromTree(InsertIntoTab(items, x, parentSlug), x.slug) == items
  {
    if parentSlug.Some? && parentSlug.value != "" {
      RemoveUndoesAdd(items, parentSlug.value, x);
    } else {
      RemoveFromTreeConcat(items, [x], x.slug);
      RemoveAbsentIsIdentity(items, x.slug);
      assert RemoveFromTree([x], x.slug) == [];
    }
  }
}
