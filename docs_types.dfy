// The records of the documentation workspace: navigation items (one entry of
// a tab's table of contents) and page records.
module DocsTypes {
  import opened JsRuntime

  datatype PageType = Page | Folder

  /**
   * A navigation item. `itemType` is the optional `type` tag, which neither
   * tree operation looks at but both carry along.
   */
  datatype NavItem = NavItem(
    title: string,
    slug: string,
    children: ChildList,
    itemType: Option<PageType>)

  /**
   * The optional `children` array: `Absent` for a leaf page, `Present` of a
   * (possibly empty) sequence for a folder. An empty array is still present,
   * as `[]` is truthy in the source's tests.
   */
  datatype ChildList = Absent | Present(items: seq<NavItem>)

  /** The navigation forest: tab id to that tab's root items. */
  type Navigation = map<string, seq<NavItem>>

  /**
   * A page record. Every field is optional because a record written by an
   * update of a missing slug holds only the fields that update supplied.
   */
  datatype PageRecord = PageRecord(
    title: Option<string>,
    content: Option<string>,
    slug: Option<string>,
    tab: Option<string>)

  const EmptyRecord := PageRecord(None, None, None, None)

  /** `navigationData[tab] || []` */
  function TabItems(nav: Navigation, tab: string): seq<NavItem> {
    if tab in nav then nav[tab] else []
  }

  /** `item.children || []` */
  function ChildrenOf(item: NavItem): seq<NavItem> {
    if item.children.Present? then item.children.items else []
  }

  /** The slugs of a forest's root items, in order. */
  function RootSlugs(items: seq<NavItem>): (r: seq<string>)
    ensures |r| == |items|
    ensures forall i :: 0 <= i < |items| ==> r[i] == items[i].slug
  {
    if items == [] then [] else [items[0].slug] + RootSlugs(items[1..])
  }

  /** Some item at any depth of the forest carries `slug`. */
  predicate HasSlug(items: seq<NavItem>, slug: string)
    decreases items
  {
    exists i :: 0 <= i < |items| && ItemHasSlug(items[i], slug)
  }

  predicate ItemHasSlug(item: NavItem, slug: string)
    decreases item
  {
    item.slug == slug ||
    (item.children.Present? && HasSlug(item.children.items, slug))
  }

  /** The multiset of slugs of every item at any depth. */
  function AllSlugs(items: seq<NavItem>): multiset<string>
    decreases items
  {
    if items == [] then multiset{} else ItemSlugs(items[0]) + AllSlugs(items[1..])
  }

  function ItemSlugs(item: NavItem): multiset<string>
    decreases item
  {
    multiset{item.slug} +
    (if item.children.Present? then AllSlugs(item.children.items) else multiset{})
  }
}
