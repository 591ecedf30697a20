// Slugs and navigation-tree edits: `generateSlug`, `createUniqueSlug`,
// `addToNavigationTree` and `removeFromNavigationTree`. Everything here builds
// fresh values; the only mutable variable is the per-tab copy of
// `removeFromNavigationTree`, kept as the loop of `RemoveFromNavigationTree`.
module DocsUtils {
  import opened JsRuntime
  import opened DocsTypes

  // ---------------------------------------------------------------------
  // generateSlug
  // ---------------------------------------------------------------------

  /** The characters `replace(/[^\w\-]/g, '')` keeps: `[A-Za-z0-9_-]`. */
  predicate KeptBySlugFilter(c: char) {
    IsWordChar(c) || c == '-'
  }

  predicate InArabicBlock(c: char) {
    '\U{0600}' <= c <= '\U{06FF}'
  }

  function HexDigit(d: nat): char
    requires d < 16
  {
    if d < 10 then ('0' as int + d) as char else ('A' as int + d - 10) as char
  }

  /**
   * `encodeURIComponent(c).replace(/%/g, '')` for a character of U+0600..U+06FF:
   * its two UTF-8 bytes in upper-case hexadecimal.
   */
  function PercentFree(c: char): (r: string)
    requires InArabicBlock(c)
    ensures |r| == 4
  {
    var b1 := 0xC0 + c as int / 64;
    var b2 := 0x80 + c as int % 64;
    [HexDigit(b1 / 16), HexDigit(b1 % 16), HexDigit(b2 / 16), HexDigit(b2 % 16)]
  }

  /** `replace(/[\u0600-\u06FF]/g, match => …)` */
  function EncodeArabicBlock(s: string): string {
    if s == [] then []
    else if InArabicBlock(s[0]) then PercentFree(s[0]) + EncodeArabicBlock(s[1..])
    else [s[0]] + EncodeArabicBlock(s[1..])
  }

  /**
   * `generateSlug(title)`: lower-case, each whitespace run to `-`, drop
   * everything outside `[\w-]`, then encode the Arabic block.
   */
  function GenerateSlug(title: string): string {
    EncodeArabicBlock(KeepOnly(ReplaceRuns(LowerAscii(title), IsSpace, '-'), KeptBySlugFilter))
  }

  /** What the Arabic-block step would make of one letter (U+0633 is `%D8%B3`). */
  lemma PercentFreeExample()
    ensures PercentFree('\U{0633}') == "D8B3"
  {
  }

  lemma {:induction false} EncodeArabicBlockIdentity(s: string)
    requires AllSlugChars(s)
    ensures EncodeArabicBlock(s) == s
  {
    if s != [] {
      EncodeArabicBlockIdentity(s[1..]);
    }
  }

  /**
   * The slug holds only `[a-z0-9_-]`: upper-case letters are gone before the
   * filter runs. So the Arabic-block replacement never finds anything to encode.
   */
  lemma SlugAlphabet(title: string)
    ensures AllSlugChars(GenerateSlug(title))
    ensures GenerateSlug(title) == KeepOnly(ReplaceRuns(LowerAscii(title), IsSpace, '-'), KeptBySlugFilter)
  {
    var lower := LowerAscii(title);
    var dashed := ReplaceRuns(lower, IsSpace, '-');
    var kept := KeepOnly(dashed, KeptBySlugFilter);
    ReplaceRunsFromInput(lower, IsSpace, '-');
    KeepOnlyFromInput(dashed, KeptBySlugFilter);
    assert forall i :: 0 <= i < |kept| ==> kept[i] in dashed && KeptBySlugFilter(kept[i]);
    assert forall c :: c in lower ==> !('A' <= c <= 'Z');
    EncodeArabicBlockIdentity(kept);
  }

  /** A slug never holds whitespace. */
  lemma SlugHasNoSpace(title: string)
    ensures NoSpace(GenerateSlug(title))
  {
    SlugAlphabet(title);
  }

  /** A title with no word character, dash or whitespace gives the empty slug. */
  lemma SlugOfWordlessTitle(title: string)
    requires forall i :: 0 <= i < |title| ==> !KeptBySlugFilter(title[i]) && !IsSpace(title[i])
    ensures GenerateSlug(title) == ""
  {
    SlugAlphabet(title);
    assert LowerAscii(title) == title;
    ReplaceRunsWithoutRun(title, IsSpace, '-');
    KeepOnlyNone(title, KeptBySlugFilter);
  }

  /** Titles made only of punctuation or of Persian letters give the empty slug. */
  lemma SlugMayBeEmpty()
    ensures GenerateSlug("!!") == ""
    ensures GenerateSlug("\U{0633}\U{0644}\U{0627}\U{0645}") == ""
  {
    var bang := "!!";
    assert forall i :: 0 <= i < |bang| ==> bang[i] == '!';
    SlugOfWordlessTitle(bang);
    var salam := "\U{0633}\U{0644}\U{0627}\U{0645}";
    assert forall i :: 0 <= i < |salam| ==> InArabicBlock(salam[i]);
    SlugOfWordlessTitle(salam);
  }

  lemma LowerAsciiConcat(a: string, b: string)
    ensures LowerAscii(a + b) == LowerAscii(a) + LowerAscii(b)
  {
  }

  lemma LowerKeepsSpace(c: char)
    ensures IsSpace(ToLowerAscii(c)) == IsSpace(c)
  {
  }

  lemma {:induction false} DashedAroundRun(a: string, ws: string, b: string)
    requires a == [] || !IsSpace(a[|a| - 1])
    requires ws != [] && AllSpace(ws)
    requires b == [] || !IsSpace(b[0])
    ensures ReplaceRuns(LowerAscii(a + ws + b), IsSpace, '-')
      == ReplaceRuns(LowerAscii(a), IsSpace, '-') + "-" + ReplaceRuns(LowerAscii(b), IsSpace, '-')
  {
    var la, lw, lb := LowerAscii(a), LowerAscii(ws), LowerAscii(b);
    LowerAsciiConcat(a + ws, b);
    LowerAsciiConcat(a, ws);
    assert LowerAscii(a + ws + b) == la + lw + lb;
    if a != [] {
      LowerKeepsSpace(a[|a| - 1]);
    }
    if b != [] {
      LowerKeepsSpace(b[0]);
    }
    forall i | 0 <= i < |lw|
      ensures IsSpace(lw[i])
    {
      LowerKeepsSpace(ws[i]);
    }
    ReplaceRunsAround(la, lw, lb, IsSpace, '-');
  }

  /**
   * A whitespace run between two parts of a title becomes a single `-`, and
   * each part is slugged on its own.
   */
  lemma SlugOfSpacedTitle(a: string, ws: string, b: string)
    requires a == [] || !IsSpace(a[|a| - 1])
    requires ws != [] && AllSpace(ws)
    requires b == [] || !IsSpace(b[0])
    ensures GenerateSlug(a + ws + b) == GenerateSlug(a) + "-" + GenerateSlug(b)
  {
    SlugAlphabet(a + ws + b);
    SlugAlphabet(a);
    SlugAlphabet(b);
    DashedAroundRun(a, ws, b);
    var da, db := ReplaceRuns(LowerAscii(a), IsSpace, '-'), ReplaceRuns(LowerAscii(b), IsSpace, '-');
    KeepOnlyConcat(da + "-", db, KeptBySlugFilter);
    KeepOnlyConcat(da, "-", KeptBySlugFilter);
    assert KeepOnly("-", KeptBySlugFilter) == "-";
  }

  // ---------------------------------------------------------------------
  // createUniqueSlug
  // ---------------------------------------------------------------------

  function DigitChar(d: nat): (r: char)
    requires d < 10
    ensures IsDigit(r)
  {
    ('0' as int + d) as char
  }

  /** The decimal text of a non-negative integer, as a template literal writes it. */
  function Decimal(n: nat): (r: string)
    ensures r != [] && forall i :: 0 <= i < |r| ==> IsDigit(r[i])
  {
    if n < 10 then [DigitChar(n)] else Decimal(n / 10) + [DigitChar(n % 10)]
  }

  function ParseDecimal(s: string): nat
    requires forall i :: 0 <= i < |s| ==> IsDigit(s[i])
  {
    if s == [] then 0
    else
      assert IsDigit(s[|s| - 1]);
      ParseDecimal(s[..|s| - 1]) * 10 + (s[|s| - 1] as int - '0' as int)
  }

  lemma {:induction false} DecimalRoundTrip(n: nat)
    ensures ParseDecimal(Decimal(n)) == n
  {
    if n >= 10 {
      var d := Decimal(n);
      assert d[..|d| - 1] == Decimal(n / 10);
      DecimalRoundTrip(n / 10);
    }
  }

  /** `createUniqueSlug(title)` with `Date.now()` passed in as `now`. */
  function CreateUniqueSlug(title: string, now: nat): (r: string)
    ensures |r| > |GenerateSlug(title)| + 1 && IsDigit(r[|r| - 1])
  {
    GenerateSlug(title) + "-" + Decimal(now)
  }

  /** For one title, two distinct timestamps give two distinct slugs. */
  lemma UniqueSlugInjective(title: string, a: nat, b: nat)
    requires a != b
    ensures CreateUniqueSlug(title, a) != CreateUniqueSlug(title, b)
  {
    var p := GenerateSlug(title) + "-";
    if CreateUniqueSlug(title, a) == CreateUniqueSlug(title, b) {
      assert (p + Decimal(a))[|p|..] == Decimal(a);
      assert (p + Decimal(b))[|p|..] == Decimal(b);
      DecimalRoundTrip(a);
      DecimalRoundTrip(b);
    }
  }

  // ---------------------------------------------------------------------
  // addToNavigationTree
  // ---------------------------------------------------------------------

  /** `addToParent(items)`: appends `x` under every node whose slug is `parent`. */
  function AddToParent(items: seq<NavItem>, parent: string, x: NavItem): (r: seq<NavItem>)
    ensures RootSlugs(r) == RootSlugs(items)
    ensures forall i :: 0 <= i < |items| && items[i].slug == parent ==>
      r[i] == items[i].(children := Present(ChildrenOf(items[i]) + [x]))
    ensures forall i :: 0 <= i < |items| && items[i].slug != parent ==>
      r[i].title == items[i].title && r[i].itemType == items[i].itemType &&
      r[i].children.Present? == items[i].children.Present?
    decreases items
  {
    if items == [] then [] else [AddToItem(items[0], parent, x)] + AddToParent(items[1..], parent, x)
  }

  function AddToItem(item: NavItem, parent: string, x: NavItem): NavItem
    decreases item
  {
    if item.slug == parent then item.(children := Present(ChildrenOf(item) + [x]))
    else if item.children.Present? then
      item.(children := Present(AddToParent(item.children.items, parent, x)))
    else item
  }

  /**
   * `addToNavigationTree(nav, tab, x, parentSlug)`: a truthy `parentSlug`
   * inserts under the matching nodes of that tab, anything else appends `x`
   * as the tab's last root. Either way the tab holds a list afterwards, and
   * no other tab changes.
   */
  function AddToNavigationTree(nav: Navigation, tab: string, x: NavItem, parentSlug: Option<string>): (r: Navigation)
    ensures r.Keys == nav.Keys + {tab}
    ensures forall t :: t in nav && t != tab ==> r[t] == nav[t]
  {
    if parentSlug.Some? && parentSlug.value != "" then
      nav[tab := AddToParent(TabItems(nav, tab), parentSlug.value, x)]
    else
      nav[tab := TabItems(nav, tab) + [x]]
  }

  /** Without a parent, `x` becomes the last root of the tab and the earlier roots stay in place. */
  lemma AddAtRoot(nav: Navigation, tab: string, x: NavItem, parentSlug: Option<string>)
    requires parentSlug == None || parentSlug == Some("")
    ensures var r := AddToNavigationTree(nav, tab, x, parentSlug)[tab];
      |r| == |TabItems(nav, tab)| + 1 && r[|r| - 1] == x && r[..|r| - 1] == TabItems(nav, tab)
  {
  }

  /** When no node carries the parent slug, the forest is returned as it was. */
  lemma {:induction false} AddWithoutMatch(items: seq<NavItem>, parent: string, x: NavItem)
    requires !HasSlug(items, parent)
    ensures AddToParent(items, parent, x) == items
    decreases items
  {
    if items != [] {
      assert !ItemHasSlug(items[0], parent);
      assert !HasSlug(items[1..], parent) by {
        forall i | 0 <= i < |items[1..]|
          ensures !ItemHasSlug(items[1..][i], parent)
        {
          assert items[1..][i] == items[i + 1];
        }
      }
      AddWithoutMatch(items[1..], parent, x);
      if items[0].children.Present? {
        AddWithoutMatch(items[0].children.items, parent, x);
      }
    }
  }

  lemma HasSlugSplit(items: seq<NavItem>, slug: string)
    requires items != []
    ensures HasSlug(items, slug) <==> ItemHasSlug(items[0], slug) || HasSlug(items[1..], slug)
  {
    if HasSlug(items[1..], slug) {
      var i :| 0 <= i < |items[1..]| && ItemHasSlug(items[1..][i], slug);
      assert items[i + 1] == items[1..][i];
    }
    if HasSlug(items, slug) && !ItemHasSlug(items[0], slug) {
      var i :| 0 <= i < |items| && ItemHasSlug(items[i], slug);
      assert items[1..][i - 1] == items[i];
    }
  }

  lemma {:induction false} AllSlugsConcat(a: seq<NavItem>, b: seq<NavItem>)
    ensures AllSlugs(a + b) == AllSlugs(a) + AllSlugs(b)
  {
    if a != [] {
      assert (a + b)[0] == a[0];
      assert (a + b)[1..] == a[1..] + b;
      AllSlugsConcat(a[1..], b);
      assert AllSlugs(a + b) == ItemSlugs(a[0]) + AllSlugs(a[1..] + b);
    } else {
      assert a + b == b;
    }
  }

  /** The slugs `addToParent` inserts: a copy of `x`'s subtree under each matching node it reaches. */
  ghost function Inserted(items: seq<NavItem>, parent: string, x: NavItem): multiset<string>
    decreases items
  {
    if items == [] then multiset{} else InsertedAt(items[0], parent, x) + Inserted(items[1..], parent, x)
  }

  ghost function InsertedAt(item: NavItem, parent: string, x: NavItem): multiset<string>
    decreases item
  {
    if item.slug == parent then ItemSlugs(x)
    else if item.children.Present? then Inserted(item.children.items, parent, x)
    else multiset{}
  }

  /** Inserting under a parent keeps every node and adds only the inserted copies. */
  lemma {:induction false} AddCountsSlugs(items: seq<NavItem>, parent: string, x: NavItem)
    ensures AllSlugs(AddToParent(items, parent, x)) == AllSlugs(items) + Inserted(items, parent, x)
    decreases items
  {
    if items != [] {
      var r := AddToParent(items, parent, x);
      assert r[0] == AddToItem(items[0], parent, x);
      assert r[1..] == AddToParent(items[1..], parent, x);
      AddItemCountsSlugs(items[0], parent, x);
      AddCountsSlugs(items[1..], parent, x);
    }
  }

  lemma {:induction false} AddItemCountsSlugs(item: NavItem, parent: string, x: NavItem)
    ensures ItemSlugs(AddToItem(item, parent, x)) == ItemSlugs(item) + InsertedAt(item, parent, x)
    decreases item
  {
    if item.slug == parent {
      AllSlugsConcat(ChildrenOf(item), [x]);
      assert AllSlugs([x]) == ItemSlugs(x) + AllSlugs([x][1..]);
      assert [x][1..] == [];
    } else if item.children.Present? {
      AddCountsSlugs(item.children.items, parent, x);
    }
  }

  /** Something is inserted exactly when some node carries the parent slug. */
  lemma {:induction false} InsertedIffMatch(items: seq<NavItem>, parent: string, x: NavItem)
    ensures Inserted(items, parent, x) != multiset{} <==> HasSlug(items, parent)
    decreases items
  {
    if items != [] {
      HasSlugSplit(items, parent);
      InsertedAtIffMatch(items[0], parent, x);
      InsertedIffMatch(items[1..], parent, x);
    }
  }

  lemma {:induction false} InsertedAtIffMatch(item: NavItem, parent: string, x: NavItem)
    ensures InsertedAt(item, parent, x) != multiset{} <==> ItemHasSlug(item, parent)
    decreases item
  {
    if item.slug == parent {
      assert x.slug in ItemSlugs(x);
    } else if item.children.Present? {
      InsertedIffMatch(item.children.items, parent, x);
    }
  }

  /**
   * Inserting under `parent` loses no node, and changes the forest exactly
   * when some node at any depth carries `parent`.
   */
  lemma AddChangesIffMatch(items: seq<NavItem>, parent: string, x: NavItem)
    ensures AllSlugs(items) <= AllSlugs(AddToParent(items, parent, x))
    ensures AddToParent(items, parent, x) == items <==> !HasSlug(items, parent)
  {
    AddCountsSlugs(items, parent, x);
    InsertedIffMatch(items, parent, x);
    if !HasSlug(items, parent) {
      AddWithoutMatch(items, parent, x);
    }
  }

  /** A slug occurs in the slug multiset exactly when some node carries it. */
  lemma {:induction false} AllSlugsHasSlug(items: seq<NavItem>, slug: string)
    ensures slug in AllSlugs(items) <==> HasSlug(items, slug)
    decreases items
  {
    if items != [] {
      HasSlugSplit(items, slug);
      ItemSlugsHasSlug(items[0], slug);
      AllSlugsHasSlug(items[1..], slug);
    }
  }

  lemma {:induction false} ItemSlugsHasSlug(item: NavItem, slug: string)
    ensures slug in ItemSlugs(item) <==> ItemHasSlug(item, slug)
    decreases item
  {
    if item.children.Present? {
      AllSlugsHasSlug(item.children.items, slug);
    }
  }

  lemma {:induction false} InsertedHoldsItem(items: seq<NavItem>, parent: string, x: NavItem)
    ensures Inserted(items, parent, x) != multiset{} ==> x.slug in Inserted(items, parent, x)
    decreases items
  {
    if items != [] {
      InsertedAtHoldsItem(items[0], parent, x);
      InsertedHoldsItem(items[1..], parent, x);
    }
  }

  lemma {:induction false} InsertedAtHoldsItem(item: NavItem, parent: string, x: NavItem)
    ensures InsertedAt(item, parent, x) != multiset{} ==> x.slug in InsertedAt(item, parent, x)
    decreases item
  {
    if item.slug == parent {
      assert x.slug in ItemSlugs(x);
    } else if item.children.Present? {
      InsertedHoldsItem(item.children.items, parent, x);
    }
  }

  /**
   * After `addToNavigationTree` the item's slug is in the tab's tree: as its last root
   * without a parent, and under the parent when some node carries the parent
   * slug. With a parent nobody carries, the tree is unchanged.
   */
  lemma AddPlacesItem(nav: Navigation, tab: string, x: NavItem, parentSlug: Option<string>)
    ensures var r := AddToNavigationTree(nav, tab, x, parentSlug)[tab];
      var p := parentSlug.Some? && parentSlug.value != "";
      (!p ==> RootSlugs(r) == RootSlugs(TabItems(nav, tab)) + [x.slug]) &&
      (p && HasSlug(TabItems(nav, tab), parentSlug.value) ==> HasSlug(r, x.slug)) &&
      (p && !HasSlug(TabItems(nav, tab), parentSlug.value) ==> r == TabItems(nav, tab))
  {
    var items := TabItems(nav, tab);
    if parentSlug.Some? && parentSlug.value != "" {
      var parent := parentSlug.value;
      AddCountsSlugs(items, parent, x);
      InsertedIffMatch(items, parent, x);
      InsertedHoldsItem(items, parent, x);
      AllSlugsHasSlug(AddToParent(items, parent, x), x.slug);
      AddChangesIffMatch(items, parent, x);
    } else {
      AddAtRoot(nav, tab, x, parentSlug);
      var r := AddToNavigationTree(nav, tab, x, parentSlug)[tab];
      assert r == items + [x];
      assert RootSlugs(r) == RootSlugs(items) + [x.slug];
    }
  }

  // ---------------------------------------------------------------------
  // removeFromNavigationTree
  // ---------------------------------------------------------------------

  /** The `filter` step of `removeFromTree`: the roots whose slug is not `slug`. */
  function Survivors(items: seq<NavItem>, slug: string): (r: seq<NavItem>)
    ensures forall x :: x in r <==> x in items && x.slug != slug
    ensures RootSlugs(r) == Without(RootSlugs(items), slug)
  {
    if items == [] then []
    else if items[0].slug == slug then
      assert RootSlugs(items) == [items[0].slug] + RootSlugs(items[1..]);
      Survivors(items[1..], slug)
    else
      assert RootSlugs(items) == [items[0].slug] + RootSlugs(items[1..]);
      [items[0]] + Survivors(items[1..], slug)
  }

  /**
   * `removeFromTree(items)`: drops every node carrying `slug`, together with
   * its subtree, at every depth.
   */
  function RemoveFromTree(items: seq<NavItem>, slug: string): (r: seq<NavItem>)
    ensures !HasSlug(r, slug)
    decreases items
  {
    if items == [] then []
    else
      var rest := RemoveFromTree(items[1..], slug);
      if items[0].slug == slug then rest
      else
        var head := PruneItem(items[0], slug);
        HasSlugSplit([head] + rest, slug);
        assert ([head] + rest)[1..] == rest;
        [head] + rest
  }

  /**
   * The roots that survive are the `filter` survivors, in their order, each
   * keeping its slug, title, type and whether it has `children`.
   */
  lemma RemoveKeepsSurvivors(items: seq<NavItem>, slug: string)
    ensures var r, k := RemoveFromTree(items, slug), Survivors(items, slug);
      |r| == |k| &&
      forall i :: 0 <= i < |r| ==>
        r[i].slug == k[i].slug && r[i].title == k[i].title && r[i].itemType == k[i].itemType &&
        r[i].children.Present? == k[i].children.Present?
    ensures RootSlugs(RemoveFromTree(items, slug)) == Without(RootSlugs(items), slug)
  {
    RemoveKeepsSurvivorShapes(items, slug);
    assert RootSlugs(RemoveFromTree(items, slug)) == RootSlugs(Survivors(items, slug));
  }

  /** Two item lists that agree, position by position, on everything but the children's contents. */
  predicate SameShapes(r: seq<NavItem>, k: seq<NavItem>) {
    |r| == |k| &&
    forall i :: 0 <= i < |r| ==>
      r[i].slug == k[i].slug && r[i].title == k[i].title && r[i].itemType == k[i].itemType &&
      r[i].children.Present? == k[i].children.Present?
  }

  lemma SameShapesCons(x: NavItem, y: NavItem, r: seq<NavItem>, k: seq<NavItem>)
    requires SameShapes(r, k)
    requires x.slug == y.slug && x.title == y.title && x.itemType == y.itemType
    requires x.children.Present? == y.children.Present?
    ensures SameShapes([x] + r, [y] + k)
  {
    var r', k' := [x] + r, [y] + k;
    forall i | 1 <= i < |r'|
      ensures r'[i] == r[i - 1] && k'[i] == k[i - 1]
    {
    }
  }

  lemma RemoveFromTreeUnfold(items: seq<NavItem>, slug: string)
    requires items != []
    ensures RemoveFromTree(items, slug) ==
      if items[0].slug == slug then RemoveFromTree(items[1..], slug)
      else [PruneItem(items[0], slug)] + RemoveFromTree(items[1..], slug)
  {
  }

  lemma SurvivorsUnfold(items: seq<NavItem>, slug: string)
    requires items != []
    ensures Survivors(items, slug) ==
      if items[0].slug == slug then Survivors(items[1..], slug)
      else [items[0]] + Survivors(items[1..], slug)
  {
  }

  lemma {:induction false} RemoveKeepsSurvivorShapes(items: seq<NavItem>, slug: string)
    ensures SameShapes(RemoveFromTree(items, slug), Survivors(items, slug))
    decreases items
  {
    if items != [] {
      RemoveKeepsSurvivorShapes(items[1..], slug);
      RemoveFromTreeUnfold(items, slug);
      SurvivorsUnfold(items, slug);
      if items[0].slug != slug {
        SameShapesCons(PruneItem(items[0], slug), items[0],
          RemoveFromTree(items[1..], slug), Survivors(items[1..], slug));
      }
    }
  }

  function PruneItem(item: NavItem, slug: string): (r: NavItem)
    requires item.slug != slug
    ensures !ItemHasSlug(r, slug)
    decreases item
  {
    item.(children := if item.children.Present? then Present(RemoveFromTree(item.children.items, slug)) else Absent)
  }

  /** Removing a slug that no node carries changes nothing. */
  lemma {:induction false} RemoveAbsentIsIdentity(items: seq<NavItem>, slug: string)
    requires !HasSlug(items, slug)
    ensures RemoveFromTree(items, slug) == items
    decreases items
  {
    if items != [] {
      HasSlugSplit(items, slug);
      RemoveAbsentIsIdentity(items[1..], slug);
      if items[0].children.Present? {
        RemoveAbsentIsIdentity(items[0].children.items, slug);
      }
    }
  }

  /** The slugs of the subtrees `removeFromTree` cuts off: each topmost node carrying `slug`, with its subtree. */
  ghost function CutOff(items: seq<NavItem>, slug: string): multiset<string>
    decreases items
  {
    if items == [] then multiset{} else CutOffAt(items[0], slug) + CutOff(items[1..], slug)
  }

  ghost function CutOffAt(item: NavItem, slug: string): multiset<string>
    decreases item
  {
    if item.slug == slug then ItemSlugs(item)
    else if item.children.Present? then CutOff(item.children.items, slug)
    else multiset{}
  }

  /**
   * What remains and what is cut off together make up the original forest:
   * each removed node leaves with its whole subtree, and nothing else is lost.
   */
  lemma {:induction false} RemoveCutsWholeSubtrees(items: seq<NavItem>, slug: string)
    ensures AllSlugs(RemoveFromTree(items, slug)) + CutOff(items, slug) == AllSlugs(items)
    ensures HasSlug(items, slug) ==> slug in CutOff(items, slug)
    decreases items
  {
    if items != [] {
      var head, rest := items[0], items[1..];
      HasSlugSplit(items, slug);
      RemoveCutsWholeSubtrees(rest, slug);
      PruneCutsWholeSubtrees(head, slug);
      var r, r' := RemoveFromTree(items, slug), RemoveFromTree(rest, slug);
      assert CutOff(items, slug) == CutOffAt(head, slug) + CutOff(rest, slug);
      assert AllSlugs(items) == ItemSlugs(head) + AllSlugs(rest);
      if head.slug != slug {
        var h := PruneItem(head, slug);
        assert r == [h] + r';
        assert r[0] == h && r[1..] == r';
        assert AllSlugs(r) == ItemSlugs(h) + AllSlugs(r');
      } else {
        assert r == r';
      }
    }
  }

  lemma {:induction false} PruneCutsWholeSubtrees(item: NavItem, slug: string)
    ensures item.slug != slug ==> ItemSlugs(PruneItem(item, slug)) + CutOffAt(item, slug) == ItemSlugs(item)
    ensures ItemHasSlug(item, slug) ==> slug in CutOffAt(item, slug)
    decreases item
  {
    if item.children.Present? {
      RemoveCutsWholeSubtrees(item.children.items, slug);
    }
  }

  lemma {:induction false} RemoveFromTreeConcat(a: seq<NavItem>, b: seq<NavItem>, slug: string)
    ensures RemoveFromTree(a + b, slug) == RemoveFromTree(a, slug) + RemoveFromTree(b, slug)
    decreases a
  {
    if a != [] {
      assert (a + b)[0] == a[0] && (a + b)[1..] == a[1..] + b;
      RemoveFromTreeConcat(a[1..], b, slug);
    } else {
      assert a + b == b;
    }
  }

  /** Every node carrying `parent`, at any depth, is a folder (it has `children`). */
  predicate ParentsAreFolders(items: seq<NavItem>, parent: string)
    decreases items
  {
    forall i :: 0 <= i < |items| ==> ParentIsFolder(items[i], parent)
  }

  predicate ParentIsFolder(item: NavItem, parent: string)
    decreases item
  {
    (item.slug == parent ==> item.children.Present?) &&
    (item.children.Present? ==> ParentsAreFolders(item.children.items, parent))
  }

  /**
   * Removing the slug of a freshly inserted item undoes the insertion, provided
   * the nodes it went under were folders already (a leaf parent keeps the
   * empty `children` list it gained).
   */
  lemma {:induction false} RemoveUndoesAdd(items: seq<NavItem>, parent: string, x: NavItem)
    requires !HasSlug(items, x.slug) && ParentsAreFolders(items, parent)
    ensures RemoveFromTree(AddToParent(items, parent, x), x.slug) == items
    decreases items
  {
    if items != [] {
      var s, head, rest := x.slug, items[0], items[1..];
      HasSlugSplit(items, s);
      assert ParentIsFolder(head, parent);
      assert ParentsAreFolders(rest, parent) by {
        forall i | 0 <= i < |rest| ensures ParentIsFolder(rest[i], parent) {
          assert rest[i] == items[i + 1];
        }
      }
      var r := AddToParent(items, parent, x);
      assert r == [AddToItem(head, parent, x)] + AddToParent(rest, parent, x);
      RemoveUndoesAdd(rest, parent, x);
      RemoveUndoesAddAt(head, parent, x);
    }
  }

  lemma {:induction false} RemoveUndoesAddAt(item: NavItem, parent: string, x: NavItem)
    requires !ItemHasSlug(item, x.slug) && ParentIsFolder(item, parent)
    ensures PruneItem(AddToItem(item, parent, x), x.slug) == item
    decreases item
  {
    var s := x.slug;
    if item.slug == parent {
      var c := item.children.items;
      RemoveFromTreeConcat(c, [x], s);
      RemoveAbsentIsIdentity(c, s);
      assert RemoveFromTree([x], s) == [];
    } else if item.children.Present? {
      RemoveUndoesAdd(item.children.items, parent, x);
    }
  }

  /** The value `removeFromNavigationTree(nav, slug)` returns. */
  function NavWithout(nav: Navigation, slug: string): Navigation {
    map t | t in nav :: RemoveFromTree(nav[t], slug)
  }

  /** `NavWithout` is decided tab by tab. */
  lemma NavWithoutTabwise(m: Navigation, nav: Navigation, slug: string)
    requires m.Keys == nav.Keys
    requires forall t :: t in nav ==> RemoveFromTree(m[t], slug) == nav[t]
    ensures NavWithout(m, slug) == nav
  {
  }

  /** No tab of the result carries `slug` at any depth, and the set of tabs is unchanged. */
  lemma NavWithoutHasNoSlug(nav: Navigation, slug: string)
    ensures NavWithout(nav, slug).Keys == nav.Keys
    ensures forall t :: t in nav ==> !HasSlug(NavWithout(nav, slug)[t], slug)
  {
  }

  /**
   * `removeFromNavigationTree(nav, slug)`: a copy of the map whose every tab
   * is rewritten in turn by `removeFromTree`.
   */
  method RemoveFromNavigationTree(nav: Navigation, slug: string) returns (r: Navigation)
    ensures r == NavWithout(nav, slug)
  {
    r := nav;
    var todo := nav.Keys;
    while todo != {}
      invariant todo <= nav.Keys && r.Keys == nav.Keys
      invariant forall t :: t in nav && t !in todo ==> r[t] == RemoveFromTree(nav[t], slug)
      invariant forall t :: t in todo ==> r[t] == nav[t]
      decreases todo
    {
      var t :| t in todo;
      r := r[t := RemoveFromTree(r[t], slug)];
      todo := todo - {t};
    }
  }
}
