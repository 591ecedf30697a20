// The new-page dialog (`PageCreationModal`): the file name derived from the
// title while the user has not typed one, the rule that enables the create
// button, the mapping of the parent selection, the list of parent folders
// offered, and the form state `handleCreate` and `handleTitleChange` update.
module PageCreation {
  import opened JsRuntime
  import opened DocsTypes
  import opened DocsUtils
  import opened DocsActions

  // ---------------------------------------------------------------------
  // The derived file name
  // ---------------------------------------------------------------------

  predicate OutsideArabicBlock(c: char) {
    !InArabicBlock(c)
  }

  predicate IsDash(c: char) {
    c == '-'
  }

  /** `s.replace(/^-|-$/g, '')`: one leading and one trailing dash go. */
  function StripOuterDash(s: string): (r: string)
    ensures |r| <= |s|
  {
    var a := if s != [] && s[0] == '-' then s[1..] else s;
    if a != [] && a[|a| - 1] == '-' then a[..|a| - 1] else a
  }

  /**
   * The `handleTitleChange` chain: lower-case, drop the Arabic block, turn
   * whitespace runs into `-`, keep `[A-Za-z0-9_-]`, collapse dash runs, and
   * strip the outer dashes. `/--+/` rewrites only runs of two or more, but
   * rewriting a lone `-` by `-` changes nothing, so every dash run is
   * collapsed here.
   */
  function DeriveFileName(value: string): string {
    var lower := LowerAscii(value);
    var latin := KeepOnly(lower, OutsideArabicBlock);
    var dashed := ReplaceRuns(latin, IsSpace, '-');
    var kept := KeepOnly(dashed, KeptBySlugFilter);
    var collapsed := ReplaceRuns(kept, IsDash, '-');
    StripOuterDash(collapsed)
  }

  /** What a derived file name looks like: `[a-z0-9_-]`, no `--`, no dash at either end. */
  predicate WellFormedFileName(s: string) {
    && AllSlugChars(s)
    && NoAdjacentIn(s, IsDash)
    && (s == [] || (s[0] != '-' && s[|s| - 1] != '-'))
  }

  /** Stripping the outer dashes keeps a slice of `s`, so its alphabet and its lone dashes. */
  lemma StripOuterDashShape(s: string)
    requires NoAdjacentIn(s, IsDash)
    ensures var r := StripOuterDash(s);
      (r == [] || (r[0] != '-' && r[|r| - 1] != '-')) && NoAdjacentIn(r, IsDash) &&
      forall i :: 0 <= i < |r| ==> r[i] in s
  {
    var r := StripOuterDash(s);
    var lo := if s != [] && s[0] == '-' then 1 else 0;
    var a := s[lo..];
    var hi := if a != [] && a[|a| - 1] == '-' then |s| - 1 else |s|;
    assert r == s[lo..hi];
    if r != [] {
      assert r[0] == s[lo] && r[|r| - 1] == s[hi - 1];
      if lo == 1 {
        assert IsDash(s[0]);
      }
      if hi < |s| {
        assert IsDash(s[|s| - 1]) && hi - 1 == |s| - 2;
      }
    }
    forall i | 1 <= i < |r|
      ensures !(IsDash(r[i - 1]) && IsDash(r[i]))
    {
      assert r[i - 1] == s[lo + i - 1] && r[i] == s[lo + i];
    }
    forall i | 0 <= i < |r|
      ensures r[i] in s
    {
      assert r[i] == s[lo + i];
    }
  }

  /** A derived file name is well formed, whatever the title. */
  lemma DerivedNameWellFormed(value: string)
    ensures WellFormedFileName(DeriveFileName(value))
  {
    var lower := LowerAscii(value);
    var latin := KeepOnly(lower, OutsideArabicBlock);
    var dashed := ReplaceRuns(latin, IsSpace, '-');
    var kept := KeepOnly(dashed, KeptBySlugFilter);
    var collapsed := ReplaceRuns(kept, IsDash, '-');
    KeepOnlyFromInput(lower, OutsideArabicBlock);
    ReplaceRunsFromInput(latin, IsSpace, '-');
    KeepOnlyFromInput(dashed, KeptBySlugFilter);
    ReplaceRunsFromInput(kept, IsDash, '-');
    assert forall c :: c in lower ==> !('A' <= c <= 'Z');
    assert forall c :: c in kept ==> IsSlugChar(c);
    ReplaceRunsNoAdjacent(kept, IsDash, '-');
    StripOuterDashShape(collapsed);
  }

  /** A well-formed name goes through every step of the derivation unchanged. */
  lemma WellFormedNameIsFixed(s: string)
    requires WellFormedFileName(s)
    ensures DeriveFileName(s) == s
  {
    assert LowerAscii(s) == s;
    OutsideArabicBlockAll(s);
    KeepOnlyIdentity(s, OutsideArabicBlock);
    SlugCharsHaveNoSpace(s);
    ReplaceRunsWithoutRun(s, IsSpace, '-');
    SlugCharsAreKept(s);
    KeepOnlyIdentity(s, KeptBySlugFilter);
    ReplaceRunsKeepsSingles(s, IsDash, '-');
    assert StripOuterDash(s) == s;
  }

  lemma OutsideArabicBlockAll(s: string)
    requires AllSlugChars(s)
    ensures AllIn(s, OutsideArabicBlock)
  {
    forall i | 0 <= i < |s|
      ensures OutsideArabicBlock(s[i])
    {
      assert IsSlugChar(s[i]);
    }
  }

  lemma SlugCharsHaveNoSpace(s: string)
    requires AllSlugChars(s)
    ensures forall i :: 0 <= i < |s| ==> !IsSpace(s[i])
  {
    forall i | 0 <= i < |s|
      ensures !IsSpace(s[i])
    {
      assert IsSlugChar(s[i]);
    }
  }

  lemma SlugCharsAreKept(s: string)
    requires AllSlugChars(s)
    ensures AllIn(s, KeptBySlugFilter)
  {
    forall i | 0 <= i < |s|
      ensures KeptBySlugFilter(s[i])
    {
      assert IsSlugChar(s[i]);
    }
  }

  /** The names the derivation leaves unchanged are exactly the well-formed ones. */
  lemma FixedIffWellFormed(s: string)
    ensures DeriveFileName(s) == s <==> WellFormedFileName(s)
  {
    DerivedNameWellFormed(s);
    if WellFormedFileName(s) {
      WellFormedNameIsFixed(s);
    }
  }

  /** Deriving a name from a derived name gives it back. */
  lemma DeriveIdempotent(value: string)
    ensures DeriveFileName(DeriveFileName(value)) == DeriveFileName(value)
  {
    DerivedNameWellFormed(value);
    WellFormedNameIsFixed(DeriveFileName(value));
  }

  /** A title written only in Persian derives the empty name. */
  lemma PersianTitleDerivesEmptyName()
    ensures DeriveFileName("\U{0633}\U{0644}\U{0627}\U{0645}") == ""
  {
    var persian := "\U{0633}\U{0644}\U{0627}\U{0645}";
    assert LowerAscii(persian) == persian;
    KeepOnlyNone(persian, OutsideArabicBlock);
  }

  // ---------------------------------------------------------------------
  // Form validity, the parent selection and the parent candidates
  // ---------------------------------------------------------------------

  /** `title.trim() && (pageType === "folder" || fileName.trim())` */
  predicate IsFormValid(title: string, fileName: string, pageType: PageType) {
    Trim(title) != [] && (pageType == Folder || Trim(fileName) != [])
  }

  /** Creation is enabled iff the title has a non-space character and a page also has a file name with one. */
  lemma FormValidIff(title: string, fileName: string, pageType: PageType)
    ensures IsFormValid(title, fileName, pageType) <==>
      !AllSpace(title) && (pageType == Folder || !AllSpace(fileName))
  {
    TrimEmptyIffAllSpace(title);
    TrimEmptyIffAllSpace(fileName);
  }

  const NoParent := "no-parent"

  /** `selectedParent === "no-parent" ? undefined : selectedParent` */
  function ParentFor(selected: string): (r: Option<string>)
    ensures r.None? <==> selected == NoParent
    ensures r.Some? ==> r.value == selected
  {
    if selected == NoParent then None else Some(selected)
  }

  /** `useState(parentSlug || "no-parent")`: an absent or empty parent starts as "no parent". */
  function InitialSelection(parentSlug: Option<string>): string {
    if parentSlug.Some? && parentSlug.value != "" then parentSlug.value else NoParent
  }

  /** The dialog opened under a folder passes that folder on; opened without one it passes none. */
  lemma InitialSelectionRoundTrip(parentSlug: Option<string>)
    requires parentSlug != Some(NoParent)
    ensures ParentFor(InitialSelection(parentSlug)) ==
      (if parentSlug == Some("") then None else parentSlug)
  {
  }

  /** The root items that are folders and are not `parentSlug`, in order. */
  function FolderCandidates(items: seq<NavItem>, parentSlug: Option<string>): (r: seq<NavItem>)
    ensures |r| <= |items|
    ensures forall x :: x in r <==> x in items && x.children.Present? && Some(x.slug) != parentSlug
  {
    if items == [] then []
    else if items[0].children.Present? && Some(items[0].slug) != parentSlug then
      [items[0]] + FolderCandidates(items[1..], parentSlug)
    else FolderCandidates(items[1..], parentSlug)
  }

  /**
   * `navigationData[activeTab]?.filter(item => item.children && item.slug !== parentSlug) || []`:
   * an unknown tab offers nothing; a `children` array counts even when empty.
   */
  function AvailableParents(nav: Navigation, activeTab: string, parentSlug: Option<string>): seq<NavItem> {
    if activeTab in nav then FolderCandidates(nav[activeTab], parentSlug) else []
  }

  /** Candidate parents are exactly the root-level folders of the tab other than `parentSlug`. */
  lemma AvailableParentsIff(nav: Navigation, activeTab: string, parentSlug: Option<string>, x: NavItem)
    ensures x in AvailableParents(nav, activeTab, parentSlug) <==>
      activeTab in nav && x in nav[activeTab] && x.children.Present? && Some(x.slug) != parentSlug
  {
  }

  /** Filtering keeps the tab's order: candidates of a concatenation are the candidates of each part. */
  lemma {:induction false} CandidatesConcat(a: seq<NavItem>, b: seq<NavItem>, parentSlug: Option<string>)
    ensures FolderCandidates(a + b, parentSlug) == FolderCandidates(a, parentSlug) + FolderCandidates(b, parentSlug)
  {
    if a == [] {
      assert a + b == b;
    } else {
      assert (a + b)[0] == a[0] && (a + b)[1..] == a[1..] + b;
      CandidatesConcat(a[1..], b, parentSlug);
    }
  }

  // ---------------------------------------------------------------------
  // The form state
  // ---------------------------------------------------------------------

  /** The four state fields of the dialog. */
  class PageForm {
    var title: string
    var fileName: string
    var pageType: PageType
    var selectedParent: string

    constructor(parentSlug: Option<string>)
      ensures title == "" && fileName == "" && pageType == Page
      ensures selectedParent == InitialSelection(parentSlug)
    {
      title := "";
      fileName := "";
      pageType := Page;
      selectedParent := InitialSelection(parentSlug);
    }

    /** `handleTitleChange(value)`: the file name follows the title only while it is empty. */
    method HandleTitleChange(value: string)
      modifies this
      ensures title == value
      ensures fileName == if old(fileName) == "" then DeriveFileName(value) else old(fileName)
      ensures pageType == old(pageType) && selectedParent == old(selectedParent)
    {
      title := value;
      if fileName == "" {
        fileName := DeriveFileName(value);
      }
    }

    /** The file-name input's `onChange`. */
    method SetFileName(value: string)
      modifies this
      ensures fileName == value
      ensures title == old(title) && pageType == old(pageType) && selectedParent == old(selectedParent)
    {
      fileName := value;
    }

    /** The type selector's `onValueChange`. */
    method SetPageType(value: PageType)
      modifies this
      ensures pageType == value
      ensures title == old(title) && fileName == old(fileName) && selectedParent == old(selectedParent)
    {
      pageType := value;
    }

    /** The parent selector's `onValueChange`. */
    method SetSelectedParent(value: string)
      modifies this
      ensures selectedParent == value
      ensures title == old(title) && fileName == old(fileName) && pageType == old(pageType)
    {
      selectedParent := value;
    }

    /**
     * `handleCreate()` with `Date.now()` passed as `now`: on a valid form the
     * store creates the page or folder under the selected parent (the file
     * name is handed over but not used), a page becomes the active page, and
     * the form is reset; on an invalid form nothing happens.
     */
    method HandleCreate(store: DocsStore, activeTab: string, now: nat) returns (created: bool)
      modifies this, store
      ensures created == IsFormValid(old(title), old(fileName), old(pageType))
      ensures !created ==> unchanged(this) && unchanged(store)
      ensures created ==> Submitted(store, activeTab, now, old(title), old(pageType), old(selectedParent),
        old(store.pageContents), old(store.navigationData), old(store.activePage))
    {
      created := IsFormValid(title, fileName, pageType);
      if created {
        Submit(store, activeTab, now);
      }
    }

    /** What a successful `handleCreate` leaves behind in the form and the store. */
    ghost predicate Submitted(store: DocsStore, activeTab: string, now: nat, t: string, kind: PageType,
                              parent: string, pages: map<string, PageRecord>, nav: Navigation, active: string)
      reads this, store
    {
      var slug := CreateUniqueSlug(t, now);
      && title == "" && fileName == "" && pageType == Page && selectedParent == NoParent
      && store.pageContents == (if kind == Page then pages[slug := NewPage(t, slug, activeTab)] else pages)
      && store.navigationData == AddToNavigationTree(nav, activeTab, NewNavItem(t, slug, kind), ParentFor(parent))
      && store.activePage == (if kind == Page then slug else active)
    }

    /** The branch of `handleCreate` taken on a valid form. */
    method Submit(store: DocsStore, activeTab: string, now: nat)
      modifies this, store
      ensures Submitted(store, activeTab, now, old(title), old(pageType), old(selectedParent),
        old(store.pageContents), old(store.navigationData), old(store.activePage))
    {
      var newSlug := store.CreateNewPage(title, activeTab, ParentFor(selectedParent), pageType, now);
      if pageType == Page {
        store.SetActivePage(newSlug);
      }
      title := "";
      fileName := "";
      pageType := Page;
      selectedParent := NoParent;
    }
  }
}
