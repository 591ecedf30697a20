// Search result shaping of the documentation hub (`useSearch`): the
// searchable items built from the page records, the snippet cut around the
// first content match, and the query guard with its truncation to ten
// results. Fuse.js ranking and `remove-markdown` are foreign libraries and
// enter as function parameters: `fuse` maps a query to ranked results with
// match indices, `strip` maps markdown to plain text.
module Search {
  import opened JsRuntime
  import opened DocsTypes

  datatype SearchableItem = SearchableItem(
    title: Option<string>,
    content: string,
    slug: Option<string>,
    tab: Option<string>,
    version: string,
    path: string)

  /** One entry of Fuse's `matches`: the key searched and the inclusive index ranges found. */
  datatype FuseMatch = FuseMatch(key: string, indices: seq<(nat, nat)>)

  /** One ranked result of Fuse: the item, its matches and its score. */
  datatype FuseResult = FuseResult(item: SearchableItem, matches: seq<FuseMatch>, score: real)

  datatype SearchResult = SearchResult(item: SearchableItem, snippet: string, score: real)

  // ---------------------------------------------------------------------
  // searchableItems
  // ---------------------------------------------------------------------

  /** A field inside a template literal: a missing one prints as `undefined`. */
  function Show(field: Option<string>): string {
    if field.Some? then field.value else "undefined"
  }

  /** `if (page.content)`: a page is indexed only when its content is present and non-empty. */
  predicate HasContent(page: PageRecord) {
    page.content.Some? && page.content.value != ""
  }

  /** The item pushed for one indexed page. */
  function ItemFor(page: PageRecord, version: string, strip: string -> string): (r: SearchableItem)
    requires HasContent(page)
    ensures r.path == "/" + Show(page.tab) + "/" + Show(page.slug)
    ensures r.version == version && r.content == strip(page.content.value)
    ensures r.title == page.title && r.slug == page.slug && r.tab == page.tab
  {
    SearchableItem(page.title, strip(page.content.value), page.slug, page.tab, version,
      "/" + Show(page.tab) + "/" + Show(page.slug))
  }

  /** The keys, in enumeration order, of the pages that get indexed. */
  function IndexedKeys(pages: map<string, PageRecord>, keys: seq<string>): (r: seq<string>)
    requires forall k :: k in keys ==> k in pages
    ensures forall k :: k in r <==> k in keys && HasContent(pages[k])
    ensures |r| <= |keys|
  {
    if keys == [] then []
    else if HasContent(pages[keys[0]]) then [keys[0]] + IndexedKeys(pages, keys[1..])
    else IndexedKeys(pages, keys[1..])
  }

  /** Indexing a duplicate-free key list gives a duplicate-free one. */
  lemma {:induction false} IndexedKeysNoDuplicates(pages: map<string, PageRecord>, keys: seq<string>)
    requires (forall k :: k in keys ==> k in pages) && NoDuplicates(keys)
    ensures NoDuplicates(IndexedKeys(pages, keys))
  {
    if keys != [] {
      var rest := IndexedKeys(pages, keys[1..]);
      assert NoDuplicates(keys[1..]) by {
        forall i, j | 0 <= i < j < |keys[1..]| ensures keys[1..][i] != keys[1..][j] {
          assert keys[1..][i] == keys[i + 1] && keys[1..][j] == keys[j + 1];
        }
      }
      IndexedKeysNoDuplicates(pages, keys[1..]);
      if HasContent(pages[keys[0]]) {
        assert keys[0] !in keys[1..] by {
          forall i | 0 <= i < |keys[1..]| ensures keys[1..][i] != keys[0] {
            assert keys[1..][i] == keys[i + 1];
          }
        }
        assert keys[0] !in rest;
        var r := [keys[0]] + rest;
        forall i, j | 0 <= i < j < |r| ensures r[i] != r[j] {
          assert r[j] == rest[j - 1];
          if i > 0 { assert r[i] == rest[i - 1]; }
        }
      }
    }
  }

  /**
   * When `keys` enumerates the page keys once each, as `Object.values` does,
   * the indexed keys are exactly the pages with content, each once, and there
   * is one searchable item per such page.
   */
  lemma IndexedKeysOfEnumeration(pages: map<string, PageRecord>, keys: seq<string>, version: string,
                                 strip: string -> string)
    requires NoDuplicates(keys) && forall k :: k in pages <==> k in keys
    ensures var ks := IndexedKeys(pages, keys);
      NoDuplicates(ks) && (forall k :: k in ks <==> k in pages && HasContent(pages[k])) &&
      |SearchableItems(pages, keys, version, strip)| == |ks|
  {
    IndexedKeysNoDuplicates(pages, keys);
    SearchableItemsFollowIndexedKeys(pages, keys, version, strip);
  }

  /**
   * The list `searchableItems` ends with: one item per page with content, in
   * the enumeration order `keys` of `Object.values`.
   */
  function SearchableItems(pages: map<string, PageRecord>, keys: seq<string>, version: string,
                           strip: string -> string): seq<SearchableItem>
    requires forall k :: k in keys ==> k in pages
  {
    if keys == [] then []
    else if HasContent(pages[keys[0]]) then
      [ItemFor(pages[keys[0]], version, strip)] + SearchableItems(pages, keys[1..], version, strip)
    else SearchableItems(pages, keys[1..], version, strip)
  }

  /** The `i`-th item is built from the `i`-th page with content. */
  lemma {:induction false} SearchableItemsFollowIndexedKeys(pages: map<string, PageRecord>, keys: seq<string>,
                                                             version: string, strip: string -> string)
    requires forall k :: k in keys ==> k in pages
    ensures var r, ks := SearchableItems(pages, keys, version, strip), IndexedKeys(pages, keys);
      |r| == |ks| &&
      forall i :: 0 <= i < |r| ==> HasContent(pages[ks[i]]) && r[i] == ItemFor(pages[ks[i]], version, strip)
  {
    if keys != [] {
      SearchableItemsFollowIndexedKeys(pages, keys[1..], version, strip);
      var k := keys[0];
      var r', ks' := SearchableItems(pages, keys[1..], version, strip), IndexedKeys(pages, keys[1..]);
      if HasContent(pages[k]) {
        assert SearchableItems(pages, keys, version, strip) == [ItemFor(pages[k], version, strip)] + r';
        assert IndexedKeys(pages, keys) == [k] + ks';
        ItemsFollowKeysCons(pages, k, ks', r', version, strip);
      }
    }
  }

  lemma ItemsFollowKeysCons(pages: map<string, PageRecord>, k: string, ks: seq<string>, r: seq<SearchableItem>,
                            version: string, strip: string -> string)
    requires k in pages && HasContent(pages[k]) && forall j :: j in ks ==> j in pages
    requires |r| == |ks| &&
      forall i :: 0 <= i < |r| ==> HasContent(pages[ks[i]]) && r[i] == ItemFor(pages[ks[i]], version, strip)
    ensures var r', ks' := [ItemFor(pages[k], version, strip)] + r, [k] + ks;
      |r'| == |ks'| &&
      forall i :: 0 <= i < |r'| ==> HasContent(pages[ks'[i]]) && r'[i] == ItemFor(pages[ks'[i]], version, strip)
  {
    var r', ks' := [ItemFor(pages[k], version, strip)] + r, [k] + ks;
    forall i | 1 <= i < |r'|
      ensures r'[i] == r[i - 1] && ks'[i] == ks[i - 1]
    {
    }
  }

  /** Every indexed item carries the active version and a `/tab/slug` path. */
  lemma SearchableItemsShape(pages: map<string, PageRecord>, keys: seq<string>, version: string,
                             strip: string -> string)
    requires forall k :: k in keys ==> k in pages
    ensures forall it :: it in SearchableItems(pages, keys, version, strip) ==>
      it.version == version && it.path == "/" + Show(it.tab) + "/" + Show(it.slug)
  {
    var r := SearchableItems(pages, keys, version, strip);
    SearchableItemsFollowIndexedKeys(pages, keys, version, strip);
    forall it | it in r
      ensures it.version == version && it.path == "/" + Show(it.tab) + "/" + Show(it.slug)
    {
      var i :| 0 <= i < |r| && r[i] == it;
    }
  }

  /** Pages without content are never indexed; when none has content the list is empty. */
  lemma NoContentNoItems(pages: map<string, PageRecord>, keys: seq<string>, version: string,
                         strip: string -> string)
    requires forall k :: k in keys ==> k in pages && !HasContent(pages[k])
    ensures SearchableItems(pages, keys, version, strip) == []
    decreases |keys|
  {
    if keys != [] {
      NoContentNoItems(pages, keys[1..], version, strip);
    }
  }

  /** `Object.values(pageContents).forEach(page => { if (page.content) items.push(...) })` */
  method BuildSearchableItems(pages: map<string, PageRecord>, keys: seq<string>, version: string,
                              strip: string -> string) returns (items: seq<SearchableItem>)
    requires forall k :: k in keys ==> k in pages
    ensures items == SearchableItems(pages, keys, version, strip)
  {
    items := [];
    var i := 0;
    while i < |keys|
      invariant 0 <= i <= |keys|
      invariant items + SearchableItems(pages, keys[i..], version, strip) == SearchableItems(pages, keys, version, strip)
    {
      var page := pages[keys[i]];
      ghost var rest := SearchableItems(pages, keys[i + 1..], version, strip);
      assert keys[i..][0] == keys[i] && keys[i..][1..] == keys[i + 1..];
      if HasContent(page) {
        assert SearchableItems(pages, keys[i..], version, strip) == [ItemFor(page, version, strip)] + rest;
        assert items + ([ItemFor(page, version, strip)] + rest) == (items + [ItemFor(page, version, strip)]) + rest;
        items := items + [ItemFor(page, version, strip)];
      } else {
        assert SearchableItems(pages, keys[i..], version, strip) == rest;
      }
      i := i + 1;
    }
    assert keys[i..] == [];
  }

  // ---------------------------------------------------------------------
  // createSnippet
  // ---------------------------------------------------------------------

  const Window := 40
  const Preview := 120

  /** `matches.find(m => m.key === 'content')` */
  function FirstContentMatch(matches: seq<FuseMatch>): (r: Option<FuseMatch>)
    ensures r.Some? ==> r.value in matches && r.value.key == "content"
    ensures r.None? ==> forall m :: m in matches ==> m.key != "content"
    ensures r.Some? ==> exists i :: 0 <= i < |matches| && matches[i] == r.value
                                 && forall j :: 0 <= j < i ==> matches[j].key != "content"
  {
    if matches == [] then None
    else if matches[0].key == "content" then Some(matches[0])
    else
      var r := FirstContentMatch(matches[1..]);
      if r.Some? then
        var i :| 0 <= i < |matches[1..]| && matches[1..][i] == r.value
                 && forall j :: 0 <= j < i ==> matches[1..][j].key != "content";
        assert matches[i + 1] == r.value;
        assert forall j :: 0 <= j < i + 1 ==> matches[j].key != "content" by {
          forall j | 0 <= j < i + 1 ensures matches[j].key != "content" {
            if j > 0 { assert matches[j] == matches[1..][j - 1]; }
          }
        }
        r
      else r
  }

  /** The index range the snippet is cut around, when the first content match has one. */
  function MatchRange(matches: seq<FuseMatch>): Option<(nat, nat)> {
    var m := FirstContentMatch(matches);
    if m.Some? && |m.value.indices| > 0 then Some(m.value.indices[0]) else None
  }

  function WindowStart(s: nat): nat {
    if s >= Window then s - Window else 0
  }

  function WindowEnd(e: nat, len: nat): nat {
    if e + Window <= len then e + Window else len
  }

  /** The snippet cut around a match at `[s, e]`. */
  function SnippetAt(content: string, s: nat, e: nat): string {
    var start := WindowStart(s);
    var end := WindowEnd(e, |content|);
    (if start > 0 then "..." else "") + Slice(content, start, end) + (if end < |content| then "..." else "")
  }

  /** `createSnippet(item, matches)` on the item's plain content. */
  function CreateSnippet(content: string, matches: seq<FuseMatch>): string {
    var range := MatchRange(matches);
    if range.Some? then SnippetAt(content, range.value.0, range.value.1)
    else
      Slice(content, 0, Preview) + (if |content| > Preview then "..." else "")
  }

  /**
   * Around a content match `[s, e]` the snippet is the text from `s - 40`
   * (at least 0) up to `e + 40` (at most the length), with `...` before it
   * exactly when it does not start the content and after it exactly when it
   * does not reach the end.
   */
  lemma SnippetAroundMatch(content: string, matches: seq<FuseMatch>, s: nat, e: nat)
    requires MatchRange(matches) == Some((s, e))
    ensures var start := if s >= 40 then s - 40 else 0;
      var end := if e + 40 <= |content| then e + 40 else |content|;
      var body := if start <= end then content[start..end] else "";
      CreateSnippet(content, matches) ==
        (if start > 0 then "..." else "") + body + (if end < |content| then "..." else "")
  {
  }

  /**
   * The snippet shows the whole match: `content[s..e]` (inclusive) sits inside
   * it, right after the `...` marker and the up to 40 characters of context.
   */
  lemma SnippetContainsMatch(content: string, matches: seq<FuseMatch>, s: nat, e: nat)
    requires MatchRange(matches) == Some((s, e))
    requires s <= e < |content|
    ensures var r := CreateSnippet(content, matches);
      var off := (if s > 40 then 3 else 0) + (s - WindowStart(s));
      off + (e + 1 - s) <= |r| && r[off..off + (e + 1 - s)] == content[s..e + 1]
    ensures |CreateSnippet(content, matches)| <= (e + 1 - s) + 2 * Window + 6
  {
    assert CreateSnippet(content, matches) == SnippetAt(content, s, e);
    SnippetAtContainsMatch(content, s, e);
  }

  lemma SnippetAtContainsMatch(content: string, s: nat, e: nat)
    requires s <= e < |content|
    ensures var r := SnippetAt(content, s, e);
      var off := (if s > 40 then 3 else 0) + (s - WindowStart(s));
      off + (e + 1 - s) <= |r| && r[off..off + (e + 1 - s)] == content[s..e + 1]
    ensures |SnippetAt(content, s, e)| <= (e + 1 - s) + 2 * Window + 6
  {
    var start, end := WindowStart(s), WindowEnd(e, |content|);
    assert start <= s && e + 1 <= end <= |content|;
    assert end - start <= (e + 1 - s) + 2 * Window;
    var pre := if start > 0 then "..." else "";
    assert |pre| == (if s > 40 then 3 else 0);
    var post := if end < |content| then "..." else "";
    assert SnippetAt(content, s, e) == pre + content[start..end] + post;
    CutContainsMatch(content, start, s, e + 1, end, pre, post);
  }

  /** `content[s..e1]` sits in `pre + content[start..end] + post` after `pre` and `s - start` characters. */
  lemma CutContainsMatch(content: string, start: nat, s: nat, e1: nat, end: nat, pre: string, post: string)
    requires start <= s <= e1 <= end <= |content|
    ensures var r := pre + content[start..end] + post;
      |r| == |pre| + (end - start) + |post| &&
      r[|pre| + (s - start)..|pre| + (e1 - start)] == content[s..e1]
  {
    var left := pre + content[start..s];
    var mid := content[s..e1];
    var right := content[e1..end] + post;
    assert content[start..end] == content[start..s] + mid + content[e1..end];
    assert pre + content[start..end] + post == left + mid + right;
    SliceOfConcat(left, mid, right, 0, |mid|);
  }

  lemma SliceOfConcat(pre: string, body: string, post: string, i: nat, j: nat)
    requires i <= j <= |body|
    ensures |pre| + j <= |pre + body + post|
    ensures (pre + body + post)[|pre| + i..|pre| + j] == body[i..j]
  {
    assert pre + body + post == pre + (body[..i] + body[i..j] + body[j..]) + post;
  }

  /**
   * When no content match has indices (a title-only match), the snippet is
   * the first 120 characters, with `...` exactly when the content is longer.
   */
  lemma SnippetWithoutContentMatch(content: string, matches: seq<FuseMatch>)
    requires MatchRange(matches) == None
    ensures var r := CreateSnippet(content, matches);
      |content| <= Preview ==> r == content
    ensures var r := CreateSnippet(content, matches);
      |content| > Preview ==> r == content[..Preview] + "..." && |r| == Preview + 3
  {
  }

  // ---------------------------------------------------------------------
  // search
  // ---------------------------------------------------------------------

  /** `!searchQuery.trim() || searchQuery.length < 2` */
  predicate Rejected(query: string) {
    Trim(query) == [] || |query| < 2
  }

  function ToResult(res: FuseResult): SearchResult {
    SearchResult(res.item, CreateSnippet(res.item.content, res.matches), res.score)
  }

  function ToResults(ranked: seq<FuseResult>): (r: seq<SearchResult>)
    ensures |r| == |ranked|
    ensures forall i :: 0 <= i < |r| ==> r[i] == ToResult(ranked[i])
  {
    if ranked == [] then [] else [ToResult(ranked[0])] + ToResults(ranked[1..])
  }

  /** What `search(query)` returns, given Fuse's ranking `ranked` for that query. */
  function SearchResults(query: string, ranked: seq<FuseResult>): (r: seq<SearchResult>)
    ensures |r| <= 10
    ensures Rejected(query) ==> r == []
    ensures !Rejected(query) ==> |r| == (if |ranked| < 10 then |ranked| else 10)
    ensures forall i :: 0 <= i < |r| ==> r[i] == ToResult(ranked[i])
  {
    if Rejected(query) then []
    else
      var all := ToResults(ranked);
      if |all| <= 10 then all else all[..10]
  }

  /** A blank or one-character query never reaches Fuse's results. */
  lemma ShortOrBlankQueryFindsNothing(query: string, ranked: seq<FuseResult>)
    requires AllSpace(query) || |query| < 2
    ensures SearchResults(query, ranked) == []
  {
    TrimEmptyIffAllSpace(query);
  }

  /** The hook state `search` touches. */
  class SearchHook {
    var query: string
    var isSearching: bool

    constructor()
      ensures query == "" && !isSearching
    {
      query := "";
      isSearching := false;
    }

    /**
     * `search(searchQuery)`: past the guard it raises `isSearching`, asks Fuse
     * and lowers the flag again on the way out.
     */
    method Search(searchQuery: string, fuse: string -> seq<FuseResult>) returns (r: seq<SearchResult>)
      modifies this
      ensures r == SearchResults(searchQuery, fuse(searchQuery))
      ensures isSearching == (if Rejected(searchQuery) then old(isSearching) else false)
      ensures query == old(query)
    {
      if Rejected(searchQuery) {
        return [];
      }
      isSearching := true;
      var ranked := fuse(searchQuery);
      var all := ToResults(ranked);
      r := if |all| <= 10 then all else all[..10];
      isSearching := false;
    }
  }
}
