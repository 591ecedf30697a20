# Autokarino docs hub: a Dafny model of its core

The docs hub is a Persian (right-to-left) documentation site. Its pages are
kept per version and per tab. This project models the logic under its UI:

- **The simulated markdown file store** (`FileManager`, `FileManagerLemmas`).
  - It is one JavaScript `Map` from `docs/<version>/<tab>/<file>.md` to markdown text.
  - The map keeps insertion order; the model holds it as a `map` plus an order `seq`.
  - Single-file create, read, update and delete, plus the whole-version copy, delete, rename and default initialisation.
  - The bulk operations are `while` loops over a snapshot of the keys. Each is proved against a fold of its single-file step.
- **Slugs and the navigation forest** (`DocsUtils`, over the types of `DocsTypes`).
  - `generateSlug` and `createUniqueSlug`.
  - `addToNavigationTree`, which inserts under every node carrying the parent slug, and `removeFromNavigationTree`, which cuts every node carrying a slug together with its subtree.
  - All of these are pure functions: they build new values and never change their inputs.
- **The page actions** (`DocsActions`).
  - `updatePageContent`, `createNewPage` and `deletePage`, as methods of one store holding the page records, the navigation forest and the active page.
- **Search result shaping** (`Search`).
  - Building the searchable items, the `search` guard and its cut to 10 results, and `createSnippet`.
  - Fuse.js and `remove-markdown` are parameters of the model.
- **The page-creation dialog** (`PageCreation`).
  - The file name derived from a title and the validity rule.
  - The mapping of the "no-parent" choice and the candidate parent folders.
  - The form state its handlers update.
- **The version dialog** (`VersionManager`).
  - The guards on adding and renaming a version, the rule that disables deleting the last version, and the dialog state.
- **The markdown body transform** (`MarkdownRenderer`).
  - HTML-looking content is kept as it is; plain text gets `<br>` for each line break.

`JsRuntime` holds the JavaScript built-ins the sources rely on:
- `trim`, `toLowerCase` (ASCII), `startsWith` and `slice`;
- the regular-expression character classes `\s` and `\w`;
- generic "replace each run" and "delete each match" rewrites used by the `.replace(/…/g, …)` chains.

The verified files are `js_runtime.dfy`, `docs_types.dfy`, `file_manager.dfy`,
`file_manager_lemmas.dfy`, `docs_utils.dfy`, `docs_actions.dfy`, `search.dfy`,
`page_creation.dfy`, `version_manager.dfy` and `markdown_renderer.dfy`. They are
verified together.

### Behaviours of the code that the model keeps as written

- `copyVersionFiles` and `renameVersionFiles` skip files whose content is the empty string (`if (content)`). A renamed version can therefore keep empty files under its old prefix.
- `renameVersionFiles(v, v)` writes each non-empty file onto itself and then deletes it. `RenameToSelfDeletesFiles` states this.
- The copy and rename loops build the new path with `path.replace("docs/<from>/", "docs/<to>/")`. A `$$`, `$&`, `` $` `` or `$'` in the new version name is expanded, so such a version's files do not land under `docs/<to>/`. `RebaseCollapsesDollarPair` and `RebaseInsertsMatch` state two cases.
- `addToNavigationTree` with a parent slug does not check that the parent is a folder: a leaf parent gains a `children` list.
  - Every node carrying the slug receives a copy of the item, and the matching node's own children are not searched further.
  - When no node matches, the item is dropped.
- `updatePageContent` on a slug with no record writes a partial record holding only the content and a non-empty title.
- Refusing to delete the last version is done only by disabling the button. `handleDeleteVersion` itself has no guard.
- The file-name derivation's `/--+/g` collapse is modelled as collapsing every run of dashes. Replacing a lone `-` by `-` changes nothing, so the two agree.
- `createNewPage` is called with a fifth argument, the file name, which it ignores. `PageCreation.PageForm.HandleCreate` hands it nothing.

## Model

| member | source | states |
|---|---|---|
| FileManager.Put | src/utils/fileManager.ts:5-8 | `Map.set` keeps the table well formed: each stored key is listed exactly once in the enumeration order |
| FileManager.Remove | src/utils/fileManager.ts:19-22 | `Map.delete` keeps the table well formed and leaves the key absent |
| FileManager.KeysWithPrefix | src/utils/fileManager.ts:71-75 | the filter keeps exactly the keys that start with the prefix, without duplicates when the keys had none |
| FileManager.Rebase | src/utils/fileManager.ts:36 | `replace` finds `docs/<from>/` at the start of the path and expands the `$` patterns of `docs/<to>/` against that match; when the target name has no `$`, the result is `docs/<to>/` followed by the rest of the path |
| FileManager.MdFileStore.ReadMdFile | src/utils/fileManager.ts:10-12 | a file reads as its content exactly when it is stored with non-empty content, and as null otherwise |
| FileManager.MdFileStore.VersionExists | src/utils/fileManager.ts:78-82 | `versionExists(v)` holds exactly when `getVersionFiles(v)` is non-empty |
| FileManager.CopyAll | src/utils/fileManager.ts:33-40 | the copy loop, folded over the snapshot, keeps the table well formed |
| FileManager.RenameAll | src/utils/fileManager.ts:59-67 | the rename loop, folded over the snapshot, keeps the table well formed |
| FileManager.RemoveAll | src/utils/fileManager.ts:48-51 | the delete loop, folded over the snapshot, keeps the table well formed |
| FileManager.DefaultContent | src/utils/fileManager.ts:94-236 | every default document is non-empty |
| FileManager.MdFileStore.constructor | src/utils/fileManager.ts:3 | the store starts empty and well formed |
| FileManager.MdFileStore.Set | src/utils/fileManager.ts:6 | `mdFiles.set` changes the store exactly as `Put` says |
| FileManager.MdFileStore.Delete | src/utils/fileManager.ts:20 | `mdFiles.delete` changes the store exactly as `Remove` says |
| FileManager.MdFileStore.CreateMdFile | src/utils/fileManager.ts:5-8 | `createMdFile` sets one path's content |
| FileManager.MdFileStore.UpdateMdFile | src/utils/fileManager.ts:14-17 | `updateMdFile` sets one path's content |
| FileManager.MdFileStore.DeleteMdFile | src/utils/fileManager.ts:19-22 | `deleteMdFile` removes one path |
| FileManager.MdFileStore.ListMdFiles | src/utils/fileManager.ts:24-26 | lists every stored path exactly once |
| FileManager.MdFileStore.GetVersionFiles | src/utils/fileManager.ts:71-75 | lists exactly the stored paths under `docs/<version>/` |
| FileManager.MdFileStore.CopyFile | src/utils/fileManager.ts:34-39 | one pass of the copy loop: a non-empty file is written at its rebased path, `$` patterns of the target name expanded |
| FileManager.MdFileStore.RenameFile | src/utils/fileManager.ts:60-66 | one pass of the rename loop: a non-empty file is written at its rebased path, `$` patterns of the new name expanded, then its old key is deleted |
| FileManager.MdFileStore.RenameNext | src/utils/fileManager.ts:59-67 | pass `i` of the rename loop extends the rename fold by the `i`-th snapshot path |
| FileManager.MdFileStore.CopyVersionFiles | src/utils/fileManager.ts:28-41 | the loop leaves the store equal to the copy fold over the snapshot of the source version's keys, for any version names including ones with `$` (proved with a loop invariant) |
| FileManager.MdFileStore.DeleteVersionFiles | src/utils/fileManager.ts:43-52 | the loop leaves the store equal to the delete fold over the snapshot of the version's keys |
| FileManager.MdFileStore.RenameVersionFiles | src/utils/fileManager.ts:54-68 | the loop leaves the store equal to the rename fold over the snapshot of the old version's keys, for any version names including ones with `$` |
| FileManager.MdFileStore.InitializeDefaultFiles | src/utils/fileManager.ts:85-237 | nothing changes when the version exists; otherwise the five default files are written in order |
| FileManagerLemmas.ReadAfterCreate | src/utils/fileManager.ts:5-12 | reading a path just written gives its content, or null when the content is empty (`get(p) \|\| null`) |
| FileManagerLemmas.PutLeavesOtherPaths | src/utils/fileManager.ts:5-17 | creating or updating a path leaves every other path and its content alone |
| FileManagerLemmas.DeleteMakesAbsent | src/utils/fileManager.ts:19-22 | a deleted path is absent and reads as null; deleting an absent path changes nothing |
| FileManagerLemmas.VersionExistsIffFiles | src/utils/fileManager.ts:71-82 | `versionExists(v)` holds exactly when `getVersionFiles(v)` is non-empty |
| FileManagerLemmas.RebaseRoundTrip | src/utils/fileManager.ts:36 | between version names without `$`, rebasing a path to another version and back gives the path back |
| FileManagerLemmas.RebaseSameVersion | src/utils/fileManager.ts:62 | rebasing a path onto its own version, named without `$`, leaves it unchanged |
| FileManagerLemmas.RebaseCollapsesDollarPair | src/utils/fileManager.ts:36 | a target name `a$$b` puts the path under `docs/a$b/`, not under the named version |
| FileManagerLemmas.RebaseInsertsMatch | src/utils/fileManager.ts:62 | a target name `a$&b` puts the old prefix inside the new path, `docs/a` + `docs/<from>/` + `b/`, which does not lie under `docs/a$&b/` |
| FileManagerLemmas.ReplacementTextPrefix | src/utils/fileManager.ts:36 | a `$`-free head of the replacement is inserted literally before the rest is expanded |
| JsRuntime.ReplacementTextLiteral | src/utils/fileManager.ts:36 | a replacement string without `$` is inserted literally |
| FileManagerLemmas.UnderOnlyOne | src/utils/fileManager.ts:29-31 | when neither prefix extends the other, no path lies under both versions |
| FileManagerLemmas.CopyAllAt | src/utils/fileManager.ts:33-40 | pointwise content of the copy fold over any list of source paths |
| FileManagerLemmas.CopyVersionFilesSpec | src/utils/fileManager.ts:28-41 | after the copy, each target path holds the content of its non-empty source file, and every other path is as before |
| FileManagerLemmas.CopyDuplicatesEachFile | src/utils/fileManager.ts:28-41 | every non-empty source file exists under the target version with the same content, and the source file is kept |
| FileManagerLemmas.CopyToSelfAt | src/utils/fileManager.ts:33-40 | copying a version's paths onto the same version leaves the table unchanged |
| FileManagerLemmas.CopyToSelfIsIdentity | src/utils/fileManager.ts:28-41 | `copyVersionFiles(v, v)` changes nothing |
| FileManagerLemmas.RenameAllAt | src/utils/fileManager.ts:59-67 | pointwise content of the rename fold over any duplicate-free list of source paths |
| FileManagerLemmas.RenameVersionFilesSpec | src/utils/fileManager.ts:54-68 | after the rename, each new path holds its old file's content, non-empty old files are gone, and every other path is as before |
| FileManagerLemmas.RenameMovesNonEmptyFiles | src/utils/fileManager.ts:54-68 | a non-empty file moves to the new prefix and its old key disappears; an empty file stays where it was |
| FileManagerLemmas.RenameSelfAt | src/utils/fileManager.ts:59-67 | pointwise content of renaming a list of paths onto their own version |
| FileManagerLemmas.RenameToSelfDeletesFiles | src/utils/fileManager.ts:54-68 | `renameVersionFiles(v, v)` deletes exactly the version's non-empty files |
| FileManagerLemmas.RemoveAllAt | src/utils/fileManager.ts:48-51 | the delete fold removes exactly the listed paths and keeps the rest with their content |
| FileManagerLemmas.DeleteVersionFilesSpec | src/utils/fileManager.ts:43-52 | `deleteVersionFiles(v)` removes exactly the paths under `docs/v/`, keeps the others with their content, and leaves `getVersionFiles(v)` empty |
| FileManagerLemmas.DeleteV1SparesV10 | src/utils/fileManager.ts:43-52 | because of the trailing `/`, deleting `v1` keeps every file of `v10` |
| FileManagerLemmas.InitSkipsExistingVersion | src/utils/fileManager.ts:85-90 | initialising a version that has files changes nothing |
| FileManagerLemmas.ReadThroughPutDefault | src/utils/fileManager.ts:94-217 | writing one default file changes the reading of that path only |
| FileManagerLemmas.InitCreatesDefaults | src/utils/fileManager.ts:92-237 | on a version without files, each of the five default paths afterwards reads as its non-empty default content |
| FileManagerLemmas.InitIdempotent | src/utils/fileManager.ts:85-237 | initialising twice is the same as initialising once |
| JsRuntime.TrimEmptyIffAllSpace | src/components/VersionManager.tsx:47 | `s.trim()` is empty exactly when every character of `s` is whitespace |
| JsRuntime.TrimHasNoOuterSpace | src/components/VersionManager.tsx:63 | a non-empty trimmed string neither starts nor ends with whitespace |
| JsRuntime.ReplaceRunsNoAdjacent | src/components/PageCreationModal.tsx:54 | replacing each maximal run of a character class by one character of that class leaves no two class characters adjacent, so after `replace(/--+/g, '-')` the file name has no `--` |
| JsRuntime.ReplaceRunsKeepsSingles | src/components/PageCreationModal.tsx:54 | rewriting runs leaves a string whose run characters are lone replacements unchanged |
| JsRuntime.KeepOnlyFromInput | src/utils/docsUtils.ts:7 | `replace(/[^…]/g, '')` only deletes: every character of the result comes from the input |
| JsRuntime.KeepOnlyNone | src/components/PageCreationModal.tsx:51 | a string with no kept character is filtered down to nothing |
| JsRuntime.ReplaceRunsWithoutRun | src/utils/docsUtils.ts:6 | a string with no whitespace passes `replace(/\s+/g, '-')` unchanged |
| JsRuntime.ReplaceRunsFromInput | src/utils/docsUtils.ts:6 | every character of the result is the replacement or comes from the input |
| JsRuntime.KeepOnlyIdentity | src/components/PageCreationModal.tsx:53 | deleting non-matching characters leaves a string that has none unchanged |
| DocsTypes.RootSlugs | src/types/docs.ts:2-7 | the root slugs of a forest, one per root, in order |
| DocsUtils.GenerateSlug | src/utils/docsUtils.ts:4-11 | the chain lower-case, whitespace runs to `-`, drop `[^\w\-]`, encode U+0600–U+06FF; no contract of its own, its properties are the `Slug…` lemmas below |
| DocsUtils.PercentFree | src/utils/docsUtils.ts:8-10 | `encodeURIComponent` of a U+0600–U+06FF letter without its `%` signs has four characters |
| DocsUtils.PercentFreeExample | src/utils/docsUtils.ts:8-10 | U+0633 encodes to `D8B3` |
| DocsUtils.EncodeArabicBlockIdentity | src/utils/docsUtils.ts:8-10 | the Arabic-block replacement leaves a string made of `[a-z0-9_-]` unchanged |
| DocsUtils.SlugAlphabet | src/utils/docsUtils.ts:4-11 | a slug holds only `[a-z0-9_-]`, so the Arabic-block step never fires |
| DocsUtils.SlugHasNoSpace | src/utils/docsUtils.ts:4-11 | a slug never holds whitespace |
| DocsUtils.SlugOfWordlessTitle | src/utils/docsUtils.ts:4-11 | a title with no word character, dash or whitespace gives the empty slug |
| DocsUtils.SlugMayBeEmpty | src/utils/docsUtils.ts:4-11 | an all-punctuation title and an all-Persian title both give `""` |
| DocsUtils.DashedAroundRun | src/utils/docsUtils.ts:5-6 | a maximal whitespace run between two parts becomes one `-` |
| DocsUtils.SlugOfSpacedTitle | src/utils/docsUtils.ts:4-11 | the slug of `a + whitespace run + b` is `slug(a) + "-" + slug(b)` |
| DocsUtils.Decimal | src/utils/docsUtils.ts:15 | the printed timestamp is a non-empty run of digits |
| DocsUtils.DecimalRoundTrip | src/utils/docsUtils.ts:15 | reading the printed timestamp back gives the timestamp |
| DocsUtils.CreateUniqueSlug | src/utils/docsUtils.ts:13-16 | the unique slug is longer than `slug + "-"` and ends in a digit |
| DocsUtils.UniqueSlugInjective | src/utils/docsUtils.ts:13-16 | for one title, distinct timestamps give distinct slugs |
| DocsUtils.AddToParent | src/utils/docsUtils.ts:28-44 | root slugs are unchanged; each matching root gets `x` appended as its last child without descending into it; every other root keeps its title, type and folder-ness |
| DocsUtils.AddToItem | src/utils/docsUtils.ts:29-42 | one tree of the insert: a node carrying the parent slug gets `x` as its last child, any other folder is searched; no contract of its own, `DocsUtils.AddItemCountsSlugs` and `DocsUtils.InsertedAtIffMatch` state its effect |
| DocsUtils.AddToNavigationTree | src/utils/docsUtils.ts:18-53 | the tab exists afterwards, and every other tab is unchanged |
| DocsUtils.AddAtRoot | src/utils/docsUtils.ts:46-50 | without a parent, `x` becomes the tab's last root and the earlier roots stay in place, even when the tab was absent |
| DocsUtils.AddWithoutMatch | src/utils/docsUtils.ts:28-46 | when no node carries the parent slug, the forest is unchanged |
| DocsUtils.HasSlugSplit | src/types/docs.ts:2-7 | a slug occurs in a forest exactly when it occurs in the first tree or in the rest |
| DocsUtils.AllSlugsConcat | src/types/docs.ts:2-7 | the slug multiset of two forests side by side is the sum of theirs |
| DocsUtils.AddCountsSlugs | src/utils/docsUtils.ts:28-44 | inserting under a parent keeps every node and adds only the inserted copies |
| DocsUtils.AddItemCountsSlugs | src/utils/docsUtils.ts:29-42 | the same, for one tree |
| DocsUtils.InsertedIffMatch | src/utils/docsUtils.ts:28-44 | something is inserted exactly when some node carries the parent slug |
| DocsUtils.InsertedAtIffMatch | src/utils/docsUtils.ts:29-42 | the same, for one tree |
| DocsUtils.AddChangesIffMatch | src/utils/docsUtils.ts:26-46 | no node is lost, and the forest changes exactly when some node at any depth carries the parent slug |
| DocsUtils.AllSlugsHasSlug | src/types/docs.ts:2-7 | a slug is in the slug multiset exactly when some node carries it |
| DocsUtils.ItemSlugsHasSlug | src/types/docs.ts:2-7 | the same, for one tree |
| DocsUtils.InsertedHoldsItem | src/utils/docsUtils.ts:28-44 | whatever is inserted includes the new item's slug |
| DocsUtils.InsertedAtHoldsItem | src/utils/docsUtils.ts:29-42 | the same, for one tree |
| DocsUtils.AddPlacesItem | src/utils/docsUtils.ts:18-53 | without a parent, the new slug is the tab's last root; with a matching parent it is in the tab's tree; with an unmatched parent the tab is unchanged |
| DocsUtils.Survivors | src/utils/docsUtils.ts:62-63 | the filter keeps exactly the roots not carrying the slug, and their root slugs are the old ones without it |
| DocsUtils.RemoveFromTree | src/utils/docsUtils.ts:61-68 | no node at any depth carries the removed slug |
| DocsUtils.RemoveKeepsSurvivors | src/utils/docsUtils.ts:61-68 | the remaining roots are the filter survivors in order, each keeping slug, title, type and folder-ness |
| DocsUtils.RemoveKeepsSurvivorShapes | src/utils/docsUtils.ts:61-68 | root by root, the result and the survivors agree on everything but the children's contents |
| DocsUtils.PruneItem | src/utils/docsUtils.ts:64-67 | a surviving node's subtree no longer carries the slug |
| DocsUtils.RemoveAbsentIsIdentity | src/utils/docsUtils.ts:61-68 | removing a slug no node carries changes nothing |
| DocsUtils.RemoveCutsWholeSubtrees | src/utils/docsUtils.ts:61-68 | what remains plus the cut-off subtrees is the original forest, and the slug is among those cut off when present |
| DocsUtils.PruneCutsWholeSubtrees | src/utils/docsUtils.ts:64-67 | the same, for one surviving tree |
| DocsUtils.RemoveFromTreeConcat | src/utils/docsUtils.ts:61-68 | removing from two forests side by side is removing from each |
| DocsUtils.RemoveUndoesAdd | src/utils/docsUtils.ts:28-68 | removing the slug of a freshly inserted item undoes the insertion under parents that were folders already |
| DocsUtils.RemoveUndoesAddAt | src/utils/docsUtils.ts:29-67 | the same, for one tree |
| DocsUtils.NavWithout | src/utils/docsUtils.ts:55-75 | the tab-by-tab removal that `DocsUtils.RemoveFromNavigationTree` is proved equal to; `DocsUtils.NavWithoutHasNoSlug` states its effect |
| DocsUtils.NavWithoutTabwise | src/utils/docsUtils.ts:70-72 | the removal result is decided tab by tab |
| DocsUtils.NavWithoutHasNoSlug | src/utils/docsUtils.ts:55-75 | afterwards the set of tabs is the same and no tab carries the slug at any depth |
| DocsUtils.RemoveFromNavigationTree | src/utils/docsUtils.ts:55-75 | the loop over the tabs returns exactly the tab-by-tab removal |
| DocsActions.MergeUpdate | src/hooks/useDocsActions.ts:15-22 | the content is always replaced; the title only by a given non-empty one; slug and tab come from the old record, or are missing without one |
| DocsActions.UpdateOfMissingIsPartial | src/hooks/useDocsActions.ts:17-21 | updating a slug with no record yields a record with only the content and, when given and non-empty, the title |
| DocsActions.NewPageContent | src/hooks/useDocsActions.ts:33 | a new page's body starts with `<h1>` + title + `</h1>` |
| DocsActions.NewNavItem | src/hooks/useDocsActions.ts:43-47 | the item carries the title and slug; it has `children` exactly for a folder, and then they are empty |
| DocsActions.DocsStore.constructor | src/hooks/useDocsActions.ts:6-13 | the store holds the given records, navigation and active page |
| DocsActions.DocsStore.SetActivePage | src/types/docs.ts:22 | sets only the active page |
| DocsActions.DocsStore.UpdatePageContent | src/hooks/useDocsActions.ts:14-23 | only the updated slug's record changes, to the merge of the old record with the new content and title |
| DocsActions.DocsStore.CreateNewPage | src/hooks/useDocsActions.ts:25-52 | returns the unique slug; a page gains its record and a folder none; the item is inserted into the tab; the active page is kept |
| DocsActions.DocsStore.DeletePage | src/hooks/useDocsActions.ts:54-68 | the record and every node carrying the slug go; the active page becomes `intro` exactly when it was the deleted slug |
| DocsActions.DeleteUndoesCreate | src/hooks/useDocsActions.ts:25-68 | deleting a freshly created page or folder restores the records and the navigation, when its tab existed and its parent was a folder |
| DocsActions.RemoveUndoesPut | src/hooks/useDocsActions.ts:36-39 | removing a newly added record restores the records |
| DocsActions.RemoveAfterAddInTab | src/hooks/useDocsActions.ts:49-62 | tab by tab, removing the new slug after its insertion gives the tab back |
| DocsActions.RemoveUndoesInsert | src/utils/docsUtils.ts:26-68 | removing the new slug undoes its insertion, at the root or under folder parents |
| Search.SearchableItems | src/hooks/useSearch.ts:27-51 | the searchable items in enumeration order, one per page with content; `Search.SearchableItemsFollowIndexedKeys` and `Search.SearchableItemsShape` state it |
| Search.ItemFor | src/hooks/useSearch.ts:33-46 | the item keeps the page's title, slug and tab, holds the stripped content and the active version, and has path `/tab/slug` |
| Search.IndexedKeys | src/hooks/useSearch.ts:30-31 | exactly the pages with non-empty content are indexed, in enumeration order |
| Search.IndexedKeysNoDuplicates | src/hooks/useSearch.ts:30-31 | filtering a duplicate-free key list keeps it duplicate-free |
| Search.IndexedKeysOfEnumeration | src/hooks/useSearch.ts:27-51 | when the keys list every page once, as `Object.values` does, the indexed keys are exactly the pages with content, each once, and there is one searchable item per such page |
| Search.SearchableItemsFollowIndexedKeys | src/hooks/useSearch.ts:27-51 | the i-th searchable item is built from the i-th page with content |
| Search.SearchableItemsShape | src/hooks/useSearch.ts:37-45 | every item carries the active version and a `/tab/slug` path |
| Search.NoContentNoItems | src/hooks/useSearch.ts:31 | pages without content are never indexed |
| Search.BuildSearchableItems | src/hooks/useSearch.ts:27-51 | the push loop over `Object.values` builds exactly the searchable item list (proved with a loop invariant) |
| Search.FirstContentMatch | src/hooks/useSearch.ts:72 | returns the first match keyed `content`: it occurs at some index and no earlier match is keyed `content`; none when no match is |
| Search.CreateSnippet | src/hooks/useSearch.ts:70-91 | the snippet of one result; `Search.SnippetAroundMatch` and `Search.SnippetWithoutContentMatch` state both branches |
| Search.SnippetAroundMatch | src/hooks/useSearch.ts:74-85 | the snippet is `content[max(s-40,0)..min(e+40,len))`, with `...` before exactly when it starts later than 0 and after exactly when it ends before the length |
| Search.SnippetContainsMatch | src/hooks/useSearch.ts:74-85 | the matched range `content[s..e]` appears whole in the snippet at the stated offset, and the snippet is at most 86 characters longer than the match |
| Search.SnippetAtContainsMatch | src/hooks/useSearch.ts:76-85 | the same, for the window cut around `[s, e]` |
| Search.CutContainsMatch | src/hooks/useSearch.ts:79-83 | a range inside the cut appears in the marked snippet after the prefix |
| Search.SnippetWithoutContentMatch | src/hooks/useSearch.ts:89 | without a content match, the snippet is the first 120 characters, plus `...` exactly when the content is longer |
| Search.Rejected | src/hooks/useSearch.ts:94 | the guard: a blank query or one shorter than two characters; `Search.ShortOrBlankQueryFindsNothing` states its effect |
| Search.ToResults | src/hooks/useSearch.ts:103-112 | one result per ranked entry, in the ranking's order |
| Search.SearchResults | src/hooks/useSearch.ts:93-121 | empty for a blank or one-character query; otherwise the first `min(n, 10)` ranked entries, in order, with their snippets |
| Search.ShortOrBlankQueryFindsNothing | src/hooks/useSearch.ts:94-96 | a whitespace-only or one-character query returns `[]` |
| Search.SearchHook.constructor | src/hooks/useSearch.ts:23-24 | the query starts empty and no search is running |
| Search.SearchHook.Search | src/hooks/useSearch.ts:93-121 | returns the shaped results of the ranking for the query; `isSearching` is false again after any search past the guard |
| PageCreation.DeriveFileName | src/components/PageCreationModal.tsx:49-55 | the five-step chain; `PageCreation.DerivedNameWellFormed`, `PageCreation.FixedIffWellFormed` and `PageCreation.DeriveIdempotent` state its properties |
| PageCreation.StripOuterDash | src/components/PageCreationModal.tsx:55 | stripping the outer dashes never lengthens the name |
| PageCreation.StripOuterDashShape | src/components/PageCreationModal.tsx:55 | stripped, a name without `--` has no outer dash, still no `--`, and only characters of the input |
| PageCreation.DerivedNameWellFormed | src/components/PageCreationModal.tsx:49-55 | a derived file name holds only `[a-z0-9_-]`, has no `--`, and no dash at either end |
| PageCreation.WellFormedNameIsFixed | src/components/PageCreationModal.tsx:49-55 | a well-formed name goes through the derivation unchanged |
| PageCreation.OutsideArabicBlockAll | src/components/PageCreationModal.tsx:51 | the Persian-removal step finds nothing in a `[a-z0-9_-]` name |
| PageCreation.SlugCharsHaveNoSpace | src/components/PageCreationModal.tsx:52 | the whitespace step finds nothing in a `[a-z0-9_-]` name |
| PageCreation.SlugCharsAreKept | src/components/PageCreationModal.tsx:53 | the `[^\w\-]` step finds nothing in a `[a-z0-9_-]` name |
| PageCreation.FixedIffWellFormed | src/components/PageCreationModal.tsx:49-55 | the names the derivation leaves unchanged are exactly the well-formed ones |
| PageCreation.DeriveIdempotent | src/components/PageCreationModal.tsx:49-55 | deriving a name from a derived name gives it back |
| PageCreation.PersianTitleDerivesEmptyName | src/components/PageCreationModal.tsx:49-55 | a title written only in Persian derives the empty name |
| PageCreation.IsFormValid | src/components/PageCreationModal.tsx:65 | the enabling rule of the create button; `PageCreation.FormValidIff` states it |
| PageCreation.FormValidIff | src/components/PageCreationModal.tsx:65 | the form is valid exactly when the title has a non-space character and a page also has a file name with one |
| PageCreation.ParentFor | src/components/PageCreationModal.tsx:24 | "no-parent" maps to no parent; any other selection is passed on unchanged |
| PageCreation.InitialSelection | src/components/PageCreationModal.tsx:19 | the initial selection: the given parent, or "no-parent"; `PageCreation.InitialSelectionRoundTrip` states what it maps back to |
| PageCreation.InitialSelectionRoundTrip | src/components/PageCreationModal.tsx:19-24 | opened under a folder the dialog passes that folder on; opened without one it passes none |
| PageCreation.FolderCandidates | src/components/PageCreationModal.tsx:61-63 | the candidates are exactly the roots with a `children` array and a slug other than `parentSlug` |
| PageCreation.AvailableParents | src/components/PageCreationModal.tsx:61-63 | the candidate parents; `PageCreation.AvailableParentsIff` states them |
| PageCreation.AvailableParentsIff | src/components/PageCreationModal.tsx:61-63 | candidate parents are exactly the root-level folders of the active tab other than `parentSlug`; an unknown tab offers none |
| PageCreation.CandidatesConcat | src/components/PageCreationModal.tsx:61-63 | the filter keeps the tab's order |
| PageCreation.PageForm.constructor | src/components/PageCreationModal.tsx:16-19 | an empty page form whose selection is the given parent or "no-parent" |
| PageCreation.PageForm.HandleTitleChange | src/components/PageCreationModal.tsx:46-58 | sets the title, and derives the file name from it only while the file name is empty |
| PageCreation.PageForm.SetFileName | src/components/PageCreationModal.tsx:92 | sets only the file name |
| PageCreation.PageForm.SetPageType | src/components/PageCreationModal.tsx:105 | sets only the type |
| PageCreation.PageForm.SetSelectedParent | src/components/PageCreationModal.tsx:119 | sets only the selected parent |
| PageCreation.PageForm.HandleCreate | src/components/PageCreationModal.tsx:22-35 | creates exactly when the form is valid; otherwise form and store are unchanged; when it creates, the store gains the page or folder under the mapped parent, a page becomes active, and the form is reset |
| PageCreation.PageForm.Submit | src/components/PageCreationModal.tsx:24-32 | the valid branch: create under the mapped parent, activate a page, reset the form |
| VersionManager.CheckNewName | src/components/VersionManager.tsx:46-63 | the add guard; `VersionManager.CheckNewNameIff` states it |
| VersionManager.CheckRename | src/components/VersionManager.tsx:71-88 | the rename guard; `VersionManager.CheckRenameIff` states it |
| VersionManager.DeleteDisabled | src/components/VersionManager.tsx:173 | the disabled rule of a delete button; `VersionManager.DeleteEnabledIffOtherVersion` states it |
| VersionManager.CheckNewNameIff | src/components/VersionManager.tsx:46-63 | adding is accepted exactly when the name has a non-space character and its trimmed form is new; blank names are refused as empty; the name passed on is trimmed |
| VersionManager.AddKeepsVersionsDistinct | src/components/VersionManager.tsx:55-63 | an accepted name keeps the version list free of duplicates |
| VersionManager.CheckRenameIff | src/components/VersionManager.tsx:71-88 | renaming is accepted exactly when the name has a non-space character and its trimmed form is new or the edited version's own name |
| VersionManager.RenameToSelfAllowed | src/components/VersionManager.tsx:80-88 | renaming a version to its own name is accepted and reaches `updateVersion` |
| VersionManager.RenameIsAddWithoutSelf | src/components/VersionManager.tsx:46-88 | the rename guard is the add guard over the list without the edited version |
| VersionManager.DeleteEnabledIffOtherVersion | src/components/VersionManager.tsx:173 | a delete button is enabled exactly when some other version exists |
| VersionManager.VersionDialog.constructor | src/components/VersionManager.tsx:38-44 | all names empty, all dialogs closed, no store calls |
| VersionManager.VersionDialog.SetNewVersionName | src/components/VersionManager.tsx:141 | sets only the new-version input |
| VersionManager.VersionDialog.SetEditVersionName | src/components/VersionManager.tsx:201 | sets only the rename input |
| VersionManager.VersionDialog.HandleAddVersion | src/components/VersionManager.tsx:46-69 | a refused name changes nothing; an accepted one calls `addVersion` with the trimmed name, clears the input and closes the dialog |
| VersionManager.VersionDialog.OpenEditDialog | src/components/VersionManager.tsx:106-110 | the rename input starts as the edited version's name and the dialog opens |
| VersionManager.VersionDialog.HandleEditVersion | src/components/VersionManager.tsx:71-95 | a refused name changes nothing; an accepted one calls `updateVersion(old, trimmed)`, closes the dialog and clears both names |
| VersionManager.VersionDialog.OpenDeleteDialog | src/components/VersionManager.tsx:112-115 | remembers the version and opens the dialog |
| VersionManager.VersionDialog.HandleDeleteVersion | src/components/VersionManager.tsx:97-104 | with no guard, calls `deleteVersion` with the remembered version, closes the dialog and forgets the version |
| MarkdownRenderer.ProcessedContent | src/components/MarkdownRenderer.tsx:9-19 | empty stays empty; content with both `<` and `>` is returned as it is; otherwise every line break becomes `<br>` |
| MarkdownRenderer.BreakLines | src/components/MarkdownRenderer.tsx:18 | `replace(/\n/g, '<br>')`; the `BreakLines…` lemmas below state its properties |
| MarkdownRenderer.BreakLinesLength | src/components/MarkdownRenderer.tsx:18 | the output is the input length plus 3 per line break |
| MarkdownRenderer.BreakLinesRemovesNewlines | src/components/MarkdownRenderer.tsx:18 | no line break survives |
| MarkdownRenderer.BreakLinesWithoutNewline | src/components/MarkdownRenderer.tsx:18 | text without a line break is returned unchanged |
| MarkdownRenderer.BreakLinesHead | src/components/MarkdownRenderer.tsx:18 | the result starts with `<` for a line break and with the character itself otherwise |
| MarkdownRenderer.BreakLinesRoundTrip | src/components/MarkdownRenderer.tsx:18 | on text without `>`, turning `<br>` back into line breaks gives the text back |
| MarkdownRenderer.NoTagAfterB | src/components/MarkdownRenderer.tsx:18 | text without `>` never turns into something starting `br>` |
| MarkdownRenderer.BreakLinesWithoutLt | src/components/MarkdownRenderer.tsx:18 | on text without `<`, turning `<br>` back into line breaks gives the text back |
| MarkdownRenderer.ProcessedHasNoNewlineUnlessHtml | src/components/MarkdownRenderer.tsx:9-19 | whatever does not look like HTML comes out with no line break |
| MarkdownRenderer.ProcessedPlainRoundTrip | src/components/MarkdownRenderer.tsx:9-19 | plain text that reaches the replacement can always be read back |

## Left out

- Logging: the `console.log` and `console.error` calls, toasts, `onClose`, `handleKeyDown` and the dialogs' open and close wiring beyond the state flags shown.
- Fuse.js ranking and `remove-markdown` are not modelled; they are parameters: a ranking function from query to results, and a `string -> string` stripper. `Search.SearchHook.Search` takes the ranking function as an argument.
- `search`'s `catch` branch, which returns `[]` on an exception from Fuse, is left out: the modelled ranking function cannot throw.
- `Date.now()` is a `now: nat` parameter of `createUniqueSlug`, `createNewPage` and `handleCreate`.
- The enumeration order of `Object.values(pageContents)` is a key sequence parameter.
- The bundled Persian default documents and the fixed Persian paragraphs of a new page are stand-in constant strings. Only their non-emptiness and the `<h1>` heading are relied on.
- The store's `addVersion`, `updateVersion` and `deleteVersion` are defined by the docs context, which this model does not cover; the dialog records the calls it makes to them, in order.
- Characters are Unicode scalar values, while JavaScript strings are sequences of UTF-16 code units. The model agrees with the source only on text inside the Basic Multilingual Plane. Outside it, a character counts twice in JavaScript, which affects the query length check (src/hooks/useSearch.ts:94), the 40-character window and `slice` of `createSnippet`, the Fuse.js match indices, and the 120-character preview.
- `toLowerCase` lower-cases ASCII only, and `\w` is ASCII `[A-Za-z0-9_]`.
- `$` substitution patterns of `String.prototype.replace` are modelled where the replacement is not a constant: the rebased path of the version copy and rename. Every other `replace` call has a constant replacement without `$`.
- FileManagerLemmas.RebaseRoundTrip: stated only for version names without `$`; with `$$`, `$&`, `` $` `` or `$'` in a name the rebased path is not `docs/<to>/` plus the rest, as `FileManagerLemmas.RebaseCollapsesDollarPair` and `FileManagerLemmas.RebaseInsertsMatch` show.
- FileManagerLemmas.RebaseSameVersion: stated only for a version name without `$`, for the same reason.
- FileManagerLemmas.CopyAllAt, FileManagerLemmas.CopyToSelfAt, FileManagerLemmas.RenameAllAt and FileManagerLemmas.RenameSelfAt: stated only for version names without `$`, for the same reason.
- FileManagerLemmas.CopyDuplicatesEachFile: stated only for version names without `$`; with one, the copy lands at the expanded path, which `FileManager.MdFileStore.CopyVersionFiles` still describes.
- FileManagerLemmas.CopyToSelfIsIdentity: stated only for a version name without `$`; `copyVersionFiles(v, v)` with `$&` in `v` writes new files.
- FileManagerLemmas.RenameMovesNonEmptyFiles: stated only for version names without `$`; the file then moves to the expanded path.
- FileManagerLemmas.RenameToSelfDeletesFiles: stated only for a version name without `$`; with one, the files move instead of being deleted.
- Default arguments are not modelled: callers pass every argument explicitly, including `version = 'v1'` of `initializeDefaultFiles` (src/utils/fileManager.ts:85) and `type = "page"` of `createNewPage` (src/hooks/useDocsActions.ts:25).
- The `mdFiles` store is one object here, rather than module-level state shared by every importer.
- FileManagerLemmas.CopyVersionFilesSpec: the pointwise description is stated only for version names without `$` and when neither version prefix extends the other (version names without `/`); with overlapping prefixes the loop's outcome depends on the key order, which only `FileManager.MdFileStore.CopyVersionFiles` captures.
- FileManagerLemmas.RenameVersionFilesSpec: stated only for version names without `$` and non-overlapping version prefixes, for the same reasons.
- DocsActions.DeleteUndoesCreate: stated only when the tab already existed and every parent node was a folder. Otherwise the tab's new empty list, or a leaf parent's new `children`, remain.
- DocsUtils.AddPlacesItem: with a parent slug it states that the item is placed, not how many copies; each matching node gets one, which `DocsUtils.AddCountsSlugs` counts.
- PageCreation.PageForm.HandleCreate: `onClose()` is not modelled.
