# publish-to-notion, modelled in Dafny

`publish-to-notion` is a GitHub Action that publishes a directory of markdown
files into a Notion database. It is a one-way sync. One run does the following:

1. It lists every `.md` file under the markdown root.
2. It loads each file:
   - it splits off the YAML front matter;
   - it converts the body to Notion blocks;
   - it folds newlines in paragraph text into spaces;
   - it rewrites every linked text run into a literal `[text](url)` in code style.
3. It searches the workspace and indexes the pages found by the path they were
   published from.
4. It plans three sets of work:
   - pages to **update**: local files whose page exists;
   - pages to **create**: local files with no page yet;
   - pages to **archive**: pages in the sync root whose file is gone.
5. It runs the three phases in that order. An update always writes the
   properties. Only when the properties changed does it replace the page's
   content: it pages through the child blocks, deletes each one and appends
   the new blocks.

The model covers all of `src/main.ts` except the plumbing named under
"Left out". It has one module per piece:

| module | file | what it models |
|---|---|---|
| `Wrappers` | `wrappers.dfy` | `Option` and `Result` |
| `Strings` | `strings.dfy` | the JavaScript string operations the code uses |
| `Assoc` | `assoc.dfy` | JavaScript objects, as ordered key/value lists |
| `Js` | `js.dfy` | JSON-like values, truthiness, template-literal printing, the exceptions `run` can throw |
| `Files` | `files.dfy` | `mdFiles`, over an abstract directory tree |
| `TreeWalk` | `walk.dfy` | `walkWith` |
| `FrontMatter` | `front_matter.dfy` | the front-matter split |
| `Normalize` | `normalize.dfy` | newline folding, `replaceLink`, and the link walk |
| `Properties` | `properties.dfy` | `mkProps` |
| `Loader` | `loader.dfy` | the `forEach` that fills `wikiPages` |
| `Remote` | `remote.dfy` | search results and paginated batches |
| `Reconcile` | `plan.dfy` | the index and the update/create/delete planning loops |
| `NotionStore` | `store.dfy` | an in-memory Notion workspace (class `Store`) |
| `Sync` | `sync.dfy` | the executor, the search, and `run` itself |
| `Rerun` | `rerun.dfy` | a second run straight after a successful one |

`NotionStore.Store` is a class. Its fields are:
- `pages`: page id to page;
- `children`: page id to child blocks;
- `order`: the creation order;
- a ghost `log` of every request made.

Its methods are the endpoints the tool calls. Each one fails only on the
following requests:
- `Update` (set properties) and `Append` (append blocks) reject an unknown or
  an archived page.
- `Archive` rejects an unknown page.
- `List` (list child blocks) rejects an unknown page or a cursor past the end.
  It accepts archived pages.
- `Delete` (delete a block) rejects an unknown block.
- `SearchPages` rejects a cursor past the end.
- `Create` always succeeds.

The executor methods in `Sync` are proved against this class.
`Sync.Run` then shows the following:
- If a file fails to load, the run throws that file's exception before any
  request is sent.
- Otherwise every request succeeds.
- Every request comes in phase order.
- The workspace ends up as the plan requires (`Sync.Synced`).

`Rerun` shows that the sync settles. A second run straight after a successful
one, with the same local pages, plans no creation and no archive. Every page it
updates already holds the properties it would send, so the second run leaves
every existing page and its content as they were. This needs two conditions:
- each local page's `URL` links back to its own file (`Rerun.LinksBack`,
  implied by `Rerun.PathOnly`);
- no two pages found by the first search are filed under the same key
  (`Rerun.KeysDistinct`).

The search as written reads only the first batch of results (see
"Findings"). `Sync.Run`, `Sync.SyncPages` and `Sync.SearchAndPlan` use the
corrected search, `Sync.SearchAll`, which follows the cursors.
`Sync.RunFirstBatch`, `Sync.SyncPagesFirstBatch` and
`Sync.SearchAndPlanFirstBatch` are the same operations with the search as
written. They plan against the first batch only.

Two behaviours of the code are easy to misread. The model follows the code:
- The update phase compares the properties the search returned with the
  properties the update request returns, which are the merged ones. It does
  not compare them with the freshly built properties.
- A front-matter block whose closing `---` comes right after the opening one
  is rejected. The index of the closing line is 0, which is falsy, so the
  code treats it as not found.

## Model

| member | source | states |
|---|---|---|
| Files.MdFiles | src/main.ts:11-23 | every path listed ends in `.md` |
| Files.MdFilesAreMdOnly | src/main.ts:11-23 | `mdFiles` lists exactly the files of the whole tree whose path ends in `.md`, in listing order, with each subdirectory expanded where it is listed (reference: all files, filtered) |
| Files.JoinedSuffix | src/main.ts:16-17 | a joined path ends in `.md` exactly when the entry name does |
| TreeWalk.WalkVisits | src/main.ts:27-41 | the walk hands the callback the root first, visits nothing after the first node whose callback did not return true, and ends as that last visit ended (true, false or thrown) |
| TreeWalk.WalkTrueIff | src/main.ts:27-41 | `walkWith` returns true exactly when the callback returned true on every node it visited |
| TreeWalk.ReadOnlyWalk | src/main.ts:27-41 | with a callback that only inspects: the tree is unchanged; the result is whether the callback holds on every node; the visited nodes are the preorder up to and including the first failure |
| TreeWalk.AlwaysTrueVisitsAll | src/main.ts:27-41 | with a callback that returns true and leaves every node as it is, the walk returns true, the tree is unchanged, and every field and element at every depth is visited, parents before children |
| TreeWalk.AlwaysTrueWalk | src/main.ts:27-41 | with any callback that always returns true (and may rewrite the node it is given): the walk returns true, it visits the root first, and the visited nodes correspond one to one, in order, with the nodes of the returned tree, each returned node being what the walk made of the node visited there |
| FrontMatter.FirstDelimiter | src/main.ts:109-115 | the index found is the first `---` line; none means no `---` line |
| FrontMatter.SplitFrontMatter | src/main.ts:105-124 | a file whose line 0 is not `---` is all body; the only failure is "failed to find frontmatter end"; front matter is found only after an opening `---` |
| FrontMatter.ReadFrontMatter | src/main.ts:105-124 | the scan loop with `break` computes exactly the split |
| FrontMatter.HeaderRoundTrip | src/main.ts:105-123 | for front-matter text with no `---` line, `---`, the text, `---` and a body split back into that text and that body |
| FrontMatter.HeaderShape | src/main.ts:105-123 | every accepted split is of that shape: the file is `---`, the front matter (no `---` line in it), `---`, then the body |
| FrontMatter.EmptyHeaderRejected | src/main.ts:117-119 | a closing `---` right after the opening one fails like a missing one |
| FrontMatter.UnclosedRejected | src/main.ts:109-119 | with no closing `---` the split fails |
| Loader.WithPath | src/main.ts:141 | `frontMatter.path = file` succeeds exactly on objects and arrays; `path` then reads as the file; other keys are kept; on anything else it throws a TypeError |
| Loader.LoadDocument | src/main.ts:102-170 | a failed split is the file's exception; a YAML parse that throws is a YAML error; a parsed value that is not an object or array is a TypeError; otherwise the document loads exactly when every block normalises; a loaded document's front matter is what the parser returned (`{}` without front matter) with `path` set to the file; its content is the normalised blocks of the body, with no link left |
| Loader.LoadAll | src/main.ts:102-171 | the `forEach` over the files computes `LoadPages` (the page map, or the first exception) |
| Loader.LoadPagesOk | src/main.ts:102-171 | loading succeeds exactly when every file loads |
| Loader.LoadPagesStops | src/main.ts:102-171 | after the first exception, later files change nothing |
| Loader.LoadPagesContents | src/main.ts:143-170 | the page map has one entry per file (distinct keys), each holding that file's document, and nothing else |
| Normalize.FoldRun | src/main.ts:148-153 | a text run gets every newline of its content replaced by a space, same length, no newline left, nothing else changed; other runs are returned as they are; it throws exactly on a null run or a text run without string content |
| Normalize.FoldRuns | src/main.ts:148-153 | the `map` succeeds exactly when every run folds, and gives each run's fold in place |
| Normalize.FoldParagraph | src/main.ts:147-154 | a non-paragraph block is unchanged (null throws); a paragraph succeeds exactly when it has a `rich_text` array whose runs all fold, and then holds the folded runs, nothing else changed |
| Normalize.FoldParagraphIdempotent | src/main.ts:147-154 | folding a folded paragraph changes nothing |
| Normalize.FoldRunIdempotent | src/main.ts:149-151 | folding a folded run changes nothing |
| Normalize.CodeStyled | src/main.ts:132-136 | falsy annotations become `{code: true}`; object annotations get `code = true` with the other flags kept; a truthy primitive throws |
| Normalize.ReplaceLink | src/main.ts:128-139 | it throws exactly when `text` is missing, null or a string, or when a linked run's annotations are a truthy primitive; a run without a link is unchanged; a linked run gets the literal link as content, a cleared link and code style; keys other than `text` and `annotations` are untouched |
| Normalize.ReplaceLinkRewrites | src/main.ts:130-137 | on a linked run: the content becomes `[old content](url)`, the link reads as falsy, `annotations.code` is true and every other annotation flag is kept |
| Normalize.ReplaceLinkIdempotent | src/main.ts:128-139 | applying `replaceLink` twice gives what applying it once gives |
| Normalize.LinkedRunChanges | src/main.ts:130-137 | `replaceLink` always changes a run that has a link |
| Normalize.LinkCallbackShrinks | src/main.ts:157-167 | the walk callback never deepens a node, so the walk terminates |
| Normalize.CallbackSettles | src/main.ts:157-167 | whenever the callback returns, it returns true, and the node it returns is one it would leave alone on a second call |
| Normalize.WalkSettles | src/main.ts:157-167 | when the link walk returns, it returns true, and the callback would leave every node of the walked tree alone |
| Normalize.SettledNoLinks | src/main.ts:157-167 | such a tree has no text run with a link left |
| Normalize.SettledWalkIdentity | src/main.ts:157-167 | on such a tree the walk returns true and changes nothing |
| Normalize.LinkWalkIdempotent | src/main.ts:157-167 | walking the walked tree again changes nothing |
| Normalize.Literal | src/main.ts:128-139 | a structural rewrite defined without the walk: each text run gets `replaceLink`, recursing into the result; every object and array is rebuilt from its rewritten members; primitives are kept; the kind of every value is kept; the only failure is a TypeError |
| Normalize.WalkIsLiteral | src/main.ts:157-167 | the link walk returns true exactly when `Literal` succeeds, its tree is the `Literal` rewrite, and it throws `Literal`'s exception otherwise |
| Normalize.NormalizeBlock | src/main.ts:145-169 | a normalised block is the `Literal` rewrite of the folded block and has no link left in any text run; a failed fold is the block's exception |
| Normalize.NormalizeBlocks | src/main.ts:145-169 | the `map` succeeds exactly when every block normalises, and gives each block's result in place |
| Properties.Label | src/main.ts:48-53 | a column is never named `Path`; it is `URL` exactly when `titleize` gives `Path` or `URL` |
| Properties.MkProps | src/main.ts:44-86 | the `for..in` loop and the `Title` fallback compute `PropertiesOf` |
| Properties.FillLookup | src/main.ts:46-72 | after the loop, each column holds what the last key written to it produced |
| Properties.PropertiesLookup | src/main.ts:46-83 | each column of `mkProps` holds what its last key produced; `Title`, when no key produced it, holds the title made from `path`; there is no other column and never a `Path` column |
| Properties.PropertiesTitle | src/main.ts:74-83 | there is always a `Title` column holding a title; the column names are distinct |
| Properties.PathBecomesUrl | src/main.ts:49-52 | a key labelled `Path` writes `URL = baseurl + "/" + value` |
| Remote.BatchAt | src/main.ts:252-264 | a batch holds at most the page size of consecutive items; `has_more` holds exactly when items remain, and then `next_cursor` is the position after the batch |
| Remote.PaginateAll | src/main.ts:249-265 | following `next_cursor` until `has_more` is false collects every item, in order |
| Remote.FirstBatchIncomplete | src/main.ts:175 | reading only the first batch loses every item past the page size |
| Reconcile.BuildIndex | src/main.ts:174-182 | the `forEach` computes `Index`: pages only, keyed by URL (or id) with the first `githubURL/` removed |
| Reconcile.IndexLookup | src/main.ts:175-182 | under each key the index holds the last page found with that key, and nothing else; its keys are distinct |
| Reconcile.CreatedPageKey | src/main.ts:178-179 | a page whose `URL` is the link `mkProps` writes for a file is indexed under that file's path |
| Reconcile.PlanSync | src/main.ts:184-201 | the two planning loops compute `PlanOf` |
| Reconcile.PlanLocal | src/main.ts:188-194 | the loop over the local keys fills `updates` and `creates` |
| Reconcile.PlanRemote | src/main.ts:196-201 | the loop over the remote keys fills `deletes` |
| Reconcile.UpdatesLookup | src/main.ts:188-194 | `updates` holds exactly the local keys also found remotely, each with its remote page |
| Reconcile.CreatesLookup | src/main.ts:188-194 | `creates` holds exactly the local keys not found remotely, each with its local document |
| Reconcile.PlanPartition | src/main.ts:188-194 | every local key is planned exactly once, as an update or as a creation; nothing else is planned |
| Reconcile.DeletesSound | src/main.ts:196-201 | a planned deletion names a remote key missing locally, whose page is in the root, under that page's id |
| Reconcile.DeletesComplete | src/main.ts:196-201 | every remote key missing locally whose page is in the root is planned for deletion |
| Reconcile.PlanDeletes | src/main.ts:196-201 | both directions over the whole index: the deletions are exactly the pages missing locally and under the root |
| Reconcile.IndexFrom | src/main.ts:175-182 | every index entry holds a page of the results, filed under that page's key |
| Reconcile.PlanConsistent | src/main.ts:184-201 | from results that agree on every page: each update is a local key with a page from the results; each deletion names a page of the results; no page is both updated and deleted; no page is updated twice |
| NotionStore.MergeFind | src/main.ts:239-242 | after a properties update, a given key reads as given and every other key as before |
| NotionStore.MergeAgain | src/main.ts:239-242 | sending the same properties twice leaves what sending them once left |
| NotionStore.MergeSelf | src/main.ts:239-242 | sending a page its own properties changes nothing |
| NotionStore.ListingHas | src/main.ts:175 | every live page in the order is listed, as the workspace holds it |
| NotionStore.MergeUnchanged | src/main.ts:239-244 | the update leaves the properties as they were exactly when every given entry is already there with that value |
| NotionStore.ListingLive | src/main.ts:175-182 | every search result is a live page in the order, listed as the workspace holds it |
| NotionStore.Store.constructor | src/main.ts:90-92 | an empty workspace with a positive page size |
| NotionStore.Store.Archive | src/main.ts:208-211 | `pages.update({archived: true})` succeeds exactly on a known page and archives it, nothing else changed |
| NotionStore.Store.Create | src/main.ts:219-225 | `pages.create` adds a new live page under the given database with the properties and exactly the given content, at the end of the order |
| NotionStore.Store.Update | src/main.ts:239-242 | `pages.update({properties})` succeeds exactly on a live page, merges the properties and returns the merged ones |
| NotionStore.Store.List | src/main.ts:252-256 | `blocks.children.list` returns the batch at the cursor, and fails on an unknown page or a cursor past the end |
| NotionStore.Store.Delete | src/main.ts:268-270 | `blocks.delete` succeeds exactly on an existing block and removes it |
| NotionStore.Store.Append | src/main.ts:273-276 | `blocks.children.append` succeeds exactly on a live page and appends the blocks |
| NotionStore.Store.SearchPages | src/main.ts:175 | `search` returns the batch of live pages at the cursor |
| Sync.PushAll | src/main.ts:257-259 | pushing a batch appends its results, in order |
| Sync.ListLogCursors | src/main.ts:249-265 | the list request numbered `i` carries the previous response's cursor, `start + i * size`, and the loop ends at the first batch without more |
| Sync.CollectChildren | src/main.ts:249-265 | the pagination loop collects exactly the page's children, in order, with the list requests `ListLog` |
| Sync.DeleteAll | src/main.ts:267-271 | the delete loop removes every collected child, in order, and leaves the page without children; nothing else changes |
| Sync.ReplaceContent | src/main.ts:249-276 | list, delete, append: the page then holds exactly the new content; no other page's blocks change |
| Sync.UpdatePage | src/main.ts:231-277 | succeeds exactly on a live page and merges the properties; the content is replaced exactly when the search snapshot differs from the merged properties, and the requests are then set properties, list, delete and append |
| Sync.ArchivedPages | src/main.ts:206-212 | archiving keeps every page and marks exactly the named ones archived |
| Sync.ArchiveAll | src/main.ts:206-212 | succeeds exactly when every planned deletion names a known page, and then leaves exactly those archived; only archived flags change, and only on named pages |
| Sync.CreateAll | src/main.ts:215-226 | one new live page under the root per planned creation, in order, holding `mkProps` of its front matter and its local content; the new pages come last in the order; earlier pages are untouched |
| Sync.UpdateAll | src/main.ts:229-278 | succeeds exactly when every planned page is live; only the planned pages change; the order is kept; when no page is planned twice, each holds its merged properties, and its local content exactly when those differ from the search snapshot |
| Sync.SearchAll | src/main.ts:175 | the corrected search follows the cursors and returns every live page, in order |
| Sync.SearchFirstBatch | src/main.ts:175 | the search as written returns only the first batch |
| Sync.FirstBatchRecreates | src/main.ts:175-194 | with only the first batch read, a local file whose page is listed after that batch is planned as a creation, which makes a duplicate page; with the full listing it is planned as an update |
| Sync.Execute | src/main.ts:205-278 | archive, create, update in that order, in phase order in the log; the only failure is an API error, and none happens when the plan fits the workspace; on success the plan is carried out and the created pages come last in the order; pages not named by the plan keep their properties, content and parent; archived pages stay archived |
| Sync.ListingAgrees | src/main.ts:175-182 | results drawn from a listing of the workspace agree on every page: two results with one id are the same |
| Sync.PlanFits | src/main.ts:184-201 | a plan made against results drawn from a listing (the full listing or its first batch) fits the workspace: its pages exist, none it updates is archived or planned for deletion, and none is updated twice |
| Sync.SearchAndPlanFirstBatch | src/main.ts:173-201 | as written: search, index and plan compute the plan of the first batch of the listing, with only one search request sent |
| Sync.FirstBatchFits | src/main.ts:175 | the first batch is drawn from the listing, so the plan made against it fits the workspace |
| Sync.SyncPagesFirstBatch | src/main.ts:173-278 | as written: after loading, the sync always succeeds and leaves the workspace `Synced` with the plan of the first batch; the new pages come last in the order; the requests are in phase order |
| Sync.RunFirstBatch | src/main.ts:88-283 | as written: a file that fails to load ends the run with its exception and no request sent; otherwise the run succeeds and the workspace is synced with the loaded pages, planned against the first batch only |
| Sync.SearchAndPlan | src/main.ts:173-201 | corrected search: search, index and plan compute the plan of the full listing, with only search requests sent |
| Sync.SyncPages | src/main.ts:173-278 | corrected search: after loading, the sync always succeeds and leaves the workspace `Synced` with the plan of the full listing; the new pages come last in the order; the requests are in phase order |
| Sync.Run | src/main.ts:88-283 | corrected search: a file that fails to load ends the run with its exception and no request sent; otherwise the run succeeds and the workspace is synced with the loaded pages, planned against the full listing |
| Rerun.PathOnlyLinksBack | src/main.ts:49-52 | a front matter holding `path: file` as its only key titleized to `Path` or `URL` builds a `URL` linking to the file |
| Rerun.LinksBackWhen | src/main.ts:141 | local pages whose front matter holds only their own path as a link all link back to their files |
| Rerun.CreatesFrom | src/main.ts:188-194 | every planned creation pairs a local key with that key's document |
| Rerun.CreatesNone | src/main.ts:188-194 | nothing is planned for creation when every local key is already indexed |
| Rerun.DeletesNone | src/main.ts:196-201 | nothing is planned for archiving when every indexed page is local or outside the root |
| Rerun.ListedIndexed | src/main.ts:175-182 | every page among the results is indexed under its key |
| Rerun.DistinctIndexed | src/main.ts:175-182 | when no two results share a key, each page is the one indexed under its key |
| Rerun.StampedSettled | src/main.ts:178-179 | a page whose properties were last set from local page `k` is filed under `k`, and setting them again changes nothing |
| Rerun.CreatedSettled | src/main.ts:215-226 | each page the first run created is found by the second search, filed under the key it was created for |
| Rerun.UpdatedPage | src/main.ts:229-242 | each page the first run updated was live and listed before, stays live, and holds its merged properties |
| Rerun.UpdatedSettled | src/main.ts:229-242 | each page the first run updated is found by the second search, filed under the key it was updated from |
| Rerun.UntouchedLocal | src/main.ts:188-194 | a live earlier page filed under a local key is one the first run updated, when no two pages share a key |
| Rerun.UntouchedArchived | src/main.ts:196-212 | a live earlier page filed under a key missing locally and in the root was archived by the first run |
| Rerun.ListedSettled | src/main.ts:175-201 | every page the second search finds is either filed under a local key and already holds that key's properties, or filed under another key and outside the root |
| Rerun.LocalIndexed | src/main.ts:175-194 | after the first run, every local page is indexed by the second search |
| Rerun.SecondRunSettled | src/main.ts:173-244 | the plan of a second run plans no creation and no archive, and each update it plans sends properties the page already holds |
| Rerun.UpdateListed | src/main.ts:175-194 | a page a plan updates is listed as the workspace holds it |
| Rerun.QuietPageKept | src/main.ts:205-278 | carrying out a plan with no creation, no archive and only updates that change no property leaves every existing page and its content as it was |
| Rerun.SecondRunKeeps | src/main.ts:88-283 | the second run creates no page, and leaves every existing page, and every page's content, exactly as the first run left them |
| Strings.JoinSplit | src/main.ts:105-123 | joining the pieces of a `split` gives back the text |
| Strings.SplitJoin | src/main.ts:105-123 | splitting a join of separator-free pieces gives back the pieces |
| Strings.ReplaceChar | src/main.ts:150 | `replace(/\n/g, ' ')` replaces every newline, position by position |
| Strings.RemoveChar | src/main.ts:198 | `replace(/-/g, '')` leaves no dash, never lengthens the text, and leaves a text without dashes unchanged |
| Strings.RemoveCharAppend | src/main.ts:198 | removing dashes from a concatenation removes them from each part |
| Strings.RemoveCharFilter | src/main.ts:198 | removing dashes keeps every other character, in order: at each position, the result is the result on the text before it, then that character unless it is a dash, then the result on the text after it |
| Strings.IndexOf | src/main.ts:179 | the first occurrence at or after the start, or none |
| Strings.RemoveFirstPrefix | src/main.ts:179 | removing a pattern from a string that starts with it leaves the rest |
| Assoc.Put | src/main.ts:143 | `obj[k] = v`: `k` reads as `v`, every other key as before |
| Assoc.PutUnique | src/main.ts:143 | writes keep the keys of an object distinct |

## Left out

- The Notion client, authentication, the network and rate limits (src/main.ts:90-92) are not modelled. The workspace is the in-memory `NotionStore.Store`. Its methods reject only the requests listed above. Schema validation, request size limits and transport errors are not modelled.
- Environment variables and action inputs (src/main.ts:94-98) become parameters of `Sync.Run`.
- `console.log` is left out. So are `core.setFailed` and the rethrow in the `catch` (src/main.ts:279-282): `Sync.Run` returns the exception as `Err`.
- `readdirSync` and `lstatSync` are replaced by an abstract directory tree (`Files.DirEntry`). `readFileSync` and UTF-8 decoding are the `read` parameter, and text is a sequence of characters.
- `YAML.parse`, `titleize` and `markdownToBlocks` are foreign code. They are the parameters `parse` (`None` where the parser throws), `titleize` and `toBlocks`.
- `async`/`await`: every request completes before the next one starts, so each is one method call.
- The in-place rewrites of `replaceLink`, the paragraph fold and `frontMatter.path` are modelled on values. `walkWith`'s callback returns the node as it left it, and the walk continues into that node. Aliasing between the rewritten objects is not modelled.
- TreeWalk.Walk is defined only for callbacks that never make a node deeper (`TreeWalk.Shrinking`). The one callback the tool passes is proved to be such (`Normalize.LinkCallbackShrinks`).
- JavaScript enumerates integer-like object keys first, in numeric order. The model enumerates every key in insertion order.
- Numbers are integers only (`Js.Value.Num`). Floating point is left out, and so are functions, symbols and prototype properties, except `String.prototype.link`, which `Normalize.HasLink` accounts for.
- The `JSON.stringify` comparison (src/main.ts:244) is modelled as equality of the ordered property lists. A property value is modelled by its one text (URL, title or rich text), not by Notion's full property objects.
- Sync.Execute: success is promised when the plan fits the workspace (a sufficient condition), not characterised exactly. `Sync.Run` only ever executes plans that fit.
- Sync.Execute: it requires each planned update to name a local file and a page the workspace holds. The code does not check this; every plan `run` makes satisfies it (`Sync.PlanFits`).
- Files.PathJoin: it joins with `dir + "/" + name`. `path.join` also normalises the result, so `join('.', 'a.md')` is `a.md` and `join('docs/', 'a.md')` is `docs/a.md`. This changes the keys of `wikiPages` and the `URL` written for each page (src/main.ts:14,17,51). The model is exact when the markdown root is a plain relative path with no `.`, `..`, trailing `/` or repeated `/`.
- NotionStore.Store.SearchPages: `search({})` lists the live pages in creation order. Notion picks the order itself: with no `sort` given, the most recently edited pages come first. The order decides which pages the first batch holds (see "Findings") and which of several pages sharing a key the index keeps. Every contract is stated over whatever listing the store gives, so no proved property depends on this choice.
- Remote.BatchAt: Notion's cursors are opaque strings and its batch sizes may vary from request to request. The model uses one page size and numbers the positions as cursors. Only the fact that a batch is a run of consecutive items, and that `has_more` and `next_cursor` continue where it stopped, is modelled.
- Rerun.SecondRunSettled: it is proved under two conditions. First, each local page's `URL` must link back to its own file (`Rerun.LinksBack`, implied by `Rerun.PathOnly`). Second, no two pages of the first search may be filed under the same key (`Rerun.KeysDistinct`). Without it, the index keeps only the last of those pages, and the first run acts on that one alone. If their key is missing locally and they are in the root, the first run archives the last of them, and the second run finds and archives the one before it.
- Sync.UpdateAll: the per-page outcome is stated only when no two planned updates name the same page. `Sync.PlanFits` proves that this holds for every plan `run` makes.

## Findings

| source | as written | input that shows it | evidently intended | confidence | as-written member | corrected member |
|---|---|---|---|---|---|---|
| src/main.ts:175 | only the `results` of one `notion.search({})` response are read; `has_more` and `next_cursor` are ignored | a workspace with more pages than one search response holds, where a local file's page is listed after the first batch | follow `next_cursor` until `has_more` is false, as the block listing at src/main.ts:249-265 does, so that every existing page is indexed and updated rather than created again | not executed | Sync.SearchFirstBatch, Sync.FirstBatchRecreates, Sync.SearchAndPlanFirstBatch, Sync.SyncPagesFirstBatch, Sync.RunFirstBatch | Sync.SearchAll, Sync.SearchAndPlan, Sync.SyncPages, Sync.Run |
