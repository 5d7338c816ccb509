# Verified models of the document pipeline

This project models the parts of the document converter whose correctness rests on invariants that no single
function shows, and proves those invariants in Dafny. `dafny verify dfyconfig.toml` checks all of it.

One module stands for one component:

| modules | component |
|---|---|
| `TableGrid`, `TableViews`, `TableLayout`, `TableRepair` | the grid of a table with column and row spans, as three functions compute it and as it lies on the page, and the repair of rows when a table is merged across a page break |
| `TableTags`, `TableSplice`, `TableEdits`, `Sorting` | which texts are tables, a table as source text with row ranges, and writing it back |
| `PageNodes`, `PageComposition`, `PageContents`, `DocumentMerge`, `ParagraphJoins`, `ListJoins` | composing the blocks of a page into nodes, and joining paragraphs and reference lists over a document |
| `RoutePlanner`, `RenderWindow`, `OutputStage`, `RoutePipeline` | cutting pages into byte-bounded windows, rendering them out of order, and staging them in order while the next window is already being worked on |
| `Publication` | the permit handshake before a commit, and the renames with rollback that make it |
| `Otsl`, `OtslReading`, `OtslTiling`, `BraceRepair` | decoding tables from the model's tokens, and repairing braces in equations |
| `BundlePaths`, `ReferenceTokens`, `BundleWriter`, `BundleNames` | the writer of a result bundle: paths, byte accounting and image references |
| `ImageScan`, `ImageRoutes` | looking for images in the resource graph of a PDF |
| `TextPaginator` | setting plain text in a PDF within a byte budget |
| `RasterWorkers` | the registry of image preparation jobs and its drain |

How the models are built:

- Loops and objects that change in place are methods with loops and classes with fields. Each is proved against a
  specification function or predicate, and what the component promises is proved about that.
- Steps that interleave (the handshake, the job registry, renders that finish in any order) are steps of a state
  machine or arbitrary choices, and the claims hold for every run.
- What the operating system, the model server, encoders and geometry decide is a parameter: functions for sizes,
  pictures and boxes, and for failures the step at which they happen. A run of the whole route is in a calm or in a
  rough world: in a calm one no deadline passes, the model answers once about every picture and the file system works,
  so that what remains are the failures the route itself is responsible for.
- Where an operation and the claims about it share a function, a further module says what the function means without
  using it: `TableLayout` for the grid, `OtslReading` for the decoder, `PageContents`, `ParagraphJoins` and `ListJoins`
  for pages, `TableTags` and `TableEdits` for tables as text, `ImageRoutes` for the image scan, `BundleNames` for sizes
  and names.

The models follow the code also where it does less than one might expect:

- A page that cannot be planned is skipped, and only a window of nothing but such pages is an error
  (src/official_route.rs:228-229, 274-278). So a full window that leaves only such pages behind makes the next window
  fail the whole run, where another window size would have skipped them. `RoutePlanner.Blocked` tells from the sizes of
  the pages which documents fail: the last page cannot be planned, and packing the others one by one ends with a full
  window, a page alone in a window, or none. `RoutePlanner.ChainStops` and `RoutePipeline.ParseAndWrite` show that
  planning fails for these and no others, `RoutePlanner.EverySizeGoesThrough` that only a last page that can be planned
  is safe with every window size.
- `TableDocument::parse` does not check where the first `tbody` stands. If it stands inside a row, writing the table
  back slices the text with its ends out of order; `TableSplice.TableRoundTrip` shows that this is the only way it
  fails for a table whose rows can be read, `TableSplice.TbodyMayBeInRow` that it can happen.
- A reference list joins the one before it only if that one has not been joined itself: what is left of a joined list
  is no list (src/official_builders.rs:2048-2050, 3309-3325). So in a run of lists joined and standing ones alternate
  (`DocumentMerge.RunAlternates`); `DocumentMerge.JoinedExactly` tells for any document which lists are joined.
- The blank row of a table is deleted without regard to what the previous page has left occupied
  (src/official_builders.rs:3191-3196). If that page leaves the row and those below it free, the grid is kept
  (`TableRepair.DeletionUnderTail`); otherwise cells can move (`TableRepair.TailMovesFirstCell`).
- Incremental rewriting of image names depends on the order of arrival when a name holds another one as a token behind
  its start (`ReferenceTokens.NestedNamesBreakOrder`), and the aliases do exactly when two files give the same name
  (`BundleWriter.FilesDetermineAliases`, `BundleWriter.FirstAliasStays`). For names of token characters, no two of them
  alike, it does not (`BundleWriter.OrderDoesNotMatter`).
- A text that cannot be read back is passed over in silence (python/mineru_official_worker.py:293-302): the write
  succeeds, and the markdown stays behind until a later write rewrites it.
- A drain that is dropped while it waits loses the jobs it took; the next drain returns while they run
  (`RasterWorkers.DroppedDrainLosesJobs`). `RasterWorkers.DrainReturns` says exactly what may still run.

## Model

| member | source | states |
|---|---|---|
| TableGrid.ScanRows | src/official_builders.rs:2692-2758 | the scan of all rows is the specified one: occupancy, effective and actual columns of each row, total, last non-empty row, and the tail carried to the next page |
| TableLayout.LayoutIsUnique | src/official_builders.rs:2705-2724 | for any spans there is exactly one way to give every cell the first column behind the cell before it that neither the previous page nor a cell of an earlier row fills |
| TableLayout.ScanReports | src/official_builders.rs:2692-2758 | what a scan says is what is seen on that layout: a row is as wide as its last filled column, the table as its furthest cell, a row's own columns are those its cells span, the last row with cells is reported and none if there is none, the tail is what is filled behind the table |
| TableGrid.ScanRow | src/official_builders.rs:2703-2724 | placing the cells of one row gives the specified occupancy and the sum of the colspans |
| TableGrid.NextFree | src/official_builders.rs:2708-2714 | skipping columns ends at the first free one, whichever of the two sets of occupied columns is consulted |
| TableGrid.PlacingTaken | src/official_builders.rs:2707-2724 | a column is occupied after placing cells exactly when it was before or some cell's rectangle covers it, overlapping or not |
| TableGrid.StartIsFirstFree | src/official_builders.rs:2705-2723 | each cell starts at the first column past the previous cell that no earlier row occupies |
| TableGrid.TailWithinTotal | src/official_builders.rs:2723-2757 | what a scan leaves for the next page lies within its column count |
| TableGrid.RunShift | src/official_builders.rs:2692-2758 | two tables that agree from some row on, with occupancy shifted alike, stay alike row by row |
| TableGrid.ScanComposes | src/official_builders.rs:2692-2758 | scanning A and then B from the tail of A is scanning A and B as one table: per-row results concatenated, the larger total, the tail of B, for any spans and any initial occupancy |
| TableViews.OwnedIffTaken | src/official_builders.rs:2833-2882 | the columns that have an owner are exactly the columns the scan marks as occupied |
| TableLayout.ViewReports | src/official_builders.rs:2833-2882 | a column of a row has an owner exactly when it is filled on the layout, and its owner is the last cell that lies over it |
| TableLayout.MappingReports | src/official_builders.rs:2884-2900 | the start columns read off the owners are those of the layout |
| TableViews.VisualSources | src/official_builders.rs:2833-2882 | the map of owners of one row is the specified one, and its column count that of the rows up to it |
| TableViews.OwnerInRow | src/official_builders.rs:2884-2900 | an owner from an earlier row is found exactly at the columns occupied from above that no cell of the row itself covers |
| TableViews.VisualMapping | src/official_builders.rs:2884-2900 | the start columns read off the owners are those the scan gave the cells |
| TableViews.MappingIsFirstFree | src/official_builders.rs:2884-2900 | every start is past the end of the previous cell and is the first such column free of earlier rows, even where a colspan overruns an occupied column |
| TableViews.EffectiveWithinEnds | src/official_builders.rs:2723-2730 | the effective column count of a row adds nothing to the ends of its cells |
| TableViews.ViewsAgree | src/official_builders.rs:2692-2758 | scan, owners and mapping of one table describe one grid: same widths, and each start owned by its cell |
| TableRepair.ExpandHeaderRowspans | src/official_builders.rs:2963-2972 | the header grows to the least number of rows that its cells do not reach below |
| TableRepair.HeaderStops | src/official_builders.rs:2963-2972 | below an extended header nothing is occupied by it |
| TableRepair.DeletableBelowHeader | src/official_builders.rs:3191-3196 | a blank row right below an extended header meets the conditions under which it may be deleted |
| TableRepair.InsertCellBeforeVisualColumn | src/official_builders.rs:3048-3063 | the cell goes before the first cell that starts at the column or later |
| TableRepair.InsertPositionIsUnique | src/official_builders.rs:3048-3063 | that position is the only one with all cells before it starting earlier and the one at it not |
| TableRepair.CarryBlankRowspans | src/official_builders.rs:3065-3087 | the rowspans of a blank row are carried into the next row as specified |
| TableRepair.CarryMerges | src/official_builders.rs:3065-3087 | inserting the carried cells one by one merges them with the cells of the next row by column |
| TableRepair.RowDeletionKeepsGrid | src/official_builders.rs:3191-3196 | carrying and then dropping a blank row that nothing from above reaches keeps every later cell at its column, every carried cell at its column with one row less, and the occupancy left for the next page |
| TableRepair.DeletionUnderTail | src/official_builders.rs:3191-3196 | the same in a table that continues a previous page, if that page leaves the blank row and the rows below it free |
| TableRepair.TailMovesFirstCell | src/official_builders.rs:3191-3196 | if it does not, cells can move: the first cell behind a blank first row keeps its column exactly when the previous page leaves both rows the same first column |
| TableSplice.ParseTable | src/official_builders.rs:2262-2324 | a text is read exactly when it is a table: its tags pair up and nest, the first opens it and the last closes it, no other table begins in it, it has a row, and only white space is around it; its rows are all its tr elements, in text order, and its tbody is its first one |
| TableTags.PairingIsUnique | src/official_builders.rs:2262-2312 | the tags of a table pair up in one way only |
| TableSplice.DocumentIsUnique | src/official_builders.rs:2262-2324 | the tags determine the rows, the tbody and the end of the table that are read |
| TableSplice.ParseRow | src/official_builders.rs:2385-2450 | the loop over a row's tags accepts exactly the tag sequences that read as one row |
| TableSplice.NoInnerRow | src/official_builders.rs:2421-2443 | a text that reads as a row closes no other row on the way |
| TableSplice.RowsApart | src/official_builders.rs:2794-2816 | if all rows of a parsed table read as rows, they lie one behind the other |
| TableSplice.RangesInSequence | src/official_builders.rs:2313-2323 | then the row ranges are disjoint and increasing and the insertion point is within the text |
| TableSplice.InsertionOutsideRows | src/official_builders.rs:2279-2323 | the insertion point is inside a row exactly when the first tbody is |
| TableSplice.InsertsBeforeEnd | src/official_builders.rs:2318-2323 | the insertion point is where the closing tag of the first tbody starts, or that of the table if it has none |
| TableSplice.RowIsWhole | src/official_builders.rs:2305-2317 | the text of a row runs from its opening tag to its closing tag, both included |
| TableSplice.BuildTableState | src/official_builders.rs:2794-2803 | a text is accepted exactly when it is a table with every row readable, and its rows are the texts of its ranges |
| TableSplice.Serialize | src/official_builders.rs:2326-2361 | the output is the text with each row replaced or removed and the new rows put in once at the insertion point; it fails exactly for missing rows or an insertion point inside a row |
| TableEdits.SplicingIsEditing | src/official_builders.rs:2326-2361 | the output of the one pass is what editing the text in place gives: from the back to the front each row overwritten by its new text or by nothing, and the new rows inserted in order at their place |
| TableSplice.UntouchedGivesSource | src/official_builders.rs:2326-2361 | rows that were not touched give back the text |
| TableSplice.TableRoundTrip | src/official_builders.rs:2261-2361 | for a table that was read, writing fails exactly when its first tbody is inside a row, and otherwise untouched rows give back the text |
| TableSplice.TbodyMayBeInRow | src/official_builders.rs:2279-2284 | reading a table does not rule that case out |
| PageComposition.ComposeLists | src/official_builders.rs:3498-3539 | each text goes to the first list marker it lies on, and lists are built from exactly those |
| PageComposition.AbsorbMembers | src/official_builders.rs:3546-3583 | pictures are absorbed by the container chosen for them, in page order |
| PageComposition.GroupChildren | src/official_builders.rs:3592-3609 | captions and footnotes go to the figure chosen for them, in page order |
| PageComposition.ComposePage | src/official_builders.rs:3461-3639 | the passes over a page give, block by block, what the definition says each block becomes, in order of roots, and the page chrome apart |
| PageContents.NodesHoldTheirBlocks | src/official_builders.rs:3461-3639 | every node of a composed page holds the blocks the page says, as they were and in page order: a leaf its block (captions and footnotes become text that does not go on), a list the texts on its marker, and it is one of references exactly if most of them are, a visual its captions, footnotes and pictures |
| PageContents.ChromeIsApart | src/official_builders.rs:3461-3480 | what is discarded is the page chrome, in order and as it was |
| PageComposition.EveryBlockPlacedOnce | src/official_builders.rs:3461-3639 | every block is in exactly one place: once in one node, among the discarded chrome, or a list marker without items |
| PageComposition.HolderHasNode | src/official_builders.rs:3498-3636 | a block absorbed, listed or claimed belongs to a node that is there; only chrome and empty markers have none |
| PageComposition.RootsIncrease | src/official_builders.rs:3636-3638 | root indices are strictly increasing |
| DocumentMerge.MergeParaText | src/official_builders.rs:1945-1976 | joining paragraphs in place is the specified pass from the last node to the first |
| DocumentMerge.TextPassConserves | src/official_builders.rs:1945-1976 | the pass loses no line of text, repeats none and keeps their order, and moves nothing but text lines |
| ParagraphJoins.TextPassJoins | src/official_builders.rs:1945-1976 | told from the page as it was: a text with only visuals between it and the text before, that says it goes on and may be merged with all it has taken in, is left empty; any other text has its own lines and those of all that goes on from it, in order; nothing else changes |
| DocumentMerge.MergeRefLists | src/official_builders.rs:3293-3349 | every node ends as the document as it was says: joined lists are gone, the others have gained the items of those joined to them; no list goes on from another, all items are there in document order, and those that changed page are marked |
| DocumentMerge.FindsAsExpected | src/official_builders.rs:3298-3311 | the list the loop finds to go on from, in the document half-way merged, is there exactly when the original document says so, and is that one |
| DocumentMerge.JoinedExactly | src/official_builders.rs:3293-3349 | the lists that are gone are exactly those whose predecessor in the original document is a standing list: the node before, or across pages the last one neither empty nor joined |
| ListJoins.GoneExactly | src/official_builders.rs:3293-3349 | told from the document before and after alone: a list of references is gone exactly when the node before it, or for the first of a page the last node before it that still shows anything, is a list of references that still stands |
| DocumentMerge.JoinedIsUnique | src/official_builders.rs:3293-3349 | what the merge is said to do determines its result |
| DocumentMerge.MovingKeepsItems | src/official_builders.rs:3316-3346 | moving the items of a list to the one before changes the items before a position only between the two |
| DocumentMerge.NoItemsBetween | src/official_builders.rs:2125-2132 | between a list and the one it goes on from there are no items |
| DocumentMerge.RunAlternates | src/official_builders.rs:3298-3332 | in a run of lists of any length joined and standing ones alternate |
| RoutePlanner.SlotsHalve | src/official_route.rs:180-183 | the two slots halve the budget, the odd byte goes to the second, and windows overlap from a budget of two bytes on |
| RoutePlanner.PlanWindow | src/official_route.rs:200-288 | a window takes the pages from the cursor in order, skips those that cannot be planned with a warning for each, keeps its cap, and stops only where it must; planning fails exactly when no page is left that can be planned |
| RoutePlanner.PlanIsUnique | src/official_route.rs:200-288 | at each cursor there is one plan only |
| RoutePlanner.KeptConcat | src/official_route.rs:193-198 | no page is lost or planned twice at a window boundary |
| RoutePlanner.WindowPacked | src/official_route.rs:193-288 | planning window by window is packing page by page: the window planned next is the next one of the packing, as full, for the same slot |
| RoutePlanner.ChainStops | src/official_route.rs:193-288 | windows planned from the first page on until none can be planned take in all pages, unless the sizes of the pages say that the document is blocked |
| RoutePlanner.EverySizeGoesThrough | src/official_route.rs:223-275 | a document can be planned with windows of every size exactly when its last page can be planned |
| RoutePlanner.WindowSizeDecides | src/official_route.rs:223-275 | if all pages fit a slot together and the last one cannot be planned, the document fails exactly for the window sizes that divide the number of pages that can |
| RenderWindow.AdmittedWindow | src/pdf.rs:395-417 | the longest run of pages that fits the cap together is admitted, at least one unless the first alone is too large |
| RenderWindow.JoinSet.SpawnRender | src/pdf.rs:419-449 | one more render is in flight, and the peak is the most there ever were |
| RenderWindow.RenderGroup | src/pdf.rs:345-390 | the peak never exceeds the given number; whichever render finishes first, each admitted page is started once, in order, and settled |
| RenderWindow.RenderWindowCore | src/pdf.rs:300-393 | a tolerant run renders what it can, warns about the rest, and fails exactly when a task is lost or, if asked to, nothing rendered; a strict run fails exactly when some page does not render |
| RenderWindow.RenderingIsUnique | src/pdf.rs:325-392 | whatever order the renders finish in, the result is the same |
| OutputStage.OfficialOutputStage.WritePreviewPage | src/official_output.rs:273-288 | a page is refused for its order exactly when it does not come after the last one |
| OutputStage.OfficialOutputStage.WritePreparedPage | src/official_output.rs:148-171 | likewise for prepared pages, with the page staged as given |
| OutputStage.NextIsDecisive | src/official_route.rs:441-588 | looking at the next rendered page only decides correctly whether a page of the window was rendered |
| OutputStage.StageWindow | src/official_route.rs:441-588 | all pages of a window are staged in order, each with its own picture and snapshot or as a placeholder, and the order checks never fail |
| RoutePipeline.NextFitsBeside | src/official_route.rs:1035-1083 | whatever is planned beside the current window fits the budget with it |
| RoutePipeline.RenderRouteWindow | src/official_route.rs:365-415 | a window is rendered only into memory with room for it beside the windows there, and is there from then on; in a calm world this fails exactly when the task of one of its pages is lost or none of its pages renders |
| RoutePipeline.TakeCurrent | src/official_route.rs:941-1004 | the prefetched window, a pending fallback or a fresh plan becomes the current window, with the cursor past it |
| RoutePipeline.PlanNext | src/official_route.rs:1035-1067 | the next window goes to the other slot, or waits when it is a fallback |
| RoutePipeline.NextMoves | src/official_route.rs:1035-1067 | what `next_slot` stands for: the window planned beside one in a slot is for the other slot, and behind a fallback slots start anew |
| RoutePipeline.Round | src/official_route.rs:937-1215 | one round of the loop keeps all its invariants and comes further, or ends with a document that cannot be planned, a window that cannot be rendered, or an error that only a rough world gives |
| RoutePipeline.ParseAndWrite | src/official_route.rs:927-1219 | at every moment the windows in memory fit the budget and a fallback is alone; a run that succeeds has had in memory, and staged once and in order, exactly the pages the planner does not skip; a run fails only if the document cannot be planned, some window it planned cannot be rendered, or the world is rough, and it never succeeds in the first two cases; the in-flight guard, the prefetch state check and the page checks never fail |
| Publication.InstallStage | src/official_output.rs:1088-1169 | the new tree is installed and the old one in the backup, or both directories are exactly as before, except when the rollback rename fails; it goes through exactly when nothing on its way fails |
| Publication.RollbackTarget | src/official_output.rs:1171-1187 | the old target is back, or still in the backup |
| Publication.RemovePrivateStage | src/official_output.rs:347-378 | the stage goes unless removing it fails, and its directory goes exactly when it is empty then and can be removed |
| Publication.Commit | src/official_output.rs:347-378 | with its cleanup, a commit changes the public directory at the target only, never loses the old target before the new one is in place, and leaves nothing private behind unless cleaning up fails or the old target could not be taken back |
| Publication.AnswersAreTrue | src/official_route.rs:1271-1316 | after a timeout or failure nothing is published, then or in any continuation; after a success it is |
| Publication.AnswersHaveReasons | src/official_route.rs:1271-1316 | the caller hears of a timeout only when the deadline has passed, of a failure only after a commit that failed, and that the worker stopped only when it is dead |
| Publication.PublishingWasAdmitted | src/official_route.rs:1301-1316 | nothing is published without the permit and a deadline check passed after receiving it |
| Publication.Reachable | src/official_route.rs:1271-1316 | every reachable state of caller, worker and deadline satisfies the invariant of the handshake |
| Publication.NobodyIsStuck | src/official_route.rs:1271-1316 | until the caller has its answer and the worker is done, one of them can move |
| Publication.CanPublish | src/official_route.rs:1271-1316 | from every reachable state before the deadline in which the caller waits and its worker lives, both can go on to a publication, or to a failed commit, that the caller learns of |
| Publication.SomeRunAnswers | src/official_route.rs:1271-1316 | there are runs from the start in which the caller hears of a publication, and runs in which it hears of a failed commit |
| Publication.CanTimeOut | src/official_route.rs:1271-1300 | once the deadline has passed and before the permit is sent, the caller can time out at once, and a worker still queued then never starts |
| Publication.CanStop | src/official_route.rs:1283-1300 | a caller whose worker has died can stop |
| Publication.MayBreak | src/official_route.rs:1271-1316 | the deadline may pass and the worker may die at any moment, even between the renames and its answer |
| Otsl.TakeTokenGood | src/vlm_postprocess.rs:526-694 | every token keeps the anchors of hidden cells pointing at visible cells |
| Otsl.Finished | src/vlm_postprocess.rs:526-585 | so for any token stream at all every hidden cell's anchor is a visible cell |
| Otsl.OtslTable | src/vlm_postprocess.rs:526-585 | the loop over the tokens gives the specified table |
| OtslReading.TrimTakesEnds | src/vlm_postprocess.rs:540-542 | trimming takes the characters of Unicode's White_Space off both ends of a text and nothing else |
| OtslReading.FinishedShows | src/vlm_postprocess.rs:526-694 | for any token stream: a place that opens a cell shows it with its trimmed text, one column wider for each place that goes with it from the right alone and one row longer for each that goes with it from below alone; every other place is hidden and points at the cell it belongs to |
| OtslReading.TableIs | src/vlm_postprocess.rs:526-585 | the table of any stream has the rows that have places, in order, each with the cells it opens, in order; there is none if no row has a place |
| OtslTiling.ReadyIsGrid | src/vlm_postprocess.rs:526-694 | half-way through the tokens of a tiling the decoder holds exactly the part of the grid read so far |
| OtslTiling.GridComplete | src/vlm_postprocess.rs:647-694 | at the end every rectangle shows its full spans at its corner and hides its other cells |
| OtslTiling.RoundTrip | src/vlm_postprocess.rs:526-694 | for every tiling of a grid by rectangles with texts that no white space surrounds, those without text written as either cell token, decoding gives back each rectangle once with its text and spans |
| BraceRepair.RemoveUnmatchedBraces | src/vlm_postprocess.rs:386-414 | the result is the string without its unmatched braces, and its unescaped braces are balanced |
| BraceRepair.BalancedKept | src/vlm_postprocess.rs:386-414 | after deleting unescaped braces, escapes are what they were: the rest is balanced exactly when the kept braces of the original are |
| BraceRepair.RepairIsMinimal | src/vlm_postprocess.rs:386-414 | no other deletion of unescaped braces that balances the string removes fewer |
| BraceRepair.RepairIsFixedPoint | src/vlm_postprocess.rs:386-414 | a repaired string is not changed by another repair |
| BraceRepair.SurvivorsKeepEscapes | src/vlm_postprocess.rs:390-413 | every other character stays, in order and with its escape parity |
| BundlePaths.ReserveKeepsValid | python/mineru_official_worker.py:146-183 | a reservation that does not conflict keeps the recorded paths consistent: keys match spellings, files and directories disjoint, parents recorded, name lengths summed, limits kept |
| BundlePaths.ReleaseUndoesReserve | python/mineru_official_worker.py:185-196 | taking a reservation back gives exactly the state before it |
| BundlePaths.PathsPortable | python/mineru_official_worker.py:149-162 | recorded paths that differ at most in case are equal, and no file lies inside a file |
| BundleWriter.BundleWriter.ReservePath | python/mineru_official_worker.py:146-183 | a path is refused as conflicting exactly when some part of it is in use as something else or in another spelling |
| BundleWriter.BundleWriter.ReleasePath | python/mineru_official_worker.py:185-196 | after it the recorded paths are what they were before the reservation; every key it removes is there |
| BundleWriter.BundleWriter.WriteRaw | python/mineru_official_worker.py:218-263 | a file is stored as a whole or nothing changes; it is refused exactly when it does not fit in the end or the system fails; the accounting checks never fail |
| BundleWriter.BundleWriter.CheckAlias | python/mineru_official_worker.py:204-216 | an alias is refused exactly when its name is taken in another spelling or a limit would be exceeded |
| BundleWriter.BundleWriter.RecordImage | python/mineru_official_worker.py:282-291 | the alias is added unless its name is there, and the alias tables stay consistent |
| BundleWriter.BundleWriter.RewriteText | python/mineru_official_worker.py:293-302 | the given texts are rewritten in any order; those that cannot be read back are passed over; it fails exactly where a text is too long before or after, has no JSON rewrite, or cannot be stored, and then the rest keep their contents |
| BundleWriter.BundleWriter.Write | python/mineru_official_worker.py:265-280 | all invariants hold after every write; a write that fails before rewriting changes nothing; a write that succeeds and can read the markdown back leaves it as one rewrite of the text last handed in; each failure has its reason: no room for an alias, a path in use or too many, a file that does not fit or breaks off, or a readable text that cannot be rewritten |
| BundleWriter.OnlyTextBlocked | python/mineru_official_worker.py:293-302 | if the markdown is the only text, a failed rewriting means that the markdown as it was stored could not be rewritten |
| BundleWriter.MarkdownBlocked | python/mineru_official_worker.py:304-330 | and that means for clean names: it or its rewrite is too long, or the rewrite differs and could not be stored |
| BundleWriter.RewriteIsUnique | python/mineru_official_worker.py:304-325 | there is one way only to rewrite a text |
| BundleNames.BytesAreEncoded | python/mineru_official_worker.py:218-240 | the size of a text is the length of its UTF-8 encoding (section 3 of RFC 3629) |
| BundleNames.NameIsWritten | python/mineru_official_worker.py:165-170 | the length counted for a path is that of the path written with slashes |
| BundleNames.KeysAlike | python/mineru_official_worker.py:150-155 | paths have the same key exactly when they have as many parts and these differ at most in case |
| BundleNames.FilesListed | python/mineru_official_worker.py:55-61 | a bundle holds seven fixed files, of which three are rewritten, and files under `images` |
| BundleNames.AliasIsLastPart | python/mineru_official_worker.py:204-209 | exactly the files at the top and directly under `images` have an alias: their last part, for their written path |
| BundleNames.NameIsOneToken | python/mineru_official_worker_bundle.py:27-28 | a clean name has a character, and each is a letter, a digit, or one of the hyphen, the full stop, the backslash and the low line |
| BundleNames.FileHasCleanName | python/mineru_official_worker.py:204-209 | which files have a clean name: those without an alias, and those whose last part is one |
| BundleNames.ReservationFits | python/mineru_official_worker.py:163-172 | a reservation is within the limits exactly when after it there are at most 8192 recorded paths with 32 MiB of names |
| BundleNames.FitMeans | python/mineru_official_worker.py:225-240 | a file fits exactly when all files together are within the limit with it, and a fixed file also within 64 MiB |
| BundleWriter.RoomForFile | python/mineru_official_worker.py:222-223 | the limit on the number of files never refuses a reserved path |
| BundleWriter.SaveAll | python/mineru_official_worker.py:265-302 | after any sequence of successful writes, the last of which could read the markdown back, it is one rewrite of its last text with the aliases of all files written |
| BundleWriter.FilesDetermineAliases | python/mineru_official_worker.py:282-291 | the files written determine the aliases exactly when no two of them give the same name |
| BundleWriter.OrderDoesNotMatter | python/mineru_official_worker.py:265-302 | two successful runs that write the same files, with different names, and hand in the same text last end with the same markdown and aliases |
| BundleWriter.FirstAliasStays | python/mineru_official_worker.py:286-289 | whatever was written before, of two files of one name the alias is that of whichever came first |
| ReferenceTokens.RewriteReferenceTokens | python/mineru_official_worker_bundle.py:20-36 | the loop appends what the first matching replacement at each place says |
| ReferenceTokens.SortReplacements | python/mineru_official_worker_bundle.py:21-22 | the replacements are all aliases that change something, the longest first and equal lengths in order |
| ReferenceTokens.ReplacementsAreUnique | python/mineru_official_worker_bundle.py:21-22 | the aliases determine the order in which they are tried |
| ReferenceTokens.RewriteIsLookup | python/mineru_official_worker_bundle.py:20-36 | for clean names the loop does what looking up every maximal token does |
| ReferenceTokens.CutAgain | python/mineru_official_worker_bundle.py:27-28 | a text put together from tokens and other characters is cut the same way again |
| ReferenceTokens.RewriteTwice | python/mineru_official_worker.py:293-302 | rewriting with some aliases first and with all of them later is rewriting with all of them once; with the same aliases, rewriting again changes nothing |
| ReferenceTokens.NestedNamesBreakOrder | python/mineru_official_worker_bundle.py:20-36 | for every name that holds a clean name as a token behind its start the order matters |
| ImageScan.HasPageImages | src/native_pdf.rs:231-262 | a negative answer means no page leads to an image and every page's resources are acyclic; a positive one is justified by some page |
| ImageScan.PageResourcesHaveImages | src/native_pdf.rs:264-298 | the loop up the page tree gives what scanning the nearest resources without the cache gives |
| ImageScan.ResourceObjectHasImages | src/native_pdf.rs:300-329 | the scan with its cache answers as the scan without |
| ImageScan.ObjectHasImage | src/native_pdf.rs:331-388 | likewise for one object, with the path set restored |
| ImageScan.ImageScanCache.FormStreamHasInlineImage | src/native_pdf.rs:390-418 | every cache hit is what decoding gives, and the cache stays faithful |
| ImageScan.ResolveDictionary | src/native_pdf.rs:420-444 | following references ends at the dictionary behind them or fails on a cycle or at the depth bound |
| ImageScan.ObjectClear | src/native_pdf.rs:331-388 | if an object's scan finds nothing, no walk from it reaches an image and all walks are bounded |
| ImageScan.ObjectLeads | src/native_pdf.rs:331-388 | if it finds an image, some walk leads to one |
| ImageScan.NoCycle | src/native_pdf.rs:350-352 | bounded walks never come back to a node they have passed |
| ImageScan.ScanIsSound | src/native_pdf.rs:231-262 | both answers are right for the whole document |
| ImageRoutes.ObjectExplained | src/native_pdf.rs:331-388 | an object's scan gives up only if some route from it comes to a place where it must: a reference already open, missing, or past 32 steps down, an object of the wrong kind, or content that cannot be decoded; finding nothing rules out all of these |
| ImageRoutes.ScanIsExact | src/native_pdf.rs:231-444 | where no image can be found the scan gives up exactly if it may on some page, and where it cannot give up its answer is exactly whether an image can be found |
| TextPaginator.SetAsIs | src/legacy_office.rs:306-312 | the lines of a raw text hold, in its place, each printable ASCII character as it is, a blank for a tab and a question mark for anything else |
| TextPaginator.SplitIsCeiling | src/legacy_office.rs:224-253 | a raw line gives max(1, ceil(n / 96)) lines, full but for the last, that together are its characters |
| TextPaginator.PutRaw | src/legacy_office.rs:224-266 | the loop over the characters of a raw line sets exactly those lines |
| TextPaginator.PutLine | src/legacy_office.rs:228-246 | a line is set, and the page finished when full, unless the budget would be exceeded |
| TextPaginator.AppendPdfLine | src/legacy_office.rs:314-330 | the check of the content stream's size never fails; a line is refused by the budget only |
| TextPaginator.PdfBudget.ReserveLine | src/legacy_office.rs:176-195 | the check on the content is implied by the one on the estimate, and a refused line leaves the counters as they were |
| TextPaginator.PdfBudget.ReservePage | src/legacy_office.rs:197-205 | the limits on pages and objects never refuse a page that fits |
| TextPaginator.LinesNeverLimit | src/legacy_office.rs:176-184 | nor does the limit on lines ever refuse one |
| TextPaginator.MarkdownToPdf | src/legacy_office.rs:208-304 | setting succeeds exactly when there is a line and 4096 + 1024 per page + content is within the cap; the pages hold all lines in order, 50 on each but the last |
| TextPaginator.LinesOnPaper | src/legacy_office.rs:322 | every line stands between 70 and 756 points |
| TextPaginator.LineStands | src/legacy_office.rs:314-330 | a reader of the line's operators moves 36 points to the right and to 756 points less 14 for each line above, and shows the text of the line |
| TextPaginator.EstimateCountsPages | src/legacy_office.rs:176-205 | the estimate is 4096 bytes, 1024 for each page, and the bytes on the pages |
| TextPaginator.LineReadsBack | src/legacy_office.rs:353-365 | reading an escaped line as a literal string (section 7.3.4.2 of ISO 32000-1) gives it back |
| RasterWorkers.TakeFinished | src/input_prepare.rs:39-52 | the finished jobs are taken out and all others kept |
| RasterWorkers.Reachable | src/input_prepare.rs:38-98 | in every interleaving the running jobs are in the registry, awaited by the drain at the gate, or abandoned by a dropped one |
| RasterWorkers.NoneAdmittedAfter | src/input_prepare.rs:58-74 | once draining, no job is admitted and none starts |
| RasterWorkers.DrainReturns | src/input_prepare.rs:88-98 | when a drain returns, only jobs abandoned by a dropped drain can still run |
| RasterWorkers.DrainIsSafe | src/input_prepare.rs:88-98 | if no drain is dropped midway, nothing runs when one returns and nothing is admitted afterwards |
| RasterWorkers.SubmissionIsAnswered | src/input_prepare.rs:58-74 | a new job is let in and runs, or finds the registry draining and changes nothing |
| RasterWorkers.ReapingKeepsRunning | src/input_prepare.rs:37-56 | a running job can end and be reaped at any moment, and what stays registered are the registered jobs that still run |
| RasterWorkers.DrainCanReturn | src/input_prepare.rs:88-98 | no drain waits in vain: whoever holds the gate, a waiting drain can still come to it and return |
| RasterWorkers.WaitersCanLeave | src/input_prepare.rs:88-98 | a drain can be dropped wherever it waits, and only the jobs it had taken are lost with it |
| RasterWorkers.DroppedDrainLosesJobs | src/input_prepare.rs:88-98 | if one is dropped, a later drain may return while a job runs |

## Left out

- `TableGrid`: rows are taken as parsed cells; that a row's text cannot be parsed, which ends the merge, is modelled in `TableSplice` only, and the text edits of cells (attributes, contents) are not modelled.
- The merge of table cells by flags (`apply_cell_merge` up to the deletion of the blank row), matching and clipping of headers, `adjust_colspans` and `compatible_tables`: only the grid, the header extension, the row deletion and the splice are modelled.
- Splitting a row's text from the table's: the tags of a row are taken to be those of the table inside its range; the lexing of tags from text is not part of this model.
- `caption_fallbacks` and the geometry of boxes: kinds are taken after the fallbacks, and overlap, containers and the choice of a figure for a caption are parameters.
- `DocumentMerge` does not contain the table pass, and takes the rule for which paragraphs may join as a parameter.
- `RoutePlanner.PlanWindow`: the sum of byte counts can overflow a machine word only when the caps themselves come near it; the claim about failures is stated below that.
- RoutePipeline.ParseAndWrite: that planning fails for no other documents is claimed for budgets up to half a machine word, below which byte counts cannot overflow.
- `RoutePipeline` does not contain progress events, the checks of the model's answers beyond their number, and the deadline's sources; a deadline may pass at any check. What a window holds in memory is its planned bytes; after an error everything is dropped, which is not modelled.
- `OutputStage` does not contain asset bytes and text bytes.
- `Publication`: the two directories are changed by nobody else between the renames; symbolic links are entries, not followed.
- Normalising `\left` and `\right`, the outer delimiters of equations, and the HTML written for a table.
- `BundleWriter.BundleWriter.Write`: contents are texts measured in UTF-8 bytes, so text files that are not valid UTF-8 are not modelled; JSON rewriting and typed references are a parameter or absent; names are taken as already resolved to paths.
- `ImageScan`: decoding of content streams gives a parameter for each stream; patterns, fonts and annotations are not scanned by the code either.
- `TextPaginator.MarkdownToPdf`: writing the PDF file, its size after writing and reading it back are not part of this model.
- `RasterWorkers`: the result channel of a job and job panics.
- Configuration, command line, HTTP calls, processes, hashing, encoders, and the simple limit arithmetic elsewhere.
