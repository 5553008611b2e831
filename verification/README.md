# Verified models of Yaak's client-side algorithms

Yaak is an API client. Most of its engine is native code, but its TypeScript holds a number of
self-contained algorithms and small protocols: an exact floating-point sum, an import preview whose
checkboxes carry whole folders, an eager debounce, a tar reader, a parser for JSON locations, an
example builder for message schemas, the sidebar's tree, a splitter for event streams, a list of
recent filters, the theme start-up, and the inheritance of headers and authentication. Each is
modelled here in Dafny, branch by branch, and proved against what it is for. Code that updates
state is a class or a method with loops, tied to a function; the properties are lemmas about those
functions and about every run. What a function computes is also said without it, on the fields,
characters or bytes that it reads, so that no definition is checked against itself alone.

| files | what they model |
|---|---|
| `Binary64.dfy`, `SumRange.dfy`, `SumPrecise.dfy` | binary64 addition on exact integers (every finite double times 2^1074), how large values grow on the way, and the exact summation |
| `Forest.dfy` | parent pointers that may form cycles, walks up, and trees grown down; shared by the next two groups |
| `ImportTree.dfy`, `ImportPlacement.dfy`, `ImportSelection.dfy`, `ImportRuns.dfy`, `ImportRows.dfy` | the import preview: its tree, where each item is placed, one click, runs of clicks, and what the rows show |
| `SidebarOrder.dfy`, `SidebarDrag.dfy`, `SidebarTree.dfy`, `SidebarFilter.dfy` | the sidebar: its comparator, dropping dragged items, the git status roll-up, building and filtering the tree |
| `Debounce.dfy`, `Theme.dfy`, `RecentFilters.dfy` | three small state machines |
| `Utf8.dfy`, `Tarball.dfy`, `JsonPath.dfy`, `JsonSpelling.dfy`, `SseSummary.dfy`, `SseBlocks.dfy` | three readers of text or bytes, the decoding that one of them needs, and what keys and blocks are made of |
| `SchemaExample.dfy`, `Inheritance.dfy` | two recursions over linked data |
| `Wrappers.dfy`, `Strings.dfy` | optional values, and what JavaScript takes for white space |

`dafny verify dfyconfig.toml` checks everything.

Seven facts about the code that its own comments and callers do not mention came out of the proofs.
Each comes with an input that shows it and, where something is lost, with the exact condition:

- Taking the source's side of a conflict does not bring back the ignored folder above it, and
  unchecking that folder leaves the conflict taken; committing the plan then passes over the item
  (`crates/yaak/src/import.rs`, lines 515-593). These two are the only ways in which the preview
  leaves an item without a folder it needs
  (`ImportRuns.TakingSourceStrands`, `UncheckingStrands`; if and only if in `StepStrandsIff`).
- A complete tar archive ends in zero blocks. Their size field is blank, which reads as NaN and
  sends the reader back to offset 0. If the wanted file is not in such an archive, the reader never
  returns, where its caller expects `null` (`Tarball.EmptyArchiveNeverEnds`; if and only if in
  `ArchiveAnswers`).
- An imported item at or beneath a cycle of parent pointers appears on no row of the preview, so it
  can be neither checked nor unchecked there; every other item is on exactly one row
  (`ImportPlacement.KnotIsOnNoRow`; if and only if in `PlacedOnceIffRooted`).
- A filter added to a full list of pinned filters is dropped at once and leaves no trace
  (`RecentFilters.NewFilterLeavesNoTrace`; if and only if in `AddShowsIff`).
- If the newest theme computation fails, an older one that succeeds is ignored, and the window can
  stay hidden although a call completed (`Theme.WindowNeverShown`; exactly when in
  `ShownIffApplied`).
- A request whose folder id names nothing inherits no headers at all, not even the defaults, while
  the list of its ancestors still shows its workspace (`Inheritance.RequestInLostFolder`,
  `LostFolderLosesHeaders`; exactly when the two look-ups part in `ParentsAgreeIff`).
- Calls of the debounced function that come one by one start two runs each
  (`Debounce.TwoRunsPerCall`), and no order of events starts more (`NeverTwoInFlight`).

## Model

| member | source | states |
|---|---|---|
| Binary64.DoubleCharacterized | apps/yaak-client/polyfills.ts:57-80 | the numbers computed with are exactly the integers m * 2^e with e >= 0 and abs(m) < 2^53, that is, every finite double scaled by 2^1074, subnormals included |
| Binary64.RoundNearest | apps/yaak-client/polyfills.ts:73-74 | no double is closer to an exact result than the rounded one |
| Binary64.RoundTiesToEven | apps/yaak-client/polyfills.ts:42-46 | between two doubles at the same distance the even significand wins |
| Binary64.ErrorIsDouble | apps/yaak-client/polyfills.ts:72-75 | the error of adding two doubles is itself a double |
| Binary64.FastTwoSum | apps/yaak-client/polyfills.ts:72-74 | with the larger operand first, the three rounded operations give the rounded sum and its exact error |
| SumPrecise.AdditionAbove | apps/yaak-client/polyfills.ts:73-76 | one addition keeps the non-overlap with everything written below it and still to be read above it |
| SumPrecise.PassStep | apps/yaak-client/polyfills.ts:71-77 | halfway through a pass, the errors written, the running sum and the partials still unread stay doubles that do not overlap |
| SumPrecise.AddItem | apps/yaak-client/polyfills.ts:69-79 | one pass over the partials, overwriting them in place, keeps the exact total and leaves doubles of increasing magnitude that do not overlap, all but the last nonzero; magnitudes grow by at most one part in 2^52 for each addition |
| SumPrecise.SumBelow | apps/yaak-client/polyfills.ts:100-101 | everything below a partial sums to less than that partial's power of two, with the sign of the topmost of them |
| SumPrecise.StepDown | apps/yaak-client/polyfills.ts:93-99 | on the way down the partials the unswapped addition still yields its exact error |
| SumRange.RelativeError | apps/yaak-client/polyfills.ts:73-74 | the error of an addition is at most one part in 2^53 of the exact value |
| SumRange.RangeStep | apps/yaak-client/polyfills.ts:71-77 | one step of a pass keeps the magnitudes within their bound, and its three operations with them |
| SumRange.CorrectionSmall | apps/yaak-client/polyfills.ts:100-105 | so does the correction at the end |
| SumPrecise.RestDecidesTie | apps/yaak-client/polyfills.ts:100-105 | the partials below an inexact addition change its rounding only in an exact tie, and only when they push away from the rounded value |
| SumPrecise.TieTest | apps/yaak-client/polyfills.ts:102-104 | the comparison of y with x - hi recognizes an exact tie, and nothing else |
| SumPrecise.LastStep | apps/yaak-client/polyfills.ts:100-105 | the correction gives the correctly rounded sum of the inexact step and everything below it |
| SumPrecise.RoundPartials | apps/yaak-client/polyfills.ts:88-106 | the collapsed partials are their exact sum, rounded once to nearest even, by operations no larger than a fixed multiple of the partials |
| SumPrecise.SumPrecise | apps/yaak-client/polyfills.ts:50-108 | for every iterable: a TypeError if something in it is not a number, else the exact sum rounded once, and NaN, the infinities and negative zero as the proposal orders them; no operation comes near overflow when fewer than 2^25 items have magnitudes that add up to less than 2^1018 |
| SumPrecise.NearestToTotal | apps/yaak-client/polyfills.ts:42-50 | the promised result is a double, none is nearer to the exact total, and ties are even |
| SumPrecise.RoundedOnce | apps/yaak-client/polyfills.ts:42-86 | the promised result is what adding the items one by one onto negative zero gives, as IEEE 754 adds numbers, infinities, zeros and NaN, with one rounding at the end |
| SumPrecise.OrderIndependent | apps/yaak-client/polyfills.ts:42-50 | every permutation of the items has the same result |
| Forest.AncestorsAreChain | apps/yaak-client/components/ImportDataDialog.tsx:650-662 | on an acyclic way up, the walk that stops at repeated ids is the whole chain of parents |
| Forest.GrowHoldsSubtree | apps/yaak-client/components/ImportDataDialog.tsx:694-702 | from an id whose way up ends, the cut-off for repeated ids is never taken, and the tree grown holds exactly what lies beneath, each once |
| Forest.ForestHoldsRooted | apps/yaak-client/components/ImportDataDialog.tsx:694-708 | the trees of all roots hold exactly the ids whose way up ends, each once, whatever the pointers are |
| ImportTree.BuildItemTree | apps/yaak-client/components/ImportDataDialog.tsx:674-718 | the loop over the plan, the children lists and the heading over environments build the tree that the other lemmas speak of, for any plan |
| ImportTree.AncestorsOf | apps/yaak-client/components/ImportDataDialog.tsx:650-662 | the loop collects the plan items on the walk up, and ends on cycles too |
| ImportTree.AncestorItemsAreAncestors | apps/yaak-client/components/ImportDataDialog.tsx:650-662 | those items are the walk over ids, item by item |
| ImportPlacement.PlacedOnceIffRooted | apps/yaak-client/components/ImportDataDialog.tsx:674-718 | an item is on exactly one row if and only if the walk up from it ends, else on none |
| ImportPlacement.KnotIsOnNoRow | apps/yaak-client/components/ImportDataDialog.tsx:674-718 | two folders that name each other as parent are on no row |
| ImportPlacement.ItemNodeOfTree | apps/yaak-client/components/ImportDataDialog.tsx:694-702 | no item node in the tree was cut off: its children are all of its item's children |
| ImportPlacement.MadeNodeHolds | apps/yaak-client/components/ImportDataDialog.tsx:720-722 | the rows collected from a node are exactly its item and what lies beneath, each once |
| ImportPlacement.ChildrenUnderParent | apps/yaak-client/components/ImportDataDialog.tsx:676-702 | a node's children are exactly the items that name it as parent, in the order that the next row spells |
| ImportRows.ChildrenInOrder | apps/yaak-client/components/ImportDataDialog.tsx:676-702 | by the fields of items and rows alone: beneath a row stand exactly the items that name it as parent, no request above a folder or an environment, no folder above an environment, and each kind in the order of the plan |
| ImportRows.TopInOrder | apps/yaak-client/components/ImportDataDialog.tsx:683-717 | at the top stand exactly the items without a parent in the plan, ordered the same way, the environments beneath a heading that is there if and only if there are any |
| ImportPlacement.TrailIsAncestors | apps/yaak-client/components/ImportDataDialog.tsx:650-662 | the ids passed on the way down to a row are its ancestors reversed |
| ImportSelection.ImportPreview.ToggleNode | apps/yaak-client/components/ImportDataDialog.tsx:224-233 | a click sets exactly the target items to the requested value and changes nothing else |
| ImportSelection.ImportPreview.ResolveConflict | apps/yaak-client/components/ImportDataDialog.tsx:235-239 | a decision about a conflict changes only that item's resolution |
| ImportSelection.ImportPreview.DisabledIds | apps/yaak-client/components/ImportDataDialog.tsx:242-254 | the disabled rows are exactly the deletions beneath a selected deletion |
| ImportSelection.PartHasWholeFamilies | apps/yaak-client/components/ImportDataDialog.tsx:307-326 | the items of one destination workspace hold parent and child together or not at all |
| ImportSelection.PartAncestors | apps/yaak-client/components/ImportDataDialog.tsx:316-326 | inside one workspace's tree the way up is the way up in the whole plan |
| ImportRows.PartSpelled | apps/yaak-client/components/ImportDataDialog.tsx:316-326 | the tree of one of several destinations is over the items whose workspace it is, in plan order |
| ImportRows.StatusSpelled | apps/yaak-client/components/ImportDataDialog.tsx:724-753 | a row has no checkbox if and only if nothing at or beneath it can be toggled; else it is checked or unchecked if all or none of that is selected, and indeterminate if and only if something is selected and something is not |
| ImportRows.ClickDecides | apps/yaak-client/components/ImportDataDialog.tsx:224-233 | by the fields of each plan item, the whole plan after a click on any row on show |
| ImportRuns.DisplayedIsCut | apps/yaak-client/components/ImportDataDialog.tsx:286-327 | every row on show, in every tree, covers a set of items closed downwards, and leaves it only through the row itself |
| ImportRuns.TargetsSpelled | apps/yaak-client/components/ImportDataDialog.tsx:225-231 | a click decides exactly the togglable items under the row and, when checking, the missing folders above it |
| ImportRuns.ClickAddsNoOrphan | apps/yaak-client/components/ImportDataDialog.tsx:221-233 | no click leaves an item selected by its checkbox without a missing folder it needs, unless it lacked that folder before; conflicts have no checkbox and are in the next rows |
| ImportRuns.ClickStrandsIff | apps/yaak-client/components/ImportDataDialog.tsx:221-233 | a click newly leaves an item that the import would apply without a missing folder it needs if and only if it unchecks that folder above a conflict taken from the source |
| ImportRuns.DecisionStrandsIff | apps/yaak-client/components/ImportDataDialog.tsx:235-239 | a decision does so if and only if it takes the source for a conflict beneath an unselected missing folder |
| ImportRuns.StepStrandsIff | apps/yaak-client/components/ImportDataDialog.tsx:221-239 | the two together, for every row on show in every tree |
| ImportRuns.TakingSourceStrands | apps/yaak-client/components/ImportDataDialog.tsx:235-239 | a plan of one ignored folder and one conflict in it on which a decision does so |
| ImportRuns.UncheckingStrands | apps/yaak-client/components/ImportDataDialog.tsx:224-233 | the same plan with the folder checked and the conflict taken, on which unchecking everything does so |
| ImportRuns.CheckIsLeast | apps/yaak-client/components/ImportDataDialog.tsx:221-233 | checking selects nothing unneeded: every orphan-free selection that contains the old one and the row contains the result |
| ImportRuns.ClickedStatus | apps/yaak-client/components/ImportDataDialog.tsx:740-753 | after a click the row's status is the requested value, unless it is hidden |
| ImportRuns.TreeRebuiltInPlace | apps/yaak-client/components/ImportDataDialog.tsx:232-303 | rebuilding the tree after a click gives the same tree with the new selection |
| ImportRuns.ClickShowsRequest | apps/yaak-client/components/ImportDataDialog.tsx:224-327 | right after a click the same row is on show again, with the requested status unless hidden |
| ImportRuns.RunAddsNoOrphan | apps/yaak-client/components/ImportDataDialog.tsx:221-239 | over every run of clicks and decisions, an item selected by its checkbox that lacks a missing folder it needs lacked it from the start |
| ImportRuns.RunStrandsOnlyBy | apps/yaak-client/components/ImportDataDialog.tsx:221-239 | over every run, any item to be applied without a missing folder it needs was so from the start, or became so by one of the two steps |
| ImportRuns.RunKeepsFolders | apps/yaak-client/components/ImportDataDialog.tsx:221-239 | over every run of clicks and decisions, no item to be applied is ever without a missing folder it needs if and only if none was at the start and no step was one of those two; items with a checkbox need no condition on the steps |
| Debounce.EagerDebounce.Run | packages/common-lib/eagerDebounceAsync.ts:6-22 | starts the function, or asks for a rerun while one is in flight |
| Debounce.EagerDebounce.Call | packages/common-lib/eagerDebounceAsync.ts:24-35 | the whole effect of a trigger on timer, promise and flag |
| Debounce.EagerDebounce.Fire | packages/common-lib/eagerDebounceAsync.ts:31-34 | the whole effect of the timer |
| Debounce.EagerDebounce.Finish | packages/common-lib/eagerDebounceAsync.ts:15-20 | the whole effect of a settled promise |
| Debounce.ReachableInvariant | packages/common-lib/eagerDebounceAsync.ts:1-36 | in every reachable state a call not yet served has an armed timer or a pending rerun, and starts are bounded by calls |
| Debounce.NeverTwoInFlight | packages/common-lib/eagerDebounceAsync.ts:6-22 | at most one run is in flight, and runs never exceed twice the calls |
| Debounce.TwoRunsPerCall | packages/common-lib/eagerDebounceAsync.ts:24-34 | that bound is reached for any number of calls |
| Debounce.NoCallIsLost | packages/common-lib/eagerDebounceAsync.ts:12-34 | once nothing is armed or running, every call was followed by a timer and then a start |
| Debounce.QuietRunEnds | packages/common-lib/eagerDebounceAsync.ts:15-34 | without further calls only a bounded number of steps is left, and none is possible only when all is quiet |
| Debounce.StartsAreConserved | packages/common-lib/eagerDebounceAsync.ts:6-35 | timers and settled promises neither add to the runs started and still to start nor lose one |
| Debounce.LastCallRuns | packages/common-lib/eagerDebounceAsync.ts:24-35 | the last call of a burst brings exactly two runs when nothing was armed or running, the first at once, and exactly one otherwise |
| Tarball.ExtractFileFromTarball | npm/cli/install.js:39-56 | where the loop ends, its answer is that of the turn-by-turn reading |
| Tarball.TurnAtEntry | npm/cli/install.js:42-52 | on an entry's header the loop returns that entry's content if the name fits, and else moves to the next header if and only if that lies within the first 2^31 bytes |
| Tarball.WalkEntries | npm/cli/install.js:41-53 | from an aligned header it returns the first entry of the name or reaches the end of the entries, provided that lies within the first 2^31 bytes, whatever follows |
| Tarball.HeaderReadsBack | npm/cli/install.js:45-46 | a header whose name is any text in UTF-8, padded as ustar prescribes, and whose size is in octal reads back as that name and size |
| Tarball.UstarEntryIsFound | npm/cli/install.js:45-50 | an entry under such a header is found by its name and by no other |
| Utf8.TextReadsBack | npm/cli/install.js:45-46 | text written in UTF-8 decodes to itself, whatever bytes follow |
| Utf8.FirstSpelled | npm/cli/install.js:45-46 | of any bytes, the first character read is the one they spell, if they spell one, and else one replacement for the longest piece that begins some character |
| Tarball.OctalReadsBack | npm/cli/install.js:46 | zero-padded octal digits read back as the number they were written for |
| Tarball.ParseOctalSpelled | npm/cli/install.js:46-46 | any text reads as the longest run of octal digits behind white space and a sign, and as NaN without one |
| Tarball.OctalPlaces | npm/cli/install.js:46-46 | each octal digit counts by its place |
| Tarball.StripNulSpelled | npm/cli/install.js:45-46 | a NUL takes the rest of its line with it, no more and no less |
| Tarball.BlockStartSpelled | npm/cli/install.js:52-52 | the bitwise and leaves the start of the block, of the number wrapped around to 32 bits |
| Tarball.TurnAtZeros | npm/cli/install.js:46-52 | a zero block sends the loop back to the start of the buffer, unless the empty name is asked for |
| Tarball.CycleNeverEnds | npm/cli/install.js:41-53 | a loop that returns to an offset never ends |
| Tarball.ArchiveAnswers | npm/cli/install.js:39-56 | the first entry of the name if there is one; else null if the bytes stop there, and no end if a zero block follows, with whatever behind it; the loop ends if and only if the file is there or no zero block is (or the name is empty); for archives in which the file or the end of the entries starts within the first 2^31 bytes |
| Tarball.EmptyArchiveNeverEnds | npm/cli/install.js:39-56 | two zero blocks and nothing else send the loop round forever |
| Tarball.AnswerUnique | npm/cli/install.js:39-56 | there is one answer, however many turns are granted |
| JsonPath.JsonPathToSegments | packages/common-lib/jsonPath.ts:12-39 | the loop over the rest of the text reads the path that the lemmas below speak of, for any text |
| JsonSpelling.CharactersSpelled | packages/common-lib/jsonPath.ts:6-6 | which characters start a bare key and which may follow, the punctuation, and the largest index |
| JsonSpelling.NumeralPlaces | packages/common-lib/jsonPath.ts:25-26 | an index counts each digit by its place |
| JsonSpelling.JsonStringSpelled | packages/common-lib/jsonPath.ts:29-34 | the text between the quotes denotes a key if and only if it is one of the spellings of each of its units in turn: itself, a short escape, or four hexadecimal digits, small or capital |
| JsonPath.JsonStringClosed | packages/common-lib/jsonPath.ts:6-6 | the pattern's closing quote is the one that ends the JSON string |
| JsonPath.ParsedIffSpelled | packages/common-lib/jsonPath.ts:6-39 | a path reads as given segments if and only if, trimmed, it is a dollar sign and one documented spelling of each |
| JsonPath.AppendSegment | packages/common-lib/jsonPath.ts:18-37 | a spelling appended to a readable path that ends in no white space appends its segment |
| JsonPath.EscapedReadsBack | packages/ui/src/components/editor/json/jsonPath.ts:90-93 | JSON escaping of any key, lone surrogates included, reads back as the key |
| JsonSpelling.KeyWritten | packages/ui/src/components/editor/json/jsonPath.ts:83-93 | an identifier is written behind a dot and any other key between quotes, unit by unit, escaped only where JSON.stringify escapes |
| JsonSpelling.IndexWritten | packages/ui/src/components/editor/json/jsonPath.ts:87-87 | an index is written in decimal without leading zeros |
| JsonPath.RoundTrip | packages/ui/src/components/editor/json/jsonPath.ts:83-102 | reading a printed path gives back its segments, for all keys and all indexes up to 2^53 - 1 |
| SchemaExample.BuildValue | apps/yaak-client/lib/jsonSchemaExample.ts:34-75 | the recursion ends on every schema, cyclic ones included, and spends the shared budget as the lemmas say |
| SchemaExample.BuildObject | apps/yaak-client/lib/jsonSchemaExample.ts:77-97 | the loop over properties fills the object in their order with what the budget allows |
| SchemaExample.BuildExampleFromSchema | apps/yaak-client/lib/jsonSchemaExample.ts:29-32 | the example is the root's value with a budget of 5000 and the root's own reference on the path |
| SchemaExample.ResolveRefSpelled | apps/yaak-client/lib/jsonSchemaExample.ts:113-121 | a reference resolves to d if and only if d is not null and either the reference is # and d the root, or it is #/$defs/ and a name under which the root is an object that defines d |
| SchemaExample.BuildConforms | apps/yaak-client/lib/jsonSchemaExample.ts:34-97 | with budget left over, the value has everything its schema asks for, everywhere inside it: all fields of an object, one entry of an array or map, the first member of an enum, the default that protobuf gives any other type, and null where there is no type; only a reference that is already being followed is cut off, by an empty object |
| SchemaExample.BuiltStringIsWellSpelled | apps/yaak-client/lib/jsonSchemaExample.ts:99-111 | 64-bit formats get the number zero in digits, durations zero seconds, timestamps the current time, all of which protobuf can read, and other strings are empty |
| SchemaExample.BudgetIsOnlyALimit | apps/yaak-client/lib/jsonSchemaExample.ts:22-48 | with budget left over, any larger budget gives the same value |
| SchemaExample.SizeIsPaidFor | apps/yaak-client/lib/jsonSchemaExample.ts:42-48 | on any schema every value that is not null is paid for by the one shared budget |
| SchemaExample.NullsAreFew | apps/yaak-client/lib/jsonSchemaExample.ts:40-48 | each node that is paid for leaves room for as many nulls as the widest schema has properties |
| SchemaExample.ExampleIsBounded | apps/yaak-client/lib/jsonSchemaExample.ts:22-32 | an example holds at most 5000 values that are not null, however its references branch, and at most 5000 times the properties of its widest schema, and one, that are |
| SchemaExample.ExampleConforms | apps/yaak-client/lib/jsonSchemaExample.ts:28-32 | the example of a well-formed schema has everything the schema asks for down to the references that would lead round a cycle, unless it was cut off at 5000 nodes |
| SchemaExample.SelfMessageShown | apps/yaak-client/lib/jsonSchemaExample.ts:50-58 | a message that contains itself is well-formed, and only a value with both of its fields, the inner message empty, is what the two rows above promise |
| SchemaExample.NamedListShown | apps/yaak-client/lib/jsonSchemaExample.ts:113-121 | a list of a message defined under any name, which contains itself, is well-formed, and only one value, the message with its number zero and the inner message empty, is what the rows above promise |
| SchemaExample.NamedListBuilt | apps/yaak-client/lib/jsonSchemaExample.ts:28-75 | that value is its example, built from five nodes |
| SidebarOrder.ComparatorIsOrder | apps/yaak-client/components/Sidebar.tsx:943-952 | the comparator is a strict total order on models with distinct ids |
| SidebarOrder.BeforeSpelled | apps/yaak-client/components/Sidebar.tsx:943-952 | smaller priorities first, then the older model, then the smaller id |
| SidebarOrder.TextLessSpelled | apps/yaak-client/components/Sidebar.tsx:948-951 | texts compare at the first unit in which they differ, and a text comes before its extensions |
| SidebarOrder.SortedUnique | apps/yaak-client/components/Sidebar.tsx:943-952 | a set of models has only one sorted order, so the sorting algorithm does not matter |
| SidebarOrder.SortModelsSorted | apps/yaak-client/components/Sidebar.tsx:943-952 | sorting models with distinct ids orders them by the comparator |
| SidebarDrag.TakeOutDragged | packages/ui/src/components/tree/Tree.tsx:683-694 | removing the dragged rows from the target leaves the others in order and moves the drop position to the same gap |
| SidebarDrag.ModelStore.HandleDragEnd | apps/yaak-client/components/Sidebar.tsx:183-221 | which models are written, with which numbers and folder, in both branches and with either neighbour missing |
| SidebarDrag.NumbersSpelled | apps/yaak-client/components/Sidebar.tsx:183-221 | by the fields of the models: with less than one between the neighbours everything is renumbered in steps of a thousand, otherwise the dragged models alone get equal steps of the gap; all of them are in the folder then, and nothing else changes |
| SidebarDrag.SpreadSorted | apps/yaak-client/components/Sidebar.tsx:209-220 | numbers spread over the gap sort strictly between the neighbours and in the dragged order |
| SidebarDrag.FolderAfterDrop | apps/yaak-client/components/Sidebar.tsx:194-221 | after a drop the folder holds exactly its children and the dragged items |
| SidebarDrag.DropIsKept | apps/yaak-client/components/Sidebar.tsx:194-221 | sorting the folder after a drop gives the children before the gap, the dragged items, and the children after it |
| SidebarDrag.FindDropPosition | packages/ui/src/components/tree/Tree.tsx:683-702 | what the tree hands over is the rest of the children, and the gap at which the hovered position now lies |
| SidebarDrag.DropLandsWhereHovered | packages/ui/src/components/tree/Tree.tsx:672-702 | the whole of a drag: after the drop and the sort, the dragged items stand at the hovered position, between what was before it and what was after it |
| SidebarTree.GroupByParent | apps/yaak-client/components/Sidebar.tsx:1009-1017 | the loop leaves in the list of each id exactly the models whose folder it is, or that are in no folder and whose workspace it is, in the order given |
| SidebarTree.GroupedSpelled | apps/yaak-client/components/Sidebar.tsx:892-901 | the list of its folder or workspace holds a model, and holds it once |
| SidebarTree.ListedWhereTheyHang | apps/yaak-client/components/Sidebar.tsx:892-901 | the same of the function that specifies the loop: a list holds a model if and only if the folder or, without a folder, the workspace in its fields is the id of the list |
| SidebarTree.PointersSpelled | apps/yaak-client/components/Sidebar.tsx:892-901 | a parent pointer leads to the id that these fields name, if it can have children |
| SidebarTree.BelowIffClimbs | apps/yaak-client/components/Sidebar.tsx:907-969 | to lie beneath an id is to reach it by steps from a model to the id that its fields name |
| SidebarTree.GitRollUp.Visit | apps/yaak-client/components/Sidebar.tsx:1019-1036 | the recursion returns and records the statuses of the subtree |
| SidebarTree.RollUpIsFlat | apps/yaak-client/components/Sidebar.tsx:1019-1058 | rolling up folder by folder equals one look at everything beneath |
| SidebarTree.SummarySpelled | apps/yaak-client/components/Sidebar.tsx:1051-1058 | nothing for no status, the status all agree on, and modified only for a mix or when modified itself is that status |
| SidebarTree.RecordedIsFlat | apps/yaak-client/components/Sidebar.tsx:1031-1034 | every model beneath is recorded with its flat status, and no other model is |
| SidebarTree.SidebarGitStatus | apps/yaak-client/components/Sidebar.tsx:1002-1043 | the whole record, by the fields of the models: for each model that hangs beneath the workspace nothing, the status common to all changes beneath it, or modified for a mix; ends although folders may form cycles elsewhere |
| SidebarFilter.SidebarWalk.Build | apps/yaak-client/components/Sidebar.tsx:913-969 | the recursion, which sorts the lists in place as it goes, makes the nodes of the subtree |
| SidebarFilter.MadeIsRight | apps/yaak-client/components/Sidebar.tsx:933-968 | a node is hidden if and only if no model in its subtree matches, and its children are its folder's models in order |
| SidebarFilter.RightIsShown | apps/yaak-client/components/Sidebar.tsx:892-968 | the same by the fields of the models: a node is hidden if and only if there is a query and it accepts no request that hangs beneath, and its children are the models that hang in it, by priority, age and id |
| SidebarFilter.BuildSidebar | apps/yaak-client/components/Sidebar.tsx:887-1000 | building reaches exactly the models that hang beneath the workspace in folders, each once, and every node is as the two rows above say |
| SseSummary.CandidateJsonPayloadsFromSseText | crates/yaak-sse/summary.ts:12-59 | the nested loops collect the candidates that the lemmas below speak of, for any text and any notion of valid JSON |
| SseSummary.ComputeSseSummary | crates/yaak-sse/summary.ts:61-75 | counts and joins the fragments found at the key path |
| SseBlocks.OneLine | crates/yaak-sse/summary.ts:19-32 | data: and a text, with a space between or without, both give the trimmed text, or nothing if that is empty |
| SseBlocks.DataBlock | crates/yaak-sse/summary.ts:18-32 | a block with data lines gives the texts they carry, joined by line feeds and trimmed, whatever other lines stand between them |
| SseBlocks.OtherBlock | crates/yaak-sse/summary.ts:34-55 | a block without data lines gives itself, trimmed, if that is JSON, and else exactly those of its trimmed lines that are JSON and neither comments nor event, id or retry fields in any case, in order |
| SseBlocks.SummarySpelled | crates/yaak-sse/summary.ts:61-75 | the count is the number of payloads in which the path finds something, and the summary is what it finds there, piece after piece |
| SseSummary.BlockPadding | crates/yaak-sse/summary.ts:17-55 | a line feed at either end of a block changes nothing read from it |
| SseSummary.ReadSeam | crates/yaak-sse/summary.ts:14-58 | once line ends are normalized, a blank line separates what is read before it from what is read after it |
| SseSummary.CandidatesJoin | crates/yaak-sse/summary.ts:12-59 | the candidates of two streams with a blank line between are those of the first, then those of the second, whatever their line ends |
| SseSummary.SummariesJoin | crates/yaak-sse/summary.ts:61-75 | counts add and summaries append |
| SseSummary.LineEndsAgree | crates/yaak-sse/summary.ts:13-13 | CR LF and CR instead of LF change nothing |
| Strings.TrimSpelled | crates/yaak-sse/summary.ts:27-34 | trimming takes white space off either end, all of it, and nothing else |
| Strings.CodesSpelled | packages/common-lib/jsonPath.ts:6-18 | the white space and line terminators of ECMA-262, code by code |
| RecentFilters.Trim | apps/yaak-client/hooks/useRecentFilters.ts:54-67 | the two backward loops over a set of evicted indexes leave what the lemmas below describe |
| RecentFilters.TrimmedKeeps | apps/yaak-client/hooks/useRecentFilters.ts:53-67 | trimming keeps the order, leaves exactly twenty of a longer list, and pinned entries survive unless more than twenty are pinned |
| RecentFilters.OnlyOldestDropped | apps/yaak-client/hooks/useRecentFilters.ts:58-61 | an unpinned entry is dropped only together with every older unpinned one |
| RecentFilters.NewerPinnedStay | apps/yaak-client/hooks/useRecentFilters.ts:62-64 | when pinned entries have to go too, the oldest go first |
| RecentFilters.AddLeavesRoom | apps/yaak-client/hooks/useRecentFilters.ts:62-64 | after an add the second eviction loop has nothing to do |
| RecentFilters.AddShowsIff | apps/yaak-client/hooks/useRecentFilters.ts:21-32 | exactly when an added filter is in the list afterwards, and that it then stands first |
| RecentFilters.AddSpelled | apps/yaak-client/hooks/useRecentFilters.ts:25-31 | entry by entry, what adding leaves: a filter that was there moves to the front with its pin, a new one comes to the front unpinned, and into a full list it comes in place of the last unpinned entry |
| RecentFilters.RemoveSpelled | apps/yaak-client/hooks/useRecentFilters.ts:37-40 | removing takes out the entry of that value and nothing else |
| RecentFilters.NewFilterLeavesNoTrace | apps/yaak-client/hooks/useRecentFilters.ts:21-32 | a run from the empty list to twenty pinned filters, after which an add changes nothing |
| RecentFilters.RecentFilterList.AddFilter | apps/yaak-client/hooks/useRecentFilters.ts:21-35 | the whole new list after an add, of a value trimmed first and with nothing done without a key or for an empty value |
| RecentFilters.RecentFilterList.RemoveFilter | apps/yaak-client/hooks/useRecentFilters.ts:37-40 | the whole new list after a removal |
| RecentFilters.RecentFilterList.TogglePin | apps/yaak-client/hooks/useRecentFilters.ts:42-46 | the whole new list after pinning or unpinning |
| RecentFilters.RecentFilterList.ClearFilters | apps/yaak-client/hooks/useRecentFilters.ts:48-48 | the list is empty |
| RecentFilters.PinnedSurvives | apps/yaak-client/hooks/useRecentFilters.ts:21-48 | one update takes a pinned filter away only by removing, unpinning or clearing |
| RecentFilters.RunStaysBounded | apps/yaak-client/hooks/useRecentFilters.ts:9-48 | over every run the values stay distinct and at most twenty |
| RecentFilters.PinsLast | apps/yaak-client/hooks/useRecentFilters.ts:21-48 | over every run a pinned filter lasts until it is removed, unpinned or cleared away |
| Theme.ThemeConfig.ConfigureThemeAndShow | apps/yaak-client/theme.ts:40-63 | a call takes the next generation and waits |
| Theme.ThemeConfig.OnPreferredAppearance | apps/yaak-client/theme.ts:35-38 | the new appearance is stored and one call starts |
| Theme.ThemeConfig.OnWindowAppearance | apps/yaak-client/theme.ts:24-33 | only a window appearance that differs from the guess starts a call |
| Theme.ThemeConfig.OnSettingsWritten | apps/yaak-client/theme.ts:50-59 | a write to the settings or a plugin starts a call |
| Theme.ThemeConfig.OnReject | apps/yaak-client/theme.ts:61-69 | a call whose settings or theme cannot be had ends without applying anything |
| Theme.ThemeConfig.OnSettings | apps/yaak-client/theme.ts:63-69 | the theme is requested for the appearance preferred at that moment |
| Theme.ThemeConfig.OnTheme | apps/yaak-client/theme.ts:71-80 | only the newest generation applies its theme |
| Theme.ThemeConfig.OnContinue | apps/yaak-client/theme.ts:40-48 | the window is shown after the first theme applied |
| Theme.ReachableInvariant | apps/yaak-client/theme.ts:18-81 | what holds in every interleaving of calls, resumptions and failures |
| Theme.OnlyCurrentApplies | apps/yaak-client/theme.ts:61-80 | a theme is applied only by the newest call and for the appearance preferred at that moment |
| Theme.SettledOnNewest | apps/yaak-client/theme.ts:18-81 | when the last call is done, the last theme applied is that call's, for the appearance preferred now, whatever became of older calls |
| Theme.EventsDecide | apps/yaak-client/theme.ts:18-63 | over every run, the appearance preferred is the one reported last by the events, or else the guess, and the calls started are one at first and one for each preferred appearance, each differing window appearance and each write |
| Theme.SettledOnReported | apps/yaak-client/theme.ts:18-81 | so the theme settled on is the one for the appearance reported last, applied by the last call that the events started |
| Theme.ShownIffApplied | apps/yaak-client/theme.ts:40-48 | when every call is done or has failed, the window was shown once if some call got its theme while it was the newest, and never otherwise |
| Theme.AppliedIffNewestGetsTheme | apps/yaak-client/theme.ts:61-80 | over every run, a theme is applied if and only if some call gets its theme while its generation is the current one |
| Theme.WindowNeverShown | apps/yaak-client/theme.ts:40-73 | a run in which the newest call fails and the older one, which succeeds, leaves the window hidden |
| Theme.ShownOnceAfterApply | apps/yaak-client/theme.ts:40-48 | the window is shown at most once, and not before a theme was applied |
| Inheritance.InheritedHeaders | apps/yaak-client/hooks/useInheritedHeaders.ts:17-53 | one header per name in the order of first use, each the last of its name; the defaults for a workspace and nothing for no model |
| Inheritance.CollectHeaders | apps/yaak-client/hooks/useInheritedHeaders.ts:23-42 | the recursion lists everything above a model, outermost first |
| Inheritance.AllHeadersSpelled | apps/yaak-client/hooks/useInheritedHeaders.ts:23-42 | the list is the headers of the models passed, outermost first, behind the defaults and once more the workspace's own if the walk ends at a workspace |
| Inheritance.LastNamedSpelled | apps/yaak-client/hooks/useInheritedHeaders.ts:46-50 | of several headers of one name the last counts |
| Inheritance.NamesSpelled | apps/yaak-client/hooks/useInheritedHeaders.ts:46-52 | the names stand in the order of their first use |
| Inheritance.LookUpsSpelled | apps/yaak-client/hooks/useModelAncestors.ts:22-38 | by the fields of the models, which parent each of the two look-ups finds: the first with the id that the folder id or the workspace id names |
| Inheritance.InheritedIsNearest | apps/yaak-client/hooks/useInheritedHeaders.ts:23-50 | the header inherited for a name is the last one in the nearest ancestor that has one, else the last default, though workspace headers are listed twice |
| Inheritance.NearestSpelled | apps/yaak-client/hooks/useInheritedHeaders.ts:23-50 | what nearest means: the last of its name in the first ancestor that has one, and the last default only if no ancestor has one |
| Inheritance.ShownHeadersAreNearest | apps/yaak-client/hooks/useInheritedHeaders.ts:44-52 | a header is shown if and only if it is the nearest of its name, and names are shown once |
| Inheritance.WalksEndTogether | apps/yaak-client/hooks/useModelAncestors.ts:15-41 | on a well-formed library the walk for headers and the walk for ancestors stop after the same steps |
| Inheritance.ParentsAgreeIff | apps/yaak-client/hooks/useInheritedHeaders.ts:30-33 | on any library, exactly when that look-up finds the same parent as the list of ancestors |
| Inheritance.WalksAgreeIff | apps/yaak-client/hooks/useInheritedHeaders.ts:23-42 | on any library, the walk for headers passes exactly the listed ancestors if and only if that condition holds at the model and at each model passed |
| Inheritance.LostFolderLosesHeaders | apps/yaak-client/hooks/useInheritedHeaders.ts:35-38 | a lost folder leaves no headers, while the list of ancestors falls back on the workspace |
| Inheritance.RequestInLostFolder | apps/yaak-client/hooks/useModelAncestors.ts:22-38 | a library of one workspace in which the two look-ups part: the request lists the workspace as its ancestor and inherits no header, not even a default |
| Inheritance.AuthenticationIsFirst | apps/yaak-client/hooks/useInheritedAuthentication.ts:18-45 | the inherited authentication is the first in the model and its ancestors, nearest first |
| Inheritance.FirstWithAuthSpelled | apps/yaak-client/hooks/useInheritedAuthentication.ts:18-45 | what first means: the model with an authentication before which no other has one |

## Left out

- SumPrecise.SumPrecise: exponents have no upper end in the model; the ghost result `peak` is the largest magnitude on the way, and where it reaches 2^1024 the hardware would overflow and the code, as its comment says, is not exact.
- Tarball.ExtractFileFromTarball: asks that the loop ends, because a method here must return; `Tarball.ArchiveAnswers` says for which archives it does.
- Tarball.WalkEntries: says nothing of a file, or an end of the entries, beyond the first 2^31 bytes, which the bitwise operators do not reach (`Tarball.TurnAtEntry`).
- Tarball.ArchiveAnswers: the same first 2^31 bytes.
- Debounce.EagerDebounce.Call: the function is taken to return its promise without throwing and without calling the trigger before it returns; delays are not modelled, only that an armed timer may fire.
- Theme.ThemeConfig.OnTheme: the settings, the theme's colours and what setWindowTheme does are not modelled, only which call applies a theme and for which appearance.
- RecentFilters.RecentFilterList.AddFilter: each update reads the state the one before it wrote.
- SidebarDrag.ModelStore.HandleDragEnd: numbers are exact reals, so the rounding of ever smaller gaps is not seen; a failed write is not modelled.
- SidebarDrag.SpreadSorted: the same exact reals.
- SidebarDrag.DropIsKept: the same exact reals.
- SidebarDrag.DropLandsWhereHovered: the same exact reals.
- SidebarFilter.BuildSidebar: returns the tree; the field definitions and suggestions that the source returns beside it are not modelled.
- SidebarFilter.SidebarWalk.Build: the query is the set of requests it accepts; parsing it, the fields of a model, and the suggestions collected on the way are not modelled.
- SidebarTree.GitRollUp.Visit: takes the shape of the tree as ghost arguments to show that it ends; the record is a map.
- SseSummary.ComputeSseSummary: valid JSON and the value at a key path are arbitrary functions of the payload.
- SchemaExample.BuildValue: property names that JavaScript treats specially (`__proto__`, and integer-like names, which move to the front) keep their place here, and the current time is a parameter.
- SchemaExample.ExampleIsBounded: counts enum members as single values, which is what the gRPC layer emits; an enum of nested values would be copied whole.
- ImportRuns.RunKeepsFolders: each click sees the state the one before it left, parent and child are planned for one workspace, and ids are unique, as the plan is made; what committing does with the plan is not modelled.
- Inheritance.InheritedHeaders: lower-casing of names is an arbitrary function, and a hierarchy with a cycle of folders, on which the code recurses without end, is outside its domain.
- Inheritance.CollectHeaders: the same cycles are outside its domain.
- Rendering, labels, counts and dialogs of the import preview; loading and committing a plan.
- Megabyte display and parsing, and the early-exit look-up of inherited settings, in the model settings editor: short arithmetic and a short loop.
- The environment list's drag handler, most-recently-used ids, the plain debounce, cookie dialogs, hotkeys and sync retries: small, or repeats of what is here.
- The native engine, plugins, and everything that talks to the network or the file system.
