# demo-inspector-universal, modelled in Dafny

demo-inspector-universal is a browser overlay. It finds the parts of a
storefront page and highlights them. Three kinds of page structure are
covered:

- **EDS blocks and slots** (`data-block-name`, `data-slot`,
  `data-slot-key`), which it arranges into a tree;
- **mesh data sources** (`data-inspector-source`), which it groups and
  tints;
- **GraphQL queries**, which it logs.

This project models the logic of that overlay and proves what it
promises. Nothing of the browser is run. The page is a value: a `Dom.Host`
whose nodes are numbered in document (pre-order) order, each with a parent,
attributes, tag, text, inline and computed style, and rectangle. Whatever
the browser would compute (`getComputedStyle`, `getBoundingClientRect`,
`offsetWidth`, `textContent`) is data on the node.

The files follow the repository's modules:

| file | models |
|---|---|
| `common.dfy` | string and sequence helpers: JavaScript `trim`, `includes`, `toLowerCase`, decimal rendering, `filter`, `map` |
| `dom.dfy` | the page: containment, `querySelector`, `querySelectorAll`, `children` |
| `scanner_eds.dfy` | `src/scanner-eds.js`: the visibility policy, the nearest-ancestor walks, and `scanEds`. The builders are an `EdsScanner` class whose methods update the two processed sets; ids come from an `IdMinter` class with the four counters |
| `scanner_eds_facts.dfy` | closed forms of the block scans, what each builder marks, and the shape of the trees they return |
| `scanner_eds_result.dfy` | what `scanEds` returns: the roots, the standalone slots and their container, the ids, and the rule that no slot and no block is attached twice |
| `highlighter.dfy` | `src/highlighter.js` as state-transition functions over a `State`: the page's inline styles, the four maps, and the attached labels; plus overlap, label placement, the same-source filter and the round trips |
| `highlighter_object.dfy` | `createHighlighter()` as a `Highlighter` class over a mutable `Document`; each method is proved against the function of the same name |
| `scanner_mesh.dfy` | `src/scanner-mesh.js`: `detectSource`, the query tracker (a class), the query-name pattern, and `scanMeshSources` |
| `state.dfy` | `src/state.js`: a `Store` class with `state`, `listeners`, the persisted text and a log of listener calls |
| `panel.dfy` | the pure helpers of `src/panel.js`: `escapeHtml`, mode-list parsing, and list toggling; module `PanelTree` holds the id lookup and the id collection over the scan tree |
| `panel_object.dfy` | the panel element's state-changing helpers: the three toggle handlers, `_enforceAvailableMode`, and `_scanEdsDom` |

Where the repository's own description and its code disagree, the model
follows the code:

- In `buildSlotTree` an invisible slot returns `null` before it is added to
  `processedSlots` (src/scanner-eds.js:151-156). So it is not marked
  processed, and a later pass may still see it.
- `counts.blocks` counts the synthetic "Standalone Slots" container
  (src/scanner-eds.js:334-337). A page with only stray slots therefore
  reports one block, not zero.
- `highlightMeshSource` overwrites an element's mesh snapshot every time
  (src/highlighter.js:109-115). It is not kept from the first
  highlighting; `HighlightMeshStep` does the same.
- `filterNestedSameSource` drops an element when any DOM ancestor carries
  the same `data-inspector-source` value (src/highlighter.js:61-73),
  whether or not that ancestor is in the list.

## Model

| member | source | states |
|---|---|---|
| Common.TrimNonEmptyIff | src/panel.js:99 | `trim()` leaves something exactly when the string holds a character that is not JavaScript white space |
| Common.TrimmedHasNoOuterWhitespace | src/panel.js:99 | a trimmed string neither starts nor ends with white space |
| Common.DecimalInjective | src/scanner-eds.js:324-338 | distinct counter values render to distinct decimal strings |
| Common.PrefixedDecimalInjective | src/scanner-eds.js:324-338 | `block-${n}` and `slot-${n}` determine their number |
| Dom.AncestorChain | src/scanner-eds.js:101-125 | the ancestors of an element form a chain: any two are related by containment |
| Dom.QuerySelectorAllSpec | src/scanner-eds.js:141-143 | `querySelectorAll` returns exactly the matching strict descendants, each once, in document order |
| Dom.QuerySelectorSpec | src/highlighter.js:136-138 | `querySelector` finds something exactly when some strict descendant matches |
| Dom.QuerySelectorFirst | src/highlighter.js:136-138 | what `querySelector` finds matches, and no earlier strict descendant does |
| Dom.ChildrenFromComplete | src/scanner-eds.js:36-45 | every element whose parent is the node is among its `children` |
| ScannerEds.AnyChildShows | src/scanner-eds.js:36-45 | the loop over `children` succeeds exactly when some child has non-zero width and height and is not `display:none`, `visibility:hidden` or opacity `"0"` |
| ScannerEds.HasVisibleContentSpec | src/scanner-eds.js:21-48 | an element has visible content exactly when its trimmed text is non-empty, or a media or form element lies below it, or its background image is not `none`, or a child shows |
| ScannerEds.ChromeNameIsSubstring | src/scanner-eds.js:69-71 | a block counts as header or footer exactly when its lower-cased name contains "header" or "footer" |
| ScannerEds.VisibilityPolicy | src/scanner-eds.js:58-85 | the four cases. With `showEmptySlots` every element is visible. Otherwise `display:none`, `visibility:hidden` or opacity "0" hides it, header and footer blocks included. A header or footer block is visible exactly when its width or height is positive. Any other element needs non-zero width and height and visible content |
| ScannerEds.CompareDomOrder | src/scanner-eds.js:92-98 | negative exactly when the first element comes first in document order, zero exactly on the same element, positive otherwise |
| ScannerEds.CompareDomOrderIsTotalOrder | src/scanner-eds.js:92-98 | the comparator is antisymmetric and transitive, so the sorts are well defined |
| ScannerEds.ParentBlockSpec | src/scanner-eds.js:101-110 | the upward walk returns a block strictly above the element, below every other block above it; it returns none exactly when no strict ancestor is a block |
| ScannerEds.GetDirectParentBlock | src/scanner-eds.js:101-110 | the `while` loop over `parentElement` computes that nearest block |
| ScannerEds.ParentSlotSpec | src/scanner-eds.js:113-125 | the walk bounded by the block returns the nearest slot strictly between the element and the block, and none exactly when no slot lies between them |
| ScannerEds.GetDirectParentSlot | src/scanner-eds.js:113-125 | the bounded `while` loop computes that nearest slot |
| ScannerEds.SiblingBlocksNotNested | src/scanner-eds.js:227-243 | two blocks with the same nearest block never lie one inside the other |
| ScannerEds.SiblingSlotsNotNested | src/scanner-eds.js:206-222 | two slots with the same nearest slot inside a block never lie one inside the other |
| ScannerEds.NestedParentIsBlock | src/scanner-eds.js:175-190 | a block found inside a slot has the slot's block as its nearest block |
| ScannerEds.ChildSlotElsSpec | src/scanner-eds.js:151-171 | a slot's child-slot candidates are exactly the unprocessed slots whose nearest slot inside the block is this one and with no other block in between, in document order |
| ScannerEds.TopLevelSpecIff | src/scanner-eds.js:270-277 | the roots are exactly the visible blocks under the root with no block ancestor, in document order |
| ScannerEds.StandaloneSpecIff | src/scanner-eds.js:282-303 | the standalone candidates are exactly the visible slots under the root that no block under the root contains, in document order |
| ScannerEds.SelectedAreBlocks | src/scanner-eds.js:141-143 | everything the block selector returns has a block name |
| ScannerEds.EdsScanner.BuildSlotTree | src/scanner-eds.js:150-201 | `buildSlotTree`: its result and the new processed sets are the `SlotTree` specification of the old ones |
| ScannerEds.EdsScanner.BuildChildSlots | src/scanner-eds.js:173 | the map over the child-slot candidates, dropping the `null`s, agrees with `ChildSlots` |
| ScannerEds.EdsScanner.FindBlocksInSlot | src/scanner-eds.js:175-190 | the forEach collecting the blocks nested in a slot agrees with `NestedScan` |
| ScannerEds.EdsScanner.VisitNestedBlock | src/scanner-eds.js:176-189 | its callback agrees with `NestedStep` on one block |
| ScannerEds.EdsScanner.BuildNestedBlocks | src/scanner-eds.js:192 | building the nested blocks at depth 0 agrees with `NestedBlocks` |
| ScannerEds.EdsScanner.GetDirectSlots | src/scanner-eds.js:206-222 | `getDirectSlots` agrees with `DirectSlots` |
| ScannerEds.EdsScanner.VisitDirectSlot | src/scanner-eds.js:211-220 | its callback agrees with `DirectSlotsOf` on one slot |
| ScannerEds.EdsScanner.GetDirectChildBlocks | src/scanner-eds.js:227-243 | `getDirectChildBlocks` agrees with `ChildBlockScan` |
| ScannerEds.EdsScanner.VisitChildBlock | src/scanner-eds.js:229-240 | its callback agrees with `ChildBlockStep` on one block |
| ScannerEds.EdsScanner.BuildBlockTree | src/scanner-eds.js:248-265 | `buildBlockTree` agrees with `BlockTree` |
| ScannerEds.EdsScanner.BuildChildBlocks | src/scanner-eds.js:259-262 | the child blocks are built at depth+1, agreeing with `ChildBlocks` |
| ScannerEds.EdsScanner.BuildTopBlocks | src/scanner-eds.js:279 | the roots are built at depth 0, agreeing with `TopBlocks` |
| ScannerEds.EdsScanner.CollectStandalone | src/scanner-eds.js:282-303 | the forEach over all slots agrees with `Standalone` |
| ScannerEds.EdsScanner.VisitStandaloneSlot | src/scanner-eds.js:285-302 | its callback agrees with one step of `Standalone` |
| ScannerEds.IdMinter.AssignSlotIds | src/scanner-eds.js:323-332 | the imperative pass with `slotIndex` and `totalSlots` gives the slots and counters of `MintSlots` |
| ScannerEds.IdMinter.AssignIds | src/scanner-eds.js:334-345 | the imperative pass with the four counters gives the blocks and counters of `MintBlocks` |
| ScannerEds.TopsAreBlocks | src/scanner-eds.js:270-277 | the top-level filter keeps only blocks under the root |
| ScannerEds.ScanEds | src/scanner-eds.js:138-351 | `scanEds` builds the roots, appends the container when there are standalone slots, mints ids and reports the counters |
| ScannerEdsFacts.NestedScanSpec | src/scanner-eds.js:175-190 | the forEach keeps, in document order, the blocks whose verdict is Take, and marks exactly those whose verdict is Hidden |
| ScannerEdsFacts.ChildBlockScanSpec | src/scanner-eds.js:227-243 | the same closed form for the forEach of `getDirectChildBlocks` |
| ScannerEdsFacts.NestedScanFacts | src/scanner-eds.js:175-190 | a block nested in a slot is a visible, unprocessed block inside the slot whose nearest block is the slot's block and with no slot between |
| ScannerEdsFacts.ChildBlockScanFacts | src/scanner-eds.js:227-243 | a direct child block is a visible, unprocessed block whose nearest block is the parent |
| ScannerEdsFacts.SlotNestedFrame | src/scanner-eds.js:175-192 | the nested-block part of `buildSlotTree` marks only inside the slot |
| ScannerEdsFacts.SlotTreeShape | src/scanner-eds.js:150-201 | the slot tree is shaped: the slot at the top, child slots nested in it in document order, nested blocks at depth 0 below it |
| ScannerEdsFacts.SlotNestedShape | src/scanner-eds.js:175-192 | the blocks nested in a slot are shaped trees at depth 0 |
| ScannerEdsFacts.BlockTreeShape | src/scanner-eds.js:248-265 | a block tree is shaped: children at depth+1 lie in their block, in document order; slots lie in their block |
| ScannerEdsResult.MintBlocksNumbers | src/scanner-eds.js:318-345 | `assignIds` stamps `block-n` and `slot-n` in the order of the pre-order traversal: block, its slot subtrees (child slots, then nested blocks), its child blocks |
| ScannerEdsResult.NumberedIdsDistinct | src/scanner-eds.js:318-345 | numbered ids in one traversal: every entry has an id and no two share one |
| ScannerEdsResult.SlotTreeClaims | src/scanner-eds.js:150-201 | `buildSlotTree` attaches each slot it returns once, each one newly processed |
| ScannerEdsResult.ScanIdsNumbered | src/scanner-eds.js:318-351 | ids are `block-0, block-1, …` and `slot-0, slot-1, …` in pre-order. `counts` equals the number of each stamped. Nothing but the ids differs from the built trees, the container included |
| ScannerEdsResult.ScanIdsDistinct | src/scanner-eds.js:318-351 | every block and slot `scanEds` returns has an id and no two share one |
| ScannerEdsResult.ForestSlotsOnce | src/scanner-eds.js:150-303 | the builders and the container never attach one slot element twice |
| ScannerEdsResult.ScanSlotsOnce | src/scanner-eds.js:138-351 | no slot element appears twice in what `scanEds` returns: not in two blocks, not under two slots, not both in a block and among the standalone slots |
| ScannerEdsResult.SlotTreeBlocks | src/scanner-eds.js:150-201 | `buildSlotTree` attaches each block it returns once, each newly processed |
| ScannerEdsResult.BlockTreeBlocks | src/scanner-eds.js:248-265 | `buildBlockTree` on an unprocessed block attaches each block of its tree once, each newly processed |
| ScannerEdsResult.StandaloneHasNoBlocks | src/scanner-eds.js:292-299 | standalone slots are leaves: no block lies below them |
| ScannerEdsResult.TopsUnnested | src/scanner-eds.js:270-277 | no root lies inside another |
| ScannerEdsResult.ForestBlocksOnce | src/scanner-eds.js:175-277 | the builders never attach one block twice: a block nested in a slot is not also a child of the slot's block, and no block has two parents |
| ScannerEdsResult.ScanBlocksOnce | src/scanner-eds.js:138-351 | run on the document body, `scanEds` returns no block element twice, the container included |
| ScannerEdsResult.TopBlocksShape | src/scanner-eds.js:270-279 | one shaped tree at depth 0 per root, in order |
| ScannerEdsResult.ScanRoots | src/scanner-eds.js:248-279 | the roots of `scanEds` are one shaped block tree at depth 0 for each visible block under the root with no block ancestor, in document order |
| ScannerEdsResult.StandaloneFilter | src/scanner-eds.js:282-303 | the forEach keeps exactly the candidates the standalone filter keeps, and marks only them |
| ScannerEdsResult.ScanStandalone | src/scanner-eds.js:282-303 | the standalone slots are exactly the visible slots under the root that no block under the root contains, in document order, each without child slots or nested blocks |
| ScannerEdsResult.ScanContainer | src/scanner-eds.js:305-313 | the container is appended after the roots exactly when there are standalone slots. It is named "Standalone Slots", sits at the body at depth 0, has no children, and holds the standalone slots, which the result also lists |
| ScannerEdsResult.EmptyRootScan | src/scanner-eds.js:138-351 | a root with nothing below it gives no blocks, no standalone slots and zero counts |
| Highlight.RectsOverlapSymmetric | src/highlighter.js:275-282 | the overlap test is symmetric |
| Highlight.RectsOverlapIffCommonPoint | src/highlighter.js:275-282 | for proper rectangles the test holds exactly when they share a point, boundary included, so touching rectangles overlap |
| Highlight.FirstFree | src/highlighter.js:350-371 | the first candidate that collides with no obstacle, if any |
| Highlight.LabelPlacement | src/highlighter.js:291-372 | "above" whenever it is free. Else the first free fallback of `[right, below, left]`, `[below, left, right]` or `[below, right, left]`, chosen by the space on either side; each earlier one collides. "below" when all collide. Obstacles are the labels grown by 6, and a zero-size label counts as 60 by 20 |
| Highlight.FreeWhenPossible | src/highlighter.js:291-372 | the chosen rectangle is free whenever any of the four candidates is |
| Highlight.KeepOutermostSpec | src/highlighter.js:61-73 | the filter keeps exactly the elements with no ancestor carrying the same `data-inspector-source` value |
| Highlight.HasSameSourceAncestor | src/highlighter.js:63-71 | the callback's `while` loop finds an ancestor with the same value exactly when one exists |
| Highlight.FilterNestedSameSource | src/highlighter.js:61-73 | the method gives the result of the filter |
| Highlight.FilterNestedMembers | src/highlighter.js:61-73 | what the filter returns is a subsequence of its input, in order, and exactly the outermost elements |
| Highlight.RestoreSwatchesAt | src/highlighter.js:47-52 | restoring swatches shows each listed swatch's `#` colour and touches no other element |
| Highlight.NeedsInsetShadowReadsBackground | src/highlighter.js:78-97 | the inset-shadow decision reads only the element's own inline background |
| Highlight.LabelsAfterCreate | src/highlighter.js:382-432 | a fresh label for an id, replacing its old one, keeps one label per id |
| Highlight.EdsRoundTrip | src/highlighter.js:220-266 | highlighting then clearing one id restores border, outline, backgroundColor, position and zIndex, takes the id out of the three EDS maps, and keeps attached the labels attached before, less the id's own |
| Highlight.HighlightEdsFields | src/highlighter.js:220-241 | field by field, what `highlightEdsItem` changes |
| Highlight.ClearEdsFields | src/highlighter.js:248-266 | field by field, what `clearEdsHighlight` changes |
| Highlight.EdsRoundTripFresh | src/highlighter.js:220-266 | on an id not highlighted before, the round trip leaves everything as it was except the label counter |
| Highlight.ClearEdsUnknown | src/highlighter.js:248-266 | clearing an id with no highlight and no label changes nothing |
| Highlight.CreateLabelSpec | src/highlighter.js:382-432 | `createLabel` detaches the id's previous label and attaches a new one. It records the rectangle: top at least scrollTop+4, left at least 4, the measured size or 60 by 20. Other ids' labels are left alone |
| Highlight.HighlightEdsKeepsInv | src/highlighter.js:220-241 | `highlightEdsItem` keeps the invariant; the id ends up with exactly one attached label |
| Highlight.HighlightEdsKeepsEdsKeys | src/highlighter.js:221-228 | the snapshot keys stay in insertion order |
| Highlight.ClearEdsKeepsInv | src/highlighter.js:248-266 | `clearEdsHighlight` keeps the invariant |
| Highlight.HighlightMeshAllSaves | src/highlighter.js:105-175 | `highlightMeshSource` keeps a snapshot for every element it highlighted, on top of those it had |
| Highlight.ClearMeshKeepsInv | src/highlighter.js:180-206 | `clearMeshHighlights` keeps the invariant |
| Highlight.ClearEdsAllSpec | src/highlighter.js:441-452 | clearing a list of ids keeps the invariant and removes exactly those ids |
| Highlight.ClearAllSpec | src/highlighter.js:441-452 | `clearAll` leaves the four maps empty and no label attached, and keeps the invariant |
| Highlight.MeshRoundTripSwatch | src/highlighter.js:47-52 | on a swatch the snapshot is put back, but its background shows its own colour |
| Highlight.MeshRoundTripInset | src/highlighter.js:129-148 | on an element that gets the inset shadow everything is put back, the nested input's box shadow included; nested swatches show their own colour |
| Highlight.MeshRoundTripTint | src/highlighter.js:149-152 | on an element that gets the tint everything is put back |
| Highlight.MeshRoundTrip | src/highlighter.js:105-206 | highlighting one element with nothing else highlighted, then clearing, gives every element its inline style back. It drops the saved box shadows and the snapshot. Swatches, the element itself or nested in it, show their own colour |
| HighlighterObject.Highlighter.constructor | src/highlighter.js:25-33 | `createHighlighter()`: four empty maps over the page |
| HighlighterObject.Highlighter.RestoreSwatch | src/highlighter.js:47-52 | `restoreSwatchColor` agrees with `RestoreSwatchColor` |
| HighlighterObject.Highlighter.RestoreNestedSwatches | src/highlighter.js:172-173 | the forEach over the nested swatches agrees with `RestoreSwatches` |
| HighlighterObject.Highlighter.HighlightMeshElement | src/highlighter.js:109-173 | one pass of the loop agrees with `HighlightMeshStep` |
| HighlighterObject.Highlighter.HighlightMeshSource | src/highlighter.js:105-175 | `highlightMeshSource` agrees with `HighlightMesh` and keeps the invariant |
| HighlighterObject.Highlighter.HighlightEach | src/highlighter.js:108-174 | the loop over the filtered elements agrees with `HighlightMeshAll` |
| HighlighterObject.Highlighter.ClearMeshElement | src/highlighter.js:181-203 | one pass of the clearing loop agrees with `ClearMeshOne` |
| HighlighterObject.Highlighter.ClearMeshHighlights | src/highlighter.js:180-206 | `clearMeshHighlights` agrees with `ClearMesh`, keeps the invariant, and leaves the map empty |
| HighlighterObject.Highlighter.RestoreMeshElements | src/highlighter.js:181-205 | the loop over the snapshots in insertion order, then `clear()` |
| HighlighterObject.Highlighter.RestoreMeshLoop | src/highlighter.js:181-204 | each element of the order gets its snapshot back |
| HighlighterObject.Highlighter.CreateLabel | src/highlighter.js:382-432 | agrees with `Highlight.CreateLabel` |
| HighlighterObject.Highlighter.HighlightEdsItem | src/highlighter.js:220-241 | agrees with `HighlightEds` and keeps the invariant |
| HighlighterObject.Highlighter.SaveEdsStyle | src/highlighter.js:221-237 | agrees with `SaveEds` |
| HighlighterObject.Highlighter.ClearEdsHighlight | src/highlighter.js:248-266 | agrees with `ClearEds` and keeps the invariant |
| HighlighterObject.Highlighter.RestoreEdsItem | src/highlighter.js:249-265 | the snapshot put back, the label detached, the id dropped from the three maps |
| HighlighterObject.Highlighter.ClearAll | src/highlighter.js:441-452 | `clearAll()`: every map empty and every label detached |
| HighlighterObject.Highlighter.ClearEverything | src/highlighter.js:442-451 | mesh highlights, then every EDS item in insertion order, then any label left |
| HighlighterObject.Highlighter.RestoreEdsItems | src/highlighter.js:443-445 | the loop over a copy of the EDS keys agrees with `ClearEdsAll` |
| HighlighterObject.Highlighter.Destroy | src/highlighter.js:457-463 | `destroy()` runs `clearAll()`, then releases the maps: no label stays attached |
| ScannerMesh.DetectSourceSpec | src/scanner-mesh.js:20-50 | the first matching rule wins: catalog whenever a catalog rule fires, else search whenever the search rule fires, else commerce |
| ScannerMesh.CommerceMarkersIrrelevant | src/scanner-mesh.js:39-49 | the commerce rule only restates the default: commerce markers never change the outcome |
| ScannerMesh.TrackedIsNewest | src/scanner-mesh.js:61-66 | the log holds the `maxQueries` newest entries of the history, newest first: older ones are dropped, none is reordered |
| ScannerMesh.QueryTracker.constructor | src/scanner-mesh.js:58-60 | the log starts empty |
| ScannerMesh.QueryTracker.TrackQuery | src/scanner-mesh.js:61-66 | the new entry goes first, the length is min(old+1, maxQueries), and the oldest entries are cut |
| ScannerMesh.QueryTracker.GetQueries | src/scanner-mesh.js:68-70 | the first min(limit, length) entries, with 10 as the default limit; the log is unchanged |
| ScannerMesh.QueryTracker.ClearQueries | src/scanner-mesh.js:72-74 | the log becomes empty |
| ScannerMesh.MatchAtSpec | src/scanner-mesh.js:98 | the computed match at a position is the one the pattern `query\s+(\w+)` defines; there is at most one capture there |
| ScannerMesh.FirstMatchSpec | src/scanner-mesh.js:98 | the leftmost match: the capture at the least matching position, or nothing when no position matches |
| ScannerMesh.QueryNameSpec | src/scanner-mesh.js:98-99 | the operation name is the word captured at the leftmost match, and "Anonymous" exactly when the pattern matches nowhere |
| ScannerMesh.GroupKeys | src/scanner-mesh.js:130-143 | one key per source id present, each once, in order of first appearance |
| ScannerMesh.GroupContents | src/scanner-mesh.js:130-143 | under each key exactly the elements carrying that id, in document order |
| ScannerMesh.GroupAllSpec | src/scanner-mesh.js:130-143 | keys, contents, no empty group, and an empty map when nothing matches |
| ScannerMesh.GroupedOnce | src/scanner-mesh.js:130-143 | every element lands in exactly one group, its own id's |
| ScannerMesh.ScanMeshSources | src/scanner-mesh.js:130-143 | the loop building the map agrees with `GroupAll` over the matching elements |
| State.MergeChangesIff | src/state.js:28-35 | `{ ...state, ...partial }` equals `state` exactly when no key of the partial changes value |
| State.MergeOverrides | src/state.js:45 | the partial's keys take its values; every other key keeps the state's |
| State.NotifiedOnce | src/state.js:47-49 | one round of notifications reaches every subscribed listener exactly once and no other |
| State.CopyValue | src/state.js:70-72 | an array is copied into a new array with the same contents; a scalar is kept |
| State.ShallowCopy | src/state.js:68-74 | same keys and contents, every top-level array a new one |
| State.Revive | src/state.js:15-17 | a parsed value encodes back to its text, and arrays come back as new arrays |
| State.LoadState | src/state.js:12-22 | stored values override the defaults; missing or corrupt storage gives exactly the defaults |
| State.Store.constructor | src/state.js:8-10 | the state is `loadState`'s, with no listeners and nothing written |
| State.Store.HasChanged | src/state.js:28-35 | true exactly when some key of the partial has a value not identical to the state's |
| State.Store.GetState | src/state.js:37-39 | a copy: same contents, arrays new, so mutating it does not reach the store |
| State.Store.Persist | src/state.js:24-26 | the written text is the encoding of the state |
| State.Store.SetState | src/state.js:41-50 | without a change nothing happens: no state change, no write, no call. Otherwise the state is merged, written out, and every listener gets one call with the new state |
| State.Store.NotifyAll | src/state.js:47-49 | one call per listener, in order, with the persisted state |
| State.Store.NotifyOne | src/state.js:48 | one call to one listener |
| State.Store.Subscribe | src/state.js:52-55 | the listener joins the set; adding one already there changes nothing |
| State.Store.Unsubscribe | src/state.js:54 | the listener leaves the set, and the others stay |
| State.Store.Destroy | src/state.js:57-59 | no listener remains, so no one is notified after |
| Panel.ReplaceChainChar | src/panel.js:45-50 | on one character the chain of replacements gives that character's escape: no later replacement touches an earlier one's entity |
| Panel.EscapeHtmlPerChar | src/panel.js:43-51 | `escapeHtml` escapes each character on its own |
| Panel.EscapeHtmlSafe | src/panel.js:43-51 | the output holds no `<`, `>`, `"` or `'`, and every `&` begins one of the five entities |
| Panel.EscapeHtmlRoundTrip | src/panel.js:43-51 | decoding the five entities gives the string back |
| Panel.SplitParts | src/panel.js:99 | no part of `split(',')` holds a comma |
| Panel.SplitJoin | src/panel.js:99 | joining the parts with the separator gives the string back |
| Panel.AvailableModesMembers | src/panel.js:96-100 | a mode is available exactly when it is a non-empty trimmed part of the attribute, or one of `mesh` and `eds` without an attribute |
| Panel.AvailableModesClean | src/panel.js:96-100 | every available mode is non-empty, holds no comma, and has no white space at either end |
| Panel.IndexOf | src/panel.js:648 | `indexOf`: the first position holding the item, or -1 exactly when it is absent |
| Panel.ToggleFlips | src/panel.js:645-656 | toggling flips the item's membership and no other's; a list without repeats stays without repeats |
| Panel.ToggleCounts | src/panel.js:645-656 | toggling a present item removes one copy; toggling an absent item adds one |
| Panel.ToggleKeepsOthers | src/panel.js:645-656 | the other entries keep their order |
| Panel.ToggleTwice | src/panel.js:645-668 | toggling an absent item twice gives the list back |
| PanelTree.CollectedIsFlatPruned | src/panel.js:742-762 | the panel walks the id pass's traversal of a pruned tree: same order, with blocks nested in slots cut to leaves |
| PanelTree.IndexWithIdUnique | src/panel.js:715-740 | the first index is the one position with the id and no earlier match |
| PanelTree.FindElementById | src/panel.js:715-728 | `_findElementById` returns the element of the first entry with the id, in the order the panel walks, or `null` |
| PanelTree.FindInSlot | src/panel.js:730-740 | `_findInSlot` looks at the slot, its child slot trees, then the nested blocks, each nested block on its own id only |
| PanelTree.CollectAllIds | src/panel.js:742-752 | `_collectAllIds` appends each block, its slot subtrees, then its child blocks, each tagged `block` or `slot` |
| PanelTree.CollectSlotIds | src/panel.js:754-762 | `_collectSlotIds` appends the slot, its child slot trees, then its nested blocks with no subtrees |
| PanelTree.CollectedBlocksBelow | src/panel.js:715-740 | every element the panel's walk reaches is an element of the tree, so `_findElementById` only returns nodes the scan holds |
| PanelTree.NestedSlotIsMissed | src/panel.js:715-740 | on a block nested in a slot that has its own slot, the id pass stamps "slot-1" and the tree lists it, but `_findElementById` never finds it |
| PanelTree.FindElementByIdDeep | src/panel.js:715-728 | corrected lookup: the element of the first entry with the id, in the id pass's own order, so every stamped id is found |
| PanelTree.FindInSlotDeep | src/panel.js:730-740 | corrected `_findInSlot`: a nested block is searched with its slots and child blocks |
| PanelTree.CollectAllIdsDeep | src/panel.js:742-752 | corrected collection: every entry of the tree, in the id pass's order |
| PanelTree.CollectSlotIdsDeep | src/panel.js:754-762 | corrected `_collectSlotIds`: nested blocks contribute their whole subtrees |
| PanelObject.EnforcedMode | src/panel.js:103-109 | afterwards the active mode is one the attribute offers, or `mesh` when it offers none. An available mode is left alone, and nothing else changes |
| PanelObject.EnforcedIdempotent | src/panel.js:103-109 | running the check twice is running it once |
| PanelObject.EnforcedDefault | src/panel.js:96-109 | without a `modes` attribute a stored `eds` survives the check, and anything else becomes `mesh` |
| PanelObject.ScannedElement | src/panel.js:678-682 | `_findElementById` over the last scan finds an element exactly when the last scan exists and the panel's own walk reaches an entry with the id |
| PanelObject.TreeItemMissesNestedSlot | src/panel.js:678-686 | on the nested tree the id pass stamps, toggling "slot-1" leaves the highlighter unchanged although the tree lists that slot |
| PanelObject.TreeItemEffect | src/panel.js:670-689 | the highlighter's change, driven by `_findElementById` as written, keeps the page's size and the snapshots on the page |
| PanelObject.TreeItemOff | src/panel.js:674-677 | an active item loses its highlight and its label; mesh snapshots stay |
| PanelObject.TreeItemOn | src/panel.js:678-686 | an inactive item is highlighted exactly when `_findElementById` finds it in the last scan, and then that element, with the border its kind (`block` or `slot` prefix) calls for; otherwise nothing changes |
| PanelObject.TreeItemTwice | src/panel.js:670-689 | clicking an unhighlighted item twice, with the lookup as written, leaves the highlighter as it was, apart from the label counter |
| PanelObject.DefaultState | src/panel.js:57-70 | the initial object holds exactly the twelve keys of `DEFAULT_STATE`, each at its default, every array empty |
| PanelObject.NewDefaultStore | src/panel.js:57-81 | `createStore({ ...DEFAULT_STATE }, …)`: every default key survives loading, and with nothing saved the state is `DEFAULT_STATE` |
| PanelObject.Inspector.constructor | src/panel.js:57-86 | a store holding every key of `DEFAULT_STATE` (exactly those, with their default values, when nothing was saved), a fresh highlighter, no scan |
| PanelObject.Inspector.Commit | src/panel.js:655 | the key gets a new array with the given contents; written and notified as `setState` does |
| PanelObject.Inspector.ToggleEntry | src/panel.js:645-656 | the array at the key becomes its toggle, a new array, persisted and broadcast; other keys stay |
| PanelObject.Inspector.HandleSourceToggle | src/panel.js:645-656 | `activeSources` becomes its toggle by the source id |
| PanelObject.Inspector.HandleExpandToggle | src/panel.js:658-668 | `expandedNodes` becomes its toggle by the node id |
| PanelObject.Inspector.HandleTreeItemToggle | src/panel.js:670-689 | `activeItems` becomes its toggle, and the highlighter changes as `TreeItemEffect` says for the item's old membership |
| PanelObject.Inspector.HighlightScanned | src/panel.js:678-686 | the `_findElementById` lookup in the last scan and the highlight of what it finds agree with `TreeItemEffect` |
| PanelObject.Inspector.EnforceAvailableMode | src/panel.js:103-109 | the state becomes `Enforced`; write and notification happen exactly when the mode was unavailable and the patch changes something |
| PanelObject.Inspector.ScanEdsDom | src/panel.js:461-469 | `scanEds` on the body, or `{blocks: [], standaloneSlots: [], counts: {0, 0}}` when it throws |
| PanelObject.Inspector.RefreshScan | src/panel.js:124-127 | the scan result becomes `_lastEdsScan` |

## Left out

- Rendering, shadow DOM, event wiring, keyboard shortcuts, `_applyPosition`, `connectedCallback` and the rest of `src/panel.js`'s UI are not modelled: they are presentation.
- `src/index.js` is not part of this model: MutationObserver, URL polling, timers and window globals are host events.
- `createGraphQLFetcherWithTracking` is modelled only through its name extraction. Its timing (`performance.now`, `Date.now`), the network and the window sinks are I/O.
- `formatQueryTime` is not modelled: it relies on floating-point `toFixed` rounding.
- `localStorage` and `JSON.parse` are abstract. Storage is a field holding `Missing`, `Corrupt` or `Stored(values)`, and the written text is an encoding of the state.
- The label's cosmetic style object, the preset colour strings and `EDS_STYLES` are opaque constants. Only the fields the round trips restore are tracked.
- Label text, the label's measured size and the viewport (`scrollY`, `innerWidth`) are inputs. A label's size is what `offsetWidth` and `offsetHeight` give once it is attached.
- Rectangles use real numbers, not IEEE doubles; the code only adds and compares them.
- The `sort(compareDomOrder)` calls of `scanEds` are omitted. `querySelectorAll` already returns document order, so the sorts are the identity; `Dom.QuerySelectorAllSpec` and `ScannerEds.CompareDomOrderIsTotalOrder` justify this.
- A thrown exception inside `scanEds` is a `fault` flag on `PanelObject.Inspector.ScanEdsDom`. What throws is not modelled.
- `_handleModeSwitch`, `_handleShowAll`, `_handleClearAll` and `_applyMeshHighlights` are not modelled: they are UI glue around `clearAll`, `highlightEdsItem` and `setState`.
- PanelObject.Inspector.HandleSourceToggle: does not re-apply the mesh highlights afterwards, since `_applyMeshHighlights` is left out.
- PanelObject.Inspector.HandleSourceToggle, PanelObject.Inspector.HandleExpandToggle, PanelObject.Inspector.HandleTreeItemToggle: require the stored value at the key to be an array. A stored non-array value is not modelled.
- PanelObject.Inspector.HandleTreeItemToggle: requires every element of the last scan to be a node of the current page. A stale scan naming removed nodes is not modelled.
- ScannerEdsResult.ScanBlocksOnce: stated for a scan of the document body, which is how the panel calls `scanEds`. With another root the container (at the body) could repeat a block element.
- ScannerEdsResult.ForestBlocksOnce: covers the builders' forest without the container; `ScannerEdsResult.ContainerBlocksOnce` adds it.
- ScannerEdsResult.StandaloneFilter: requires that every candidate processed before the forEach lies inside a block. `ScannerEdsResult.ScanStandalone` discharges this for the scan.
- Highlight.HighlightEdsKeepsInv and the other invariant lemmas assume the highlighter's invariant (`Inv`): one label per id, snapshots on existing elements. It holds from `createHighlighter()` on, by `HighlighterObject.Highlighter.constructor`.
- JavaScript strings are sequences of characters. There is no UTF-16 surrogate handling, and white space in `trim` and `\s` is the ECMAScript set.
- Common.ToLower: folds the ASCII letters only, not the full Unicode case mapping of `toLowerCase`. The header and footer test is unaffected, since no other character lower-cases into a letter of "header" or "footer".
- The store's listeners are identities recorded in a delivery log. What a listener does is not modelled, including the panel's `render()`, which re-scans and replaces `_lastEdsScan`. A listener that subscribes or unsubscribes while a notification is running is not modelled either.
- `Num(int)` stands for JavaScript numbers in stored values: fractions, `NaN` and infinities are not modelled.

## Findings

| source | as written | input that shows it | evidently intended | confidence | as-written member | corrected member |
|---|---|---|---|---|---|---|
| src/panel.js:715-762 | `_findElementById` and `_collectAllIds` stop at a block nested in a slot: they look at its id but not at its slots or child blocks | a block "Cards" with slot "Items" holding block "Card" with slot "Body": the id pass stamps "slot-1" on "Body" and the tree lists it, but `_findElementById("slot-1", blocks)` returns `null`, so clicking it highlights nothing and "show all" skips it | the lookup and the collection walk the same tree the id pass stamps | not executed | PanelTree.FindElementById, PanelTree.CollectAllIds, PanelTree.NestedSlotIsMissed, PanelObject.TreeItemMissesNestedSlot | PanelTree.FindElementByIdDeep, PanelTree.CollectAllIdsDeep |
