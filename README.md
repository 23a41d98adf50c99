# marker-extension annotation engine, modelled in Dafny

This project models the core of the marker-extension browser extension. That core is its content script, the class
`AnnotateSaver` in `src/content/index.ts`, together with the page-keyed annotation store in `src/utils/storage.ts`.
The extension lets a reader:

- highlight, underline, bold or strike through a text selection, and
- draw freehand strokes over the page.

It keeps both kinds of annotation per page and restores them when the page loads again.

The page is an immutable tree `Node = Text | Comment | Element(tag, id, classes, data, children) | Document(children)`.
Nodes are addressed by child-index positions (`Pos = seq<nat>`). A child-list mutation (`replaceChild`, `insertBefore`,
`removeChild`, `normalize`) becomes a function that rebuilds the tree. The object that identifies a node in the
browser is tracked as a position: positions shift explicitly when an earlier sibling is split.

The module layout follows the program:

| module | models |
|---|---|
| `Wrappers` | the `Option` type |
| `Strings` | decimal rendering of positions and ASCII `toLowerCase` |
| `Storage` | `getPageKey` and the IndexedDB object store as a class over a map keyed by page key |
| `Dom` | the tree, child-list splicing, the hoisting of a container's children, and `Node.normalize()` (section 4.4 of the WHATWG DOM Standard) |
| `XPath` | `getXPath`; a resolver for the shapes it emits, standing in for `document.evaluate` with `FIRST_ORDERED_NODE_TYPE` |
| `Annotation` | the JavaScript `substring` clamping rule; `applyTextAnnotation` and the container attributes; the style toggles of `applyStyle`; the ledger lookup and filter; `findExistingHighlight` |
| `Ranges` | selection boundary points and `getTextNodesInRange`, including its fast path |
| `Wrap` | the per-node sub-range and record computation of `safeWrapSelectionWithTracking`, and its loop over the live page |
| `Draw` | the canvas commands of `drawPath`; `redrawCanvas` as a replay; the erase rule; the single `draw_main` record |
| `Content` | the `AnnotateSaver` controller as a class whose methods update its fields in place, plus the lemmas these methods rest on |

The quirks of the code are modelled as written:

- **Two different container ids.** A freshly wrapped container carries the template id `baseId` (index.ts:1169, cloned at
  1231), while its record carries `baseId_i` (index.ts:1256). A restored container carries the record id (index.ts:493).
  So the ledger lookup of `applyStyle` (index.ts:1108) misses on a fresh container: see `Content.FreshContainerUnmatched`.
- **Live paths.** Each record's path is computed on the live tree after the earlier splits (index.ts:1261).
- **`substring` clamps and swaps** its arguments.
- **Restores can repeat.** Restoring twice applies the records twice; nothing guards against it.

Clock and randomness are parameters:

- `Date.now()` is the parameter `now`;
- the id from `generateId` is the parameter `baseId`;
- the answer of `confirm` is the parameter `confirmed`.

## Model

| member | source | states |
|---|---|---|
| Strings.NatToString | src/content/index.ts:475-480 | the decimal rendering of a sibling index is a nonempty string of digits with no leading zero |
| Strings.NatToStringRoundTrip | src/content/index.ts:475-480 | reading the decimal digits back gives the number, so positional predicates are unambiguous |
| Strings.NatToStringInjective | src/content/index.ts:475-480 | different indices render differently |
| Strings.Lower | src/content/index.ts:473-480 | the lowered tag name has the same length, contains no upper-case ASCII letter, and differs from the tag only where the tag has an upper-case letter |
| Strings.LowerIdempotent | src/content/index.ts:473-480 | lowering an already lowered name changes nothing |
| Storage.FirstOfSpec | src/utils/storage.ts:66 | the URL scanner stops at the first delimiter and skips no delimiter |
| Storage.AfterLastSpec | src/utils/storage.ts:66 | the host part after the last `@` is a suffix of the authority that holds no `@` |
| Storage.SplitSerialize | src/utils/storage.ts:63-71 | splitting a well-formed URL into scheme, authority, path and query/fragment tail recovers exactly its parts |
| Storage.SerializeSplit | src/utils/storage.ts:63-71 | whatever the splitter accepts is well formed and reassembles to the input string |
| Storage.KeyOfSplit | src/utils/storage.ts:63-71 | the page key of a parsable URL is its origin followed by its pathname |
| Storage.QueryAndFragmentIgnored | src/utils/storage.ts:63-71 | two URLs that differ only in query or fragment have the same page key, which is that of the bare URL |
| Storage.NoSchemeUnchanged | src/utils/storage.ts:68-70 | a string that cannot be parsed as a URL (it has no scheme) is its own key |
| Storage.GetPageKeyIdempotent | src/utils/storage.ts:63-71 | a page key carries no query or fragment, and keying a key gives the key back |
| Storage.AnnotationStore.SaveAnnotations | src/utils/storage.ts:73-97 | put under the page key: the record has the page key as its url and the given lists; it replaces any earlier record for that key; all other keys keep their records; the store stays keyed by url |
| Storage.AnnotationStore.LoadAnnotations | src/utils/storage.ts:99-111 | get: the record stored under the page key, or nothing exactly when no record is stored there |
| Storage.AnnotationStore.ClearAnnotations | src/utils/storage.ts:113-125 | delete: only the page key's record is removed |
| Storage.SaveThenLoad | src/utils/storage.ts:73-111 | a load after a save returns the saved record, with the page key as its url (last write wins) |
| Storage.OtherPagesUntouched | src/utils/storage.ts:73-125 | a save or a clear on one page key leaves what a load of another page key returns unchanged |
| Storage.ClearThenLoad | src/utils/storage.ts:73-125 | a load after a clear finds nothing, and a later save is found again |
| Dom.SetAtElsewhere | src/content/index.ts:483-519 | replacing a node leaves every node outside its ancestor chain and its subtree in place |
| Dom.SpliceKeepsOthers | src/content/index.ts:513-518 | replacing one child by a fragment keeps every node outside that slot, at its shifted position |
| Dom.ShiftedInjective | src/content/index.ts:1222-1286 | the shift of positions after a split maps distinct surviving nodes to distinct positions |
| Dom.SpliceKeepsText | src/content/index.ts:513-518 | replacing a child by a fragment with the same text keeps the page's text |
| Dom.SpliceHighlights | src/content/index.ts:513-518 | a splice changes the container count by the fragment's containers minus those of the replaced child |
| Dom.UnwrapUndoesSplice | src/content/index.ts:1366-1373 | on a normalised parent, splitting a text node around a container of text and then unwrapping and normalising gives back the original tree |
| Dom.NormalizeKeepsText | src/content/index.ts:1372 | `normalize` keeps the text of the subtree |
| Dom.NormalizeIsNormalized | src/content/index.ts:1372 | after `normalize` no text node is empty and no two text nodes are adjacent, anywhere in the subtree |
| XPath.GetXPathUnparented | src/content/index.ts:456-474 | an element with an id gives exactly `//*[@id="ID"]`; a parentless element gives `/tag`; a comment or document node, or a parentless text node, gives the empty string |
| XPath.GetXPathOfText | src/content/index.ts:457-463 | a text node with a parent gives the parent's path followed by `/text()[k]`, where k is its 1-based index in the list of its text-node siblings |
| XPath.GetXPathOfElement | src/content/index.ts:475-480 | an element without an id but with a parent gives the parent's path followed by `/tag[k]`, where k is its 1-based index among siblings with the same tag |
| XPath.TextsBeforeIsIndex | src/content/index.ts:459-462 | counting text siblings before a node gives its index in the list of text siblings |
| XPath.TagsBeforeIsIndex | src/content/index.ts:477-479 | counting same-tag siblings before an element gives its index in the list of same-tag siblings |
| XPath.IndexOf | src/content/index.ts:459-462 | the first index of an entry: the entry is there, and no earlier entry equals it |
| XPath.GetXPathIsRender | src/content/index.ts:456-481 | the emitted string is the rendering of a structured path of id, name, text and positional steps |
| XPath.ParseRender | src/content/index.ts:441-454 | the resolver reads back every structured path that the code can emit |
| XPath.ResolveValid | src/content/index.ts:441-454 | the resolver only returns positions that exist in the page |
| XPath.SearchNodeSound | src/content/index.ts:447 | a node found by the document-order search matches the path |
| XPath.SearchNodeFinds | src/content/index.ts:447 | the search finds a match whenever a matching node exists in the subtree |
| XPath.ResolveUnique | src/content/index.ts:447 | with a single matching node, the first match in document order is that node |
| XPath.PathOfMatchesSelf | src/content/index.ts:456-481 | on a well-formed page, a node matches its own path |
| XPath.PathOfMatchesOnlySelf | src/content/index.ts:456-481 | on a page whose ids are unique, no other node matches that path |
| XPath.ResolveGetXPath | src/content/index.ts:441-481 | on such a page, resolving `getXPath` of a text node or element finds exactly that node |
| XPath.UnaddressableIsEmpty | src/content/index.ts:441-481 | a node that gets the empty path resolves to nothing |
| Annotation.Substring | src/content/index.ts:486-489 | JavaScript `substring` is the plain slice when its bounds are ordered and in range, and is never longer than the string |
| Annotation.SubstringSwap | src/content/index.ts:486-489 | `substring` swaps reversed arguments |
| Annotation.SubstringClamps | src/content/index.ts:486-489 | `substring` clamps arguments past the end |
| Annotation.SubstringParts | src/content/index.ts:486-489 | before + highlighted + after is the original text for ordered offsets |
| Annotation.WrapperDataMirrorsStyle | src/content/index.ts:491-506 | the container carries its id; `data-color` is present exactly when the color is set and holds it; each of underline, bold and strikethrough is `"true"` exactly when set; there is no other attribute |
| Annotation.TextChildren | src/content/index.ts:513-518 | the optional text node holds exactly the given text, and is left out when the text is empty |
| Annotation.FragmentText | src/content/index.ts:513-518 | the replacement's text is before + highlighted + after, which is the original text when the offsets are ordered |
| Annotation.FragmentHighlights | src/content/index.ts:513-518 | the replacement has one to three nodes, no empty text node, and exactly one container |
| Annotation.ApplyTextAnnotation | src/content/index.ts:483-485 | a non-text node is left as it is |
| Annotation.ApplyParent | src/content/index.ts:508-518 | in the parent's child list, the text node is replaced by the optional before node, the container and the optional after node, and nothing else there changes |
| Annotation.ApplyKeepsOthers | src/content/index.ts:508-518 | every node outside the split slot survives unchanged, at its shifted position |
| Annotation.ApplyKeepsText | src/content/index.ts:483-519 | applying a record with ordered offsets keeps the page's text |
| Annotation.ApplyAddsHighlight | src/content/index.ts:483-519 | applying a record to a text node adds exactly one container |
| Annotation.ApplyWrapperAt | src/content/index.ts:491-518 | the container sits in the parent's child list and holds exactly the highlighted substring, with the record's id and style |
| Annotation.HoistChildren | src/content/index.ts:1368-1371 | moving the container's children before it and removing it leaves the children in its former slot |
| Annotation.UnwrapKeepsText | src/content/index.ts:1366-1373 | unwrapping a container keeps the page's text |
| Annotation.UnwrapRemovesHighlight | src/content/index.ts:1366-1373 | unwrapping a container removes exactly one container |
| Annotation.UnwrapUndoesApply | src/content/index.ts:483-519 | unwrapping the container that `applyTextAnnotation` made, on a normalised parent, gives back the original page |
| Annotation.NewStyle | src/content/index.ts:1158-1164 | a new annotation's style sets exactly the triggering field, and is empty exactly for `Remove` or an empty color |
| Annotation.UpdateStyleFrame | src/content/index.ts:1111-1145 | an update changes only the field its action names; a color action sets the color, or clears it when no name is given; a toggle negates its flag |
| Annotation.UpdateStyleTwice | src/content/index.ts:1111-1145 | two identical toggles restore the style; two identical color actions act as one |
| Annotation.UpdateKeepsMirror | src/content/index.ts:1111-1145 | the container's attributes go on mirroring the entry's style after an update, and keep the container's id |
| Annotation.FindById | src/content/index.ts:1108 | `find` by id: the first ledger entry with that id, or nothing exactly when none has it |
| Annotation.WithoutIdMembers | src/content/index.ts:1363 | `filter`: an entry survives exactly when its id differs from the container's |
| Annotation.WithoutIdAppend | src/content/index.ts:1363 | `filter` distributes over concatenation, so order is preserved |
| Annotation.WithoutAbsentId | src/content/index.ts:1363 | filtering out an id that no entry carries changes nothing |
| Annotation.NearestHighlightSpec | src/content/index.ts:1344-1353 | the container found is the nearest ancestor-or-self of the selection start that is a container; when there is none, no ancestor is a container |
| Annotation.FindExistingHighlight | src/content/index.ts:1344-1353 | the loop up the parent chain returns that nearest container |
| Ranges.BeforeAncestorCase | src/content/index.ts:1310-1339 | a boundary point in an ancestor lies before a point inside child c exactly when its offset is at most c |
| Ranges.IntersectsKeys | src/content/index.ts:1310-1339 | a node's before and after boundary points order against others as its own position and its next sibling's do |
| Ranges.CommonAncestor | src/content/index.ts:1310 | the walk's root is an ancestor-or-self of both boundary containers |
| Ranges.TextsInMembers | src/content/index.ts:1310-1339 | the text-node walk visits exactly the text nodes of the subtree |
| Ranges.TextsInSorted | src/content/index.ts:1310-1339 | the walk visits them in document order |
| Ranges.WalkMembers | src/content/index.ts:1310-1339 | the walk from the common ancestor visits exactly the text nodes strictly below it |
| Ranges.WalkSorted | src/content/index.ts:1310-1339 | in document order |
| Ranges.GetTextNodesInRange | src/content/index.ts:1295-1342 | the method's fast path and filtered walk compute the specified list of selected text nodes |
| Ranges.SingleTextIntersects | src/content/index.ts:1299-1307 | the fast path's single text node does intersect the selection |
| Ranges.TextNodesInRangeExact | src/content/index.ts:1295-1342 | the list is in document order; every entry is a text node the selection intersects; outside the fast path it holds every such node |
| Ranges.IntersectsBelowCommonAncestor | src/content/index.ts:1310-1339 | every text node the selection intersects lies below the common ancestor, so the walk misses none |
| Wrap.SubRangeBounds | src/content/index.ts:1233-1244 | for a valid selection the sub-range is ordered and within the node's text |
| Wrap.RecordIdDistinct | src/content/index.ts:1256 | the record ids `baseId_i` are distinct for distinct i, and never equal to `baseId` |
| Wrap.RecordsShape | src/content/index.ts:1222-1263 | each record comes from a text node of the list with a nonempty covered part: its id is `baseId_i` for that node's index i, its offsets are the sub-range, that is the start container's start offset or else 0 and the end container's end offset or else the text length, with start below end, its text is that substring and is nonempty, and its style is the given style |
| Wrap.RecordsIndexOrder | src/content/index.ts:1222-1263 | records appear in list order, so the indices in their ids increase and their ids are distinct |
| Wrap.RecordsCount | src/content/index.ts:1222-1263 | there is at most one record per text node |
| Wrap.WrapRecords | src/content/index.ts:1222-1286 | the loop over the live, already-split page reads the same records, paths aside, as the page before wrapping |
| Wrap.WrapTreeEffect | src/content/index.ts:1222-1286 | the loop keeps the page's text and adds one container per record |
| Wrap.SafeWrapEffect | src/content/index.ts:1201-1293 | wrapping a selection yields the records above, keeps the page's text and adds exactly one container per record |
| Wrap.FirstRecordPath | src/content/index.ts:1261 | the first record's path is that of its node in the page before wrapping, since nothing has been split yet |
| Wrap.FirstRecordResolves | src/content/index.ts:1261 | on a well-formed page with unique ids, the first record's path resolves to its text node |
| Draw.Curves | src/content/index.ts:881-886 | one `quadraticCurveTo` per interior sample |
| Draw.StrokeCommands | src/content/index.ts:870-893 | fewer than two points emit nothing; otherwise n points emit n + 2 commands: begin, one move, n - 2 curves, one line, stroke |
| Draw.EmitStroke | src/content/index.ts:870-893 | the loop of `drawPath` emits exactly this command list |
| Draw.StrokeControlPoints | src/content/index.ts:881-886 | the control point of the k-th curve is sample k + 1 |
| Draw.StrokePenPositions | src/content/index.ts:870-893 | the pen moves to the first sample, then through the exact midpoints of successive interior samples, and ends on the true last sample |
| Draw.ReplayAppend | src/content/index.ts:863-868 | replaying strokes distributes over concatenation, so a redraw draws each stroke in order |
| Draw.NearIsDistance | src/content/index.ts:844-853 | the integer test dx² + dy² < 625 means exactly that the distance is below 25 |
| Draw.KeepStrokesMembers | src/content/index.ts:848-855 | the kept strokes are exactly those with no point near the eraser |
| Draw.KeepStrokesAppend | src/content/index.ts:848-855 | the erase filter distributes over concatenation, so order is kept |
| Draw.KeepStrokesIdempotent | src/content/index.ts:844-861 | erasing twice at the same point is the same as erasing once |
| Draw.KeepStrokesCount | src/content/index.ts:844-861 | the count is unchanged exactly when no stroke is hit, and then the list is unchanged |
| Draw.SavedDrawAnnotations | src/content/index.ts:1383-1392 | the strokes are saved as one `draw_main` record, or as no record when there are none |
| Draw.SavedPathsRoundTrip | src/content/index.ts:405-426 | loading the saved draw records gives back the strokes |
| Content.RestoreOneEffect | src/content/index.ts:428-439 | restoring a record whose path resolves to a text node adds one container, carrying the record's id and mirroring its style, and keeps the text; otherwise nothing changes |
| Content.RestoreAllEffect | src/content/index.ts:428-439 | restoring a list adds at most one container per record and keeps the text |
| Content.FreshContainerUnmatched | src/content/index.ts:1108 | when the ledger holds no template id, the fresh container's id matches no ledger entry, neither old nor new |
| Content.RecordNotBase | src/content/index.ts:1256 | no record of a wrap carries the template id |
| Content.FirstHighlightFound | src/content/index.ts:905-917 | the first container in document order is a container strictly inside the page |
| Content.FirstHighlightNone | src/content/index.ts:905-917 | there is no first container exactly when the page holds none |
| Content.UnwrapAtEffect | src/content/index.ts:1366-1373 | unwrapping and normalising keeps the text and removes exactly one container |
| Content.FoundHighlight | src/content/index.ts:1097-1103 | the container found lies on the chain from the selection's start container up, and there is no container without a selection |
| Content.Restyle | src/content/index.ts:1111-1145 | restyling keeps the container and its children in place and updates only its data attributes |
| Content.RestyleKeepsFound | src/content/index.ts:1111-1145 | after a restyle the selection still finds the same container, with the same id |
| Content.NearestAfterEdit | src/content/index.ts:1344-1353 | replacing the nearest container by one with the same children keeps it the nearest |
| Content.WithoutIdUpdate | src/content/index.ts:1148-1152 | filtering after editing an entry with the filtered id is filtering the unedited ledger |
| Content.AnnotateSaver.constructor | src/content/index.ts:352-370 | a fresh controller: select mode, inactive, no canvas, no strokes, color `#5046e5`, width 3, empty ledger, no selection |
| Content.AnnotateSaver.SaveState | src/content/index.ts:1383-1399 | the page's record becomes the ledger and the strokes in one `draw_main` record (none when there are no strokes) |
| Content.AnnotateSaver.LoadSavedAnnotations | src/content/index.ts:405-426 | with no record nothing changes; otherwise the ledger and strokes are the record's, every text record is restored, and a nonempty stroke list is drawn on a newly ensured canvas |
| Content.AnnotateSaver.TakeLoaded | src/content/index.ts:408-422 | with a record found: the ledger and strokes become the record's, every text record is restored in order, and a nonempty stroke list is drawn on an ensured canvas |
| Content.AnnotateSaver.RestoreTextAnnotations | src/content/index.ts:428-439 | every ledger record is restored in order, with no guard against a second restore |
| Content.AnnotateSaver.ApplyTextAnnotationAt | src/content/index.ts:483-519 | a text node with a parent is split around a container; any other node is left alone |
| Content.AnnotateSaver.EnsureCanvas | src/content/index.ts:720-749 | an existing canvas is kept; a new one is created and has every stroke drawn on it |
| Content.AnnotateSaver.RedrawCanvas | src/content/index.ts:863-868 | the canvas is cleared and every stroke replayed in order |
| Content.AnnotateSaver.DrawStroke | src/content/index.ts:870-893 | one stroke's commands are appended to the canvas |
| Content.AnnotateSaver.UpdateModeState | src/content/index.ts:528-542 | draw mode ensures an active canvas; select mode deactivates it and turns the eraser off |
| Content.AnnotateSaver.HandleMouseDown | src/content/index.ts:778-795 | while the canvas is not active (no `active` class) nothing changes; otherwise drawing starts, and either a one-point path with the current color and width begins, or the strokes under the eraser are erased, the canvas being redrawn and the page saved exactly when a stroke was dropped |
| Content.AnnotateSaver.HandleMouseMove | src/content/index.ts:797-811 | a point is appended to the current path, and the canvas shows the strokes plus that path, only while drawing; in eraser mode the strokes under the point are erased, the canvas redrawn and the page saved exactly when a stroke was dropped |
| Content.AnnotateSaver.HandleMouseUp | src/content/index.ts:813-820 | a path with more than one point is committed and saved; drawing always stops and the current path is cleared |
| Content.AnnotateSaver.EraseAtPoint | src/content/index.ts:844-861 | the kept strokes are the erase filter's; redraw and save happen exactly when the count changed |
| Content.AnnotateSaver.ResetDrawings | src/content/index.ts:895-899 | no strokes are left, the canvas is cleared, and the page is saved without a draw record |
| Content.AnnotateSaver.SafeWrapSelectionWithTracking | src/content/index.ts:1201-1293 | the loop over the text nodes leaves the page and returns `Wrap.SafeWrap(...).records`, which is `Wrap.Records(...)` over the selected text nodes up to the live paths (`Wrap.SafeWrapEffect`); an empty node list returns no record and leaves the page alone |
| Content.AnnotateSaver.WrapTextNode | src/content/index.ts:1227-1285 | one turn: an empty or parentless text node or an empty sub-range is skipped; otherwise the node is split around a template container and one record is made |
| Content.AnnotateSaver.UnwrapHighlight | src/content/index.ts:1366-1373 | the container's children take its slot and the parent is normalised |
| Content.AnnotateSaver.RemoveAnnotation | src/content/index.ts:1355-1381 | with no container found nothing changes; otherwise the entries with its id are filtered out, it is unwrapped when it has a parent, and the page is saved; the selection is always cleared |
| Content.AnnotateSaver.ApplyStyle | src/content/index.ts:1096-1199 | no usable selection: nothing happens. No container: the selection is wrapped with the new style and the records are appended; the page is saved when there are any. Container without a ledger entry: nothing changes. Container with an entry: the entry and the container are restyled, or removed and unwrapped when the style ends empty, and the page is saved. Whenever the selection is usable it is cleared at the end |
| Content.AnnotateSaver.AnnotateSelection | src/content/index.ts:1156-1198 | the new-annotation branch: the selection is wrapped with the style of `Annotation.NewStyle`, the records are appended to the ledger, the page is saved exactly when there are records, and the selection is cleared |
| Content.AnnotateSaver.RestyleEntry | src/content/index.ts:1105-1155 | the update branch: the entry gets the toggled style and the container the matching attributes, or the entry is filtered out and the container unwrapped when the style is empty; the page is saved |
| Content.AnnotateSaver.ResetAll | src/content/index.ts:901-924 | without confirmation nothing changes; with it no container is left, the text is kept, the ledger and strokes are emptied, the canvas is cleared and an empty record is saved |
| Content.AnnotateSaver.Activate | src/content/index.ts:521-526 | the controller becomes active and the mode state is applied |
| Content.AnnotateSaver.Deactivate | src/content/index.ts:1401-1419 | the controller becomes inactive; the canvas is deactivated and the eraser turned off |
| Content.AnnotateSaver.Toggle | src/content/index.ts:397-403 | toggling flips activity; deactivating turns the canvas and the eraser off; activating applies the mode state: in draw mode a canvas exists (created with every stroke drawn) and is active, in select mode it is inactive and the eraser is off |
| Content.AnnotateSaver.SetMode | src/content/index.ts:671-678 | choosing the current mode changes nothing; choosing the other one applies its mode state |
| Content.AnnotateSaver.PickColor | src/content/index.ts:687-694 | the pen takes the picked color, or `#5046e5` when none is given, and the eraser is turned off |
| Content.AnnotateSaver.SetDrawWidth | src/content/index.ts:700-702 | the pen takes the chosen width |
| Content.AnnotateSaver.ToggleEraser | src/content/index.ts:706-711 | the eraser flag is negated |
| Content.AnnotateSaver.HandleTextSelection | src/content/index.ts:926-942 | a selection is recorded only in select mode, while active, outside the panel |
| Content.AnnotateSaver.ClickAddsNothing | src/content/index.ts:778-820 | a mouse-down followed by a mouse-up with no move adds no stroke and saves nothing |
| Content.AnnotateSaver.EraseTwice | src/content/index.ts:844-861 | a second erase at the same point changes no stroke |
| Content.AnnotateSaver.SaveAndReload | src/content/index.ts:405-426 | saving and then loading the page keeps the ledger and the strokes, restores every record once more, and redraws the strokes |

## Left out

- The panel, tooltip, dropdown and style-sheet construction and their listener wiring (src/content/index.ts:10-342, 544-718, 954-1094): these are user interface. `hideTooltip` and the tooltip's button dispatch become direct calls of the handlers.
- The Canvas 2D API. The canvas is the list of commands drawn since the last clear. `resizeCanvas` (src/content/index.ts:751-776) measures the document and is not modelled; neither are the scroll and resize listeners.
- Touch-to-mouse synthesis (src/content/index.ts:822-842): it is event plumbing.
- The `chrome.runtime` message listener (src/content/index.ts:389-395), src/background.ts and scripts/generate-icons.js: these are platform I/O and are not part of this model.
- IndexedDB opening, transactions, promises, and the `try`/`catch` around saving and loading: storage is a map held by an object, and every request succeeds.
- `generateId` and `Date.now()`: the id and the time are parameters.
- `document.evaluate`, `TreeWalker`, `intersectsNode` and `compareBoundaryPoints` are foreign. They are replaced by the resolver of `XPath` and by the document-order walk of `Ranges`, with boundary points compared as positions.
- Content.AnnotateSaver.ApplyStyle: the `window.getSelection()` null check (src/content/index.ts:1099-1100) is not modelled, because a selection object always exists here. The handlers require the stored range to still be `Usable`. A stale range is modelled as doing nothing. The live adjustment of a browser `Range` when the page changes is not modelled.
- Content.AnnotateSaver.HandleTextSelection: a collapsed or blank selection, after `trim`, arrives as no selection; the tooltip placement is left out.
- Content.AnnotateSaver.SetDrawWidth: the `parseInt` of the slider's string value is not modelled; the width arrives as an integer.
- Annotation.NewStyle: a `Remove` action on a fresh selection is not reachable from the tooltip; the model makes it an empty style, which wraps with no style fields set.
- Content.AnnotateSaver.ResetAll: the static `NodeList` of containers is modelled as repeatedly unwrapping the first container in document order. The result is the same because unwrapping one container and normalising keep the others, in order. The loop is stated by its end state, not by the order of unwraps.
- Storage.GetPageKey: only the special schemes http, https, ws, wss and ftp are parsed, and such a URL is keyed as if it were canonical. Host code points and the port are not validated, so a special-scheme string that the WHATWG URL parser (section 4.4 of the URL Standard) rejects, such as `http://a b/x?q` or `http://h:99999/p`, gets origin plus pathname as its key, where the source's `catch` returns it unchanged. Percent-encoding, port and host canonicalisation, `file:`, `blob:` and opaque-path URLs are not modelled either; a string with another scheme or with no scheme is returned unchanged (`Storage.NoSchemeUnchanged` proves this for strings without a colon).
- Elements carry no namespace, and the resolver matches tag names after ASCII lowering. In an HTML document `document.evaluate` matches an unprefixed name test only against HTML-namespace elements, so a path through inline SVG (such as `.../svg[1]/text[1]/text()[1]`) finds nothing in the source and that restore is skipped (src/content/index.ts:428-439), where the model resolves it.
- Strings.Lower: only ASCII letters are lowered, where JavaScript `toLowerCase` applies the full Unicode case mapping.
- `confirm` in `resetAll` is the parameter `confirmed`.
- Floating-point: coordinates are integers, midpoints exact reals, and `Math.sqrt(d) < 25` is the integer test `d < 625`.

