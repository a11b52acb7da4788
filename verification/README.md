# ThemeBuilder editing core in Dafny

ThemeBuilder is a drag-and-drop page builder for storefront themes. The
user drops palette items onto a canvas and nests them inside layout
containers. A properties panel edits each element's dataset, and an
undo/redo history of whole-canvas snapshots records every change. The
builder exports the composition as a Liquid section plus a stylesheet.
This project models that core as found in `public/builder.js` and proves
properties of the model.

The modules follow the program's parts:

- `Strings`: JavaScript's `trim`, and the `el-N` element names handed out from the id counter.
- `Catalog`: the element template table (`getElementTemplate`) with its `text` fallback.
- `Tree`: the canvas as a tree of segments.
  - A segment is a text node, a piece of foreign markup (the list items, the placeholder input) or a canvas element.
  - An element is a `Node` with its id, its `data-type` and its dataset.
  - The operations are lookup, in-place replacement, removal of a subtree and appending a child, with the invariants unique ids and well-formedness.
- `History`: `saveHistory`, `undo` and `redo` over any snapshot type.
- `Properties`: `applyProperty`'s dataset writes.
  - It covers the kebab-to-camelCase key, the two colour channels sharing one key, and the inputs the panel shows for each type.
- `DragDrop`: `findDropTarget` and the drop rule.
  - A drop lands inside the innermost element under the pointer if that element is a container, and on the canvas root otherwise.
  - It covers the drag-over highlight too.
- `Codegen`: `generateCode`.
  - Attributes, the content walk, rules collected children first and de-duplicated by a set, and the filter that keeps top-level elements only.
  - The Liquid wrapper and the CSS scaffold.
- `Builder`: the page state and every handler.
  - The state is canvas, selection, history and id counter.
  - The handlers are drop, click, property edit, content edit, delete, undo, redo and the keyboard shortcuts.
  - `Step`/`Run` apply any sequence of gestures.

Undo and redo rebuild the canvas from a snapshot. The element the panel
holds is then no longer on the canvas. The model represents this as a
`Detached` selection: edits and deletes then act on that copy only, but
still save a snapshot.

Two facts about the code are worth stating up front:

- **Catalog size.** The catalog has 16 element types.
- **Undo floor.** Undo stops at index 0 of the history, which is the snapshot saved by the first mutation. The empty start is never restored (`History.UndoAfterSavesStopsAtFirst`, `Builder.UndoFloorNotEmpty`).

## Model

| member | source | states |
|---|---|---|
| Strings.Trim | public/builder.js:722 | The trimmed content is a contiguous slice of the input with only white space cut off either side and no white space left at either end |
| Strings.Decimal | public/builder.js:145 | The counter's decimal rendering is a non-empty run of digits without a leading zero |
| Strings.ParseDecimalInverts | public/builder.js:145 | Reading the rendered digits back gives the counter value, so the rendering loses nothing |
| Strings.ElementName | public/builder.js:145 | Every element name is `el-` followed only by digits, and those digits read back as the counter value |
| Strings.ElementNameInjective | public/builder.js:145 | Two different counter values never give the same element name |
| Catalog.Lookup | public/builder.js:139 | A listed type gets its own template, and any other type gets the `text` template |
| Catalog.ContainerIffLayoutKind | public/builder.js:24-140 | Exactly section, container, row and column accept nested elements, so an unknown type never does |
| Catalog.VoidIffDividerOrInput | public/builder.js:718-720 | Only the divider (`hr`) and input types render as a lone opening tag |
| Catalog.UnknownKindIsText | public/builder.js:139 | An unlisted type is served exactly the `text` template (span, `el-text`, not a container) |
| Tree.Find | public/builder.js:515-523 | Lookup succeeds exactly for ids on the canvas, and returns the element with that id whose subtree ids are all on the canvas |
| Tree.WFBounded | public/builder.js:145 | In a well-formed canvas every id lies between 1 and the counter, so the counter's next value is fresh |
| Tree.FindUnique | public/builder.js:194-208 | The subtree of any element found in a canvas with unique ids has unique ids itself |
| Tree.FindWF | public/builder.js:194-208 | The element found in a well-formed canvas is itself well formed |
| Tree.ReplaceIds | public/builder.js:417 | Rewriting one element in place changes the canvas ids only by swapping that element's subtree ids for the new subtree's ids |
| Tree.ReplaceUnique | public/builder.js:417 | A rewrite whose new ids clash with nothing else keeps ids unique |
| Tree.ReplaceFind | public/builder.js:417 | After a rewrite, looking up the element's id gives the rewritten element |
| Tree.ReplaceFindWithin | public/builder.js:181-182 | An id that is new with the rewrite is found inside the rewritten element |
| Tree.ReplaceWF | public/builder.js:417 | Rewriting with a well-formed element keeps the canvas well formed |
| Tree.ReplaceKeepsOthers | public/builder.js:415-438 | Rewriting one element leaves every element outside its subtree findable with its type and dataset unchanged, and leaves an element not containing it entirely unchanged |
| Tree.Remove | public/builder.js:459 | Removal introduces no id and leaves no element with the removed id |
| Tree.RemoveIds | public/builder.js:459 | Removing an element takes away exactly its subtree's ids |
| Tree.RemoveUnique | public/builder.js:459 | Removal keeps ids unique |
| Tree.RemoveWF | public/builder.js:459 | Removal keeps the canvas well formed |
| Tree.RemoveKeepsOthers | public/builder.js:457-469 | Every element that survives a removal keeps its type and dataset, and one that did not contain the removed element is entirely unchanged |
| Tree.RemoveUndoesReplace | public/builder.js:181-182 | Removing an id that a rewrite added as a new child gives back the original canvas |
| Tree.Insert | public/builder.js:181-182 | Without a parent the element becomes the canvas's last child; with one, the parent gains it as its last child |
| Tree.InsertIds | public/builder.js:181-182 | Appending adds exactly the new subtree's ids |
| Tree.InsertUnique | public/builder.js:181-182 | Appending a subtree with fresh ids keeps ids unique |
| Tree.InsertWF | public/builder.js:170-182 | Appending under a container or the root keeps the canvas well formed, so a non-container never gains a child element |
| Tree.InsertFind | public/builder.js:181-182 | The appended element is found under its id exactly as appended |
| Tree.RemoveUndoesInsert | public/builder.js:181-182 | Removing a freshly appended element gives back the canvas as it was |
| History.Current | public/builder.js:561-566 | There is a current snapshot exactly when something has been saved |
| History.Save | public/builder.js:561-566 | A save keeps the entries up to the cursor, appends the snapshot, points the cursor at it and keeps the cursor in range |
| History.Undo | public/builder.js:568-574 | Undo is a no-op at index 0 or below, and otherwise moves the cursor back by one and restores that entry; it never changes the entries |
| History.Redo | public/builder.js:576-582 | Redo is a no-op at the last index, and otherwise moves forward by one and restores that entry |
| History.RedoAfterSaveIsNoOp | public/builder.js:563 | A save discards the redo branch, so redo right after it does nothing |
| History.SaveKeepsFirst | public/builder.js:563 | Once there is a first snapshot, no save replaces it |
| History.UndoThenRedo | public/builder.js:568-582 | Undo then redo returns to the same history and restores the snapshot that was current |
| History.RedoThenUndo | public/builder.js:568-582 | Redo then undo returns to the same history |
| History.UndoTimes | public/builder.js:568-574 | Any number of undos keeps the history valid and the entries unchanged |
| History.RedoTimes | public/builder.js:576-582 | Any number of redos keeps the history valid and the entries unchanged |
| History.UndoTimesFloor | public/builder.js:569 | k undos lower the cursor by k but never below 0 |
| History.RedoTimesCeiling | public/builder.js:577 | k redos raise the cursor by k but never past the last entry |
| History.UndoRedoTimes | public/builder.js:568-582 | k undos followed by k redos give back the same history when the undos did not hit index 0 |
| History.SaveAll | public/builder.js:561-566 | Any series of saves keeps the history valid |
| History.SaveAllFromEmpty | public/builder.js:561-566 | n saves from an empty history leave exactly those n snapshots, with the cursor on the last |
| History.SaveAllExtends | public/builder.js:561-566 | Saves made at the newest entry append their snapshots after the existing ones |
| History.UndoAfterSavesStopsAtFirst | public/builder.js:568-574 | After n saves, n undos land on the first snapshot, never on the empty start |
| Properties.CamelCase | public/builder.js:416 | The storage key is no longer than the input name, is non-empty for a non-empty name, and keeps a first character that is not a hyphen |
| Properties.CamelCaseLeavesNoHyphenLetter | public/builder.js:416 | No hyphen followed by a lower-case letter is left in a converted key |
| Properties.CamelCaseIdempotent | public/builder.js:416 | Converting a key a second time changes nothing |
| Properties.CamelOfConverted | public/builder.js:416 | A name without a hyphen before a lower-case letter is its own key |
| Properties.KebabOfCamel | public/builder.js:416 | For kebab-case names the key determines the name, so different inputs never share a key by conversion |
| Properties.CamelOfPlain | public/builder.js:416 | A name without hyphens is stored under itself |
| Properties.CamelAtHyphen | public/builder.js:416 | At the first hyphen before a lower-case letter the hyphen goes and the letter is upper-cased |
| Properties.KeyOfTwoWords | public/builder.js:416 | A two-word name `a-b` is stored as `a` followed by `b` with its first letter upper-cased |
| Properties.KeyOfBgColor | public/builder.js:416 | The background picker stores under `bgColor` |
| Properties.KeyOfTextColor | public/builder.js:416 | The text colour picker stores under `textColor` |
| Properties.KeyOfFontSize | public/builder.js:416 | The font size input stores under `fontSize` |
| Properties.KeyOfFontWeight | public/builder.js:416 | The font weight input stores under `fontWeight` |
| Properties.KeyOfTextAlign | public/builder.js:416 | The alignment input stores under `textAlign` |
| Properties.KeyOfBorderRadius | public/builder.js:416 | The radius input stores under `borderRadius` |
| Properties.StorageKeysOfInputs | public/builder.js:393-417 | The ID, Class, URL, image and spacing inputs store under their own names, the colour pickers under `bgColor`/`textColor`, and the typography and radius inputs under their camelCase keys |
| Properties.ColourTextSharesPickerKey | public/builder.js:429-438 | Each colour text field also writes the key its picker is stored under |
| Properties.StyleInputsWired | public/builder.js:393-395 | The fourteen style inputs are among the wired inputs |
| Properties.Store | public/builder.js:415-438 | A write sets the converted key (and, for a colour channel, the shared colour key) to the value and keeps every other entry |
| Properties.PanelInputs | public/builder.js:211-370 | The panel only ever shows wired inputs |
| Properties.InputStart | public/builder.js:393-395 | Every wired input name is non-empty, does not begin with a dash, and begins with `c` only when it is `class` |
| Properties.ColourKeyNotCustom | public/builder.js:429-438 | The shared colour keys are neither `customId` nor `customClass` |
| Properties.InputKeyNotCustom | public/builder.js:393-417 | Each wired input's storage key is neither custom key |
| Properties.StoreAvoidsCustomKeys | public/builder.js:416-438 | A write through a wired input never introduces a custom id or class key |
| Properties.ColourLastWriteWins | public/builder.js:429-438 | The picker and the text field of one colour share a key, and the later write wins |
| DragDrop.Reached | public/builder.js:515-523 | Every element the pointer path passes through is on the canvas |
| DragDrop.FindDropTarget | public/builder.js:515-523 | The walk up finds nothing exactly when no node on the way is a canvas element |
| DragDrop.FindDropTargetIsFirst | public/builder.js:515-523 | The target found is a canvas element on the way up with no canvas element before it |
| DragDrop.FindDropTargetAppend | public/builder.js:516-520 | The walk up stops in the lower part of the chain when it can and only then continues into the upper part |
| DragDrop.DropTargetIsInnermost | public/builder.js:515-523 | The drop target is the innermost canvas element under the pointer, or none when the pointer is over no element |
| DragDrop.ReachedFound | public/builder.js:515-523 | With unique ids, each element under the pointer is the one its id looks up |
| DragDrop.DropParent | public/builder.js:501-502 | The parent chosen for a drop is on the canvas whenever there is one |
| DragDrop.DropTargetAt | public/builder.js:501 | The target found for a pointer position is an element on the canvas |
| DragDrop.DropLands | public/builder.js:495-505 | A drop goes into the innermost element under the pointer when that is a container, and onto the canvas root in every other case, even over a leaf inside a container |
| DragDrop.ContainerTarget | public/builder.js:500-503 | Over a container the drop parent is the innermost element reached, and its id finds that element |
| DragDrop.HighlightIsDropParent | public/builder.js:525-530 | The drag-over highlight is shown exactly on the element a drop would append into |
| Codegen.Get | public/builder.js:699-712 | A dataset read gives the stored value, or the empty string when the key is missing |
| Codegen.DeclarationsOf | public/builder.js:699-712 | There is at most one declaration per style key, and none exactly when every style key is empty or missing |
| Codegen.DeclarationsAppend | public/builder.js:699-712 | Declarations come in table order: those of an earlier part of the table precede those of a later part |
| Codegen.DeclarationsMembers | public/builder.js:699-712 | Every non-empty style key contributes its declaration, and every declaration comes from one |
| Codegen.RuleIffStyled | public/builder.js:714-716 | An element gets a rule block exactly when one of the fourteen style keys holds a non-empty value |
| Codegen.SelectorIgnoresCustomClass | public/builder.js:696 | The custom class never affects the selector |
| Codegen.SelectorWithoutCustomId | public/builder.js:696 | Without a custom id the selector is the catalog class |
| Codegen.RulesAppend | public/builder.js:683-716 | The rules of consecutive parts of the tree are those parts' rules in order |
| Codegen.TopLevelAppend | public/builder.js:725-729 | The top-level filter works piecewise over the document-order list |
| Codegen.NestedVisitsFiltered | public/builder.js:725-729 | Elements whose parent is a canvas element are never processed at the top level |
| Codegen.TopLevelIsChildren | public/builder.js:725-729 | Filtering the document-order element list by parent yields exactly the canvas's own elements, in order |
| Codegen.UnstyledAppend | public/builder.js:714-716 | A list of elements has no rule exactly when neither part does |
| Codegen.NoRulesIffUnstyled | public/builder.js:667-729 | A canvas produces no rule exactly when no element at any depth has a style value |
| Codegen.FirstIndex | public/builder.js:665 | The position found holds the rule, and no earlier position does |
| Codegen.Dedup | public/builder.js:665 | The set keeps exactly the rules produced, each once |
| Codegen.DedupFirstSeenOrder | public/builder.js:731 | The kept rules come out in the order of their first occurrence |
| Codegen.DedupOfDistinct | public/builder.js:731 | Rules that are already distinct pass through the set unchanged |
| Codegen.ContentAppend | public/builder.js:683-694 | An element's content is its children's contributions concatenated in order |
| Codegen.VoidIgnoresContent | public/builder.js:718-720 | Divider and input elements render the same whatever their content |
| Codegen.TextElementMarkup | public/builder.js:722 | An element holding one text renders it trimmed between its tags, two spaces deeper |
| Codegen.ChildIndented | public/builder.js:688 | A nested element's markup is rendered two spaces deeper than its parent's and trimmed into the parent |
| Codegen.ContentAt | public/builder.js:683-694 | Each child's contribution sits in the content between those of the children before and after it |
| Codegen.MarkupIndented | public/builder.js:683-694 | A nested element's markup starts with the indentation of the content it sits in |
| Codegen.PlainAttrs | public/builder.js:673-680 | Without a custom class, custom id or link target the attributes are the catalog class alone |
| Codegen.RulesOfChildren | public/builder.js:725-729 | Processing the top-level elements collects exactly the rules of the whole canvas |
| Codegen.GeneratedCss | public/builder.js:731-785 | The stylesheet is the scaffold followed by every rule once, in first-seen children-first order |
| Codegen.GeneratedMarkup | public/builder.js:725-749 | The markup is the top-level elements' markup, in canvas order, inside the wrapper |
| Codegen.TopLevelRules | public/builder.js:725-729 | The rules gathered from the top-level elements are exactly the rules of the whole canvas tree |
| Codegen.NoRuleBlocks | public/builder.js:714-731 | A canvas without any inline style contributes no rule block |
| Codegen.UnstyledCss | public/builder.js:731-785 | A canvas without inline styles exports the bare scaffold |
| Codegen.EmptyMarkup | public/builder.js:733-749 | An empty canvas exports the bare wrapper |
| Codegen.ExportName | public/builder.js:652 | The section name is never empty, and a typed name is used verbatim |
| Builder.InitValid | public/builder.js:4-11 | A freshly opened builder is valid, with an empty canvas, no selection, counter 0 and nothing saved |
| Builder.NextIdFresh | public/builder.js:145 | The next id is on neither the canvas nor any snapshot undo or redo could restore |
| Builder.AllSoundMono | public/builder.js:145 | Raising the counter keeps every snapshot within bounds |
| Builder.AllSoundSave | public/builder.js:561-566 | Saving a sound canvas keeps every snapshot sound |
| Builder.SaveKeepsValid | public/builder.js:561-566 | Saving a sound canvas keeps the builder invariant, provided the first snapshot holds an element |
| Builder.InitialContent | public/builder.js:158-167 | A new element starts with no nested canvas element |
| Builder.CreateElementValid | public/builder.js:143-191 | Creating under a container or the root keeps the invariant: unique ids, bounded ids, leaves without children, no custom keys, history in step with the canvas |
| Builder.CreateElementPlaces | public/builder.js:143-191 | The new element takes the next id as the only id added, is found with an empty dataset and the catalog's initial content, and deleting it restores the canvas |
| Builder.PlaceFresh | public/builder.js:143-191 | Creating with a fresh next id adds exactly that id, places the element as created, and is undone by removing it |
| Builder.DropValid | public/builder.js:495-505 | A drop keeps the invariant; without an element type it changes nothing, otherwise it adds exactly one id |
| Builder.DropOnLeafGoesToRoot | public/builder.js:500-503 | With no container under the pointer the new element becomes the canvas's last child |
| Builder.DropInserts | public/builder.js:495-505 | A drop of a catalog item inserts the new element, with the next id, under the parent the drop rule picks |
| Builder.NestInTarget | public/builder.js:500-503 | Over a container the new element becomes the last child of the innermost element under the pointer |
| Builder.DropOnContainerNests | public/builder.js:500-503 | With a container under the pointer the new element becomes its last child |
| Builder.SelectionValid | public/builder.js:194-208 | Selecting or deselecting keeps the invariant and changes neither the canvas nor the history |
| Builder.Selected | public/builder.js:194-208 | The panel shows an element exactly when one is selected, and for a live selection it is that element on the canvas |
| Builder.SelectedSound | public/builder.js:194-208 | The selected element holds no custom key, and a live one is well formed with unique ids |
| Builder.CommitValid | public/builder.js:406-454 | Writing back an edited copy keeps the invariant; on a live selection the canvas holds the copy under the same ids, and every element outside it keeps its type and dataset |
| Builder.ApplyPropertyValid | public/builder.js:406-454 | A property edit keeps the invariant; without a selection or the input it changes nothing; on a live selection that element gets the stored keys, every element outside its subtree keeps its type and dataset, and one snapshot is saved; on a detached one only the copy changes |
| Builder.SetContentValid | public/builder.js:381-390 | A text edit keeps the invariant; without a selection or a content field it changes nothing; on a live selection the element ends holding exactly the typed text, the ids stay the same, every element outside it keeps its type and dataset, and one snapshot is saved; on a detached one the copy gets the text, the canvas stays and a snapshot of it is still saved |
| Builder.NoCustomSelectors | public/builder.js:696 | In every valid state no element holds a custom id or class key, so every selector is the catalog class |
| Builder.StyleKeysAreInputKeys | public/builder.js:699-712 | The style table the generator reads lists, in order, exactly the storage keys of the fourteen style inputs wired at lines 393-395 |
| Builder.DeleteSelectedValid | public/builder.js:457-469 | Deleting keeps the invariant, clears the selection, removes exactly the live selection's subtree (by ids), leaves every surviving element with its type and dataset, and saves one snapshot |
| Builder.DeleteUndoesCreate | public/builder.js:457-462 | Selecting and deleting a just-created element restores the canvas from before the creation |
| Builder.DeleteFresh | public/builder.js:457-462 | With a fresh next id, creating, selecting and deleting restores the canvas |
| Builder.RestoreValid | public/builder.js:568-582 | Restoring a snapshot from the history keeps the invariant |
| Builder.UndoValid | public/builder.js:568-574 | Undo keeps the invariant, is a no-op at the first snapshot, and otherwise restores the previous snapshot with the selection no longer live |
| Builder.RedoValid | public/builder.js:576-582 | Redo keeps the invariant, is a no-op at the newest snapshot, and otherwise restores the next one |
| Builder.UndoThenRedoRestores | public/builder.js:568-582 | Undo then redo brings back the canvas and the history |
| Builder.UndoFloorNotEmpty | public/builder.js:569 | At the first snapshot undo does nothing and the canvas still holds an element |
| Builder.EditAfterUndoMissesCanvas | public/builder.js:568-574 | After an undo, a property edit leaves the restored canvas unchanged but still drops the redo branch |
| Builder.KeyDownValid | public/builder.js:594-614 | Every key press keeps the invariant |
| Builder.KeyDeleteGuard | public/builder.js:596-600 | Delete or Backspace deletes the selection, and only when focus is outside an INPUT or TEXTAREA |
| Builder.KeyShortcuts | public/builder.js:603-612 | Ctrl/Meta+z is undo, Ctrl/Meta+y is redo, and neither letter does anything without the modifier |
| Builder.StepValid | public/builder.js:145 | Every gesture keeps the invariant, and only a drop with an element type moves the counter, by one |
| Builder.RunValid | public/builder.js:145 | Any gesture sequence keeps the invariant and advances the counter by exactly the number of creating drops, so it is never rewound |
| Builder.IdsBounded | public/builder.js:145 | In a valid state all ids lie between 1 and the counter, and the next id appears neither on the canvas nor in any snapshot |
| Builder.SessionIdsFresh | public/builder.js:145 | From a fresh page, after any session all ids lie between 1 and the counter and the next id appears in no snapshot |
| Builder.ClickSelects | public/builder.js:507-512 | A click selects the innermost element under the pointer (whose own handler at lines 175-178 stops the event); over no element it deselects when the target is the bare canvas and does nothing over foreign markup; canvas, history and counter never change |
| Builder.ExportIgnoresSelectionAndHistory | public/builder.js:651-653 | The exported code depends on the canvas and the name only |

## Left out

- `src/server.js` (authentication, persisting the export to the theme) is not part of this model.
- DOM event wiring and `reattachListeners` are left out; `Builder.Step` stands in for them.
- The panel's HTML, `hideProperties` and pre-filled input values are left out. Only the choice of inputs (`PanelInputs`) and of the content field (`HasContentField`) is modelled.
- The modal, the clipboard and the viewport switch are cosmetic and left out.
- The `has-content`, `drop-target` and `selected` classes and the inline styles are left out. The generator reads none of them, and the snapshots carry them only as markup.
- HTML parsing and serialisation are left out. A snapshot is the canvas value itself, and typed content is kept as one text node even when it contains markup.
- The code escapes nothing and slugs no names, so the model does neither.
- Template lookup by inherited JavaScript property names (such as `constructor`) is not modelled: every unlisted type gets the `text` template.
- The ID input stores under `id` and so overwrites the element's `data-id`. Nothing reads that value back, so the model keeps an element's identity as the counter value apart from its dataset.
- Tree.WF: the tree invariant records only that `customId` and `customClass` are absent from every dataset, not that a dataset holds only keys the panel writes.
- Pointer positions are paths of child indexes, not screen coordinates, and there is no hit-testing.
- Properties.StorageKeysOfInputs: the keys of the three-word names `bg-color-text` and `text-color-text` are not computed. Nothing reads those keys; their colour write goes through `ColourKey` (`Properties.ColourTextSharesPickerKey`).
- Builder.RunValid: the id counter is modelled as an unbounded integer. On the page it is a JavaScript number, which stops growing after 2^53 creations, after which `el-` names would repeat; the counter, freshness and name-injectivity lemmas (`Builder.IdsBounded`, `Builder.SessionIdsFresh`, `Strings.ElementNameInjective`) describe the page only below that bound.
