/**
  The builder itself: the canvas, the selected element, the undo history of
  whole-canvas snapshots and the id counter, and the user actions that change
  them -- dropping a palette item, selecting, editing a property or the text,
  deleting, undo and redo, and the keyboard shortcuts.

  Undo and redo rebuild the canvas from a snapshot, so an element that was
  selected before becomes a detached copy: the selection keeps pointing at it,
  and later edits change only that copy while still saving history.
*/
module Builder {
  import opened Strings
  import opened Catalog
  import opened Tree
  import History
  import opened Properties
  import opened DragDrop
  import Codegen

  datatype Selection = NoSelection | Live(id: nat) | Detached(node: Node)

  datatype Builder = Builder(canvas: Canvas, selection: Selection,
                             history: History.History<Canvas>, counter: nat)

  /** The state the constructor sets up: empty canvas, nothing selected, no
      history (cursor -1), counter 0. */
  function Init(): Builder {
    Builder([], NoSelection, History.Empty(), 0)
  }

  /* ---------------- invariants ---------------- */

  /** The facts the operations need to be defined: the history cursor is in
      range and a live selection is an element of the canvas. */
  predicate Consistent(b: Builder) {
    && History.Valid(b.history)
    && (b.selection.Live? ==> b.selection.id in Ids(b.canvas))
  }

  /** Unique ids, all at most the counter, and no custom id or class key. */
  predicate Sound(c: Canvas, bound: nat) {
    Unique(c) && WF(c, bound, CustomKeys)
  }

  predicate AllSound(es: seq<Canvas>, bound: nat) {
    forall k :: 0 <= k < |es| ==> Sound(es[k], bound)
  }

  /** The invariant of every reachable state. */
  predicate Valid(b: Builder) {
    && Consistent(b)
    && Sound(b.canvas, b.counter)
    && AllSound(b.history.entries, b.counter)
    && (b.history.cursor >= 0 ==> b.canvas == b.history.entries[b.history.cursor])
    && (b.history.cursor < 0 ==> b.canvas == [] && b.selection.NoSelection?)
    && (b.history.entries == [] || Ids(b.history.entries[0]) != {})
    && (b.selection.Detached? ==> b.selection.node.props.Keys !! CustomKeys)
  }

  lemma InitValid()
    ensures Valid(Init())
    ensures Init().canvas == [] && Init().selection == NoSelection && Init().counter == 0
    ensures History.Current(Init().history).None?
  {
  }

  /** The next id the counter hands out is used nowhere: not on the canvas and
      not in any snapshot. */
  lemma NextIdFresh(b: Builder)
    requires Valid(b)
    ensures b.counter + 1 !in Ids(b.canvas)
    ensures forall k :: 0 <= k < |b.history.entries| ==> b.counter + 1 !in Ids(b.history.entries[k])
  {
    WFBounded(b.canvas, b.counter, CustomKeys);
    forall k | 0 <= k < |b.history.entries|
      ensures b.counter + 1 !in Ids(b.history.entries[k])
    {
      assert Sound(b.history.entries[k], b.counter);
      WFBounded(b.history.entries[k], b.counter, CustomKeys);
    }
  }

  lemma AllSoundMono(es: seq<Canvas>, bound: nat, bound': nat)
    requires AllSound(es, bound) && bound <= bound'
    ensures AllSound(es, bound')
  {
    forall k | 0 <= k < |es|
      ensures Sound(es[k], bound')
    {
      assert Sound(es[k], bound);
      WFMono(es[k], bound, bound', CustomKeys);
    }
  }

  lemma AllSoundSave(h: History.History<Canvas>, s: Canvas, bound: nat)
    requires History.Valid(h) && AllSound(h.entries, bound) && Sound(s, bound)
    ensures AllSound(History.Save(h, s).entries, bound)
  {
    var es := History.Save(h, s).entries;
    forall k | 0 <= k < |es|
      ensures Sound(es[k], bound)
    {
      if k < h.cursor + 1 {
        assert es[..h.cursor + 1][k] == h.entries[..h.cursor + 1][k];
        assert Sound(h.entries[k], bound);
      }
    }
  }

  /** Saving a sound canvas keeps the history part of the invariant, provided
      the first snapshot has an element when it is the one being written. */
  lemma SaveKeepsValid(b: Builder, c: Canvas, sel: Selection, counter: nat)
    requires Valid(b) && b.counter <= counter
    requires Sound(c, counter)
    requires sel.Live? ==> sel.id in Ids(c)
    requires sel.Detached? ==> sel.node.props.Keys !! CustomKeys
    requires b.history.cursor < 0 ==> Ids(c) != {}
    ensures Valid(Builder(c, sel, History.Save(b.history, c), counter))
  {
    AllSoundMono(b.history.entries, b.counter, counter);
    AllSoundSave(b.history, c, counter);
    if b.history.cursor >= 0 {
      History.SaveKeepsFirst(b.history, c);
    }
  }

  /* ---------------- creating and dropping ---------------- */

  /** The placeholder `<input>` an input element is created with. */
  const InputPlaceholder: string :=
    "<input type=\"text\" placeholder=\"Input placeholder\" style=\"pointer-events: none;\">"

  /** The list default is three list items; every other default is text. */
  const ListItems: seq<Segment> :=
    [Raw("<li>List item 1</li>"), Raw("<li>List item 2</li>"), Raw("<li>List item 3</li>")]

  /** What a new element holds after its label: the placeholder input for the
      `input` tag, nothing for an empty default, the template's default
      otherwise. */
  function InitialContent(kind: string): (r: seq<Segment>)
    ensures NoElems(r)
  {
    var t := Lookup(kind);
    if t.tag == "input" then [Raw(InputPlaceholder)]
    else if t.defaultContent == "" then []
    else if kind == "list" then ListItems
    else [Text(t.defaultContent)]
  }

  function NewElement(id: nat, kind: string): Node {
    Node(id, kind, map[], InitialContent(kind))
  }

  /** `createElement(type, parent)`: take the next id, append the new element
      to `parent` or to the canvas root, and save a snapshot. */
  function CreateElement(b: Builder, kind: string, parent: Option<nat>): Builder
    requires History.Valid(b.history)
    requires parent.Some? ==> parent.value in Ids(b.canvas)
  {
    var c := Insert(b.canvas, parent, NewElement(b.counter + 1, kind));
    b.(canvas := c, history := History.Save(b.history, c), counter := b.counter + 1)
  }

  /** Creating under a container or the root keeps the invariant. */
  lemma CreateElementValid(b: Builder, kind: string, parent: Option<nat>)
    requires Valid(b)
    requires parent.Some? ==> parent.value in Ids(b.canvas) && IsContainer(b.canvas, parent.value)
    ensures Valid(CreateElement(b, kind, parent))
  {
    var n := NewElement(b.counter + 1, kind);
    var c := Insert(b.canvas, parent, n);
    NoElemsSound(n.content, b.counter + 1, CustomKeys);
    assert NodeIds(n) == {n.id};
    assert NodeUnique(n);
    NextIdFresh(b);
    InsertIds(b.canvas, parent, n);
    InsertUnique(b.canvas, parent, n);
    WFMono(b.canvas, b.counter, b.counter + 1, CustomKeys);
    assert NodeWF(n, b.counter + 1, CustomKeys);
    InsertWF(b.canvas, parent, n, b.counter + 1, CustomKeys);
    SaveKeepsValid(b, c, b.selection, b.counter + 1);
  }

  /** The new element takes the next id and is found where it was put, with
      the catalog's initial content and an empty dataset; its id is the only
      one added, and deleting it gives the previous canvas back. */
  lemma CreateElementPlaces(b: Builder, kind: string, parent: Option<nat>)
    requires Valid(b)
    requires parent.Some? ==> parent.value in Ids(b.canvas)
    ensures var c := CreateElement(b, kind, parent).canvas;
            && Ids(c) == Ids(b.canvas) + {b.counter + 1}
            && Find(c, b.counter + 1) == Some(Node(b.counter + 1, kind, map[], InitialContent(kind)))
            && Remove(c, b.counter + 1) == b.canvas
  {
    NextIdFresh(b);
    PlaceFresh(b, kind, parent);
  }

  lemma PlaceFresh(b: Builder, kind: string, parent: Option<nat>)
    requires History.Valid(b.history) && Unique(b.canvas) && b.counter + 1 !in Ids(b.canvas)
    requires parent.Some? ==> parent.value in Ids(b.canvas)
    ensures var c := CreateElement(b, kind, parent).canvas;
            && Ids(c) == Ids(b.canvas) + {b.counter + 1}
            && Find(c, b.counter + 1) == Some(Node(b.counter + 1, kind, map[], InitialContent(kind)))
            && Remove(c, b.counter + 1) == b.canvas
  {
    var n := NewElement(b.counter + 1, kind);
    NoElemsIds(n.content);
    assert NodeIds(n) == {n.id};
    InsertIds(b.canvas, parent, n);
    InsertFind(b.canvas, parent, n);
    RemoveUndoesInsert(b.canvas, parent, n);
  }

  /** The drop handler: nothing for an empty drag payload; otherwise create
      the element inside the innermost canvas element under the pointer if
      that is a container, and on the canvas root if not. */
  function Drop(b: Builder, kind: string, path: seq<nat>): Builder
    requires History.Valid(b.history)
  {
    if kind == "" then b
    else CreateElement(b, kind, DropParent(b.canvas, DropTargetAt(b.canvas, path)))
  }

  /** A drop keeps the invariant and always appends exactly one element. */
  lemma DropValid(b: Builder, kind: string, path: seq<nat>)
    requires Valid(b)
    ensures Valid(Drop(b, kind, path))
    ensures kind == "" ==> Drop(b, kind, path) == b
    ensures kind != "" ==> Ids(Drop(b, kind, path).canvas) == Ids(b.canvas) + {b.counter + 1}
    ensures kind != "" ==> Drop(b, kind, path).counter == b.counter + 1
  {
    if kind != "" {
      var parent := DropParent(b.canvas, DropTargetAt(b.canvas, path));
      CreateElementValid(b, kind, parent);
      CreateElementPlaces(b, kind, parent);
    }
  }

  /** Dropping on a spot with no container under it appends to the root. */
  lemma DropOnLeafGoesToRoot(b: Builder, kind: string, path: seq<nat>)
    requires Valid(b) && kind != ""
    requires var reached := Reached(b.canvas, path);
             reached == [] || !Lookup(reached[|reached| - 1].kind).canContain
    ensures Drop(b, kind, path).canvas == b.canvas + [Elem(NewElement(b.counter + 1, kind))]
  {
    DropLands(b.canvas, path);
  }

  /** Dropping on a container appends inside it, as its last child. */
  lemma DropOnContainerNests(b: Builder, kind: string, path: seq<nat>)
    requires Valid(b) && kind != ""
    requires var reached := Reached(b.canvas, path);
             reached != [] && Lookup(reached[|reached| - 1].kind).canContain
    ensures var target := Reached(b.canvas, path)[|Reached(b.canvas, path)| - 1];
            Find(Drop(b, kind, path).canvas, target.id) ==
              Some(target.(content := target.content + [Elem(NewElement(b.counter + 1, kind))]))
  {
    NestInTarget(b, kind, path);
  }

  lemma NestInTarget(b: Builder, kind: string, path: seq<nat>)
    requires History.Valid(b.history) && Unique(b.canvas) && kind != ""
    requires var reached := Reached(b.canvas, path);
             reached != [] && Lookup(reached[|reached| - 1].kind).canContain
    ensures var target := Reached(b.canvas, path)[|Reached(b.canvas, path)| - 1];
            Find(Drop(b, kind, path).canvas, target.id) ==
              Some(target.(content := target.content + [Elem(NewElement(b.counter + 1, kind))]))
  {
    ContainerTarget(b.canvas, path);
    DropInserts(b, kind, path);
  }

  /** A drop carrying a type is the insertion of the next element under the
      drop parent. */
  lemma DropInserts(b: Builder, kind: string, path: seq<nat>)
    requires History.Valid(b.history) && kind != ""
    ensures Drop(b, kind, path).canvas ==
              Insert(b.canvas, DropParent(b.canvas, DropTargetAt(b.canvas, path)), NewElement(b.counter + 1, kind))
  {
  }

  /* ---------------- selection ---------------- */

  /** `selectElement(el)` for a click on a canvas element. */
  function SelectElement(b: Builder, id: nat): (r: Builder)
    requires id in Ids(b.canvas)
  {
    b.(selection := Live(id))
  }

  /** `selectElement(null)` for a click on the bare canvas. */
  function Deselect(b: Builder): Builder {
    b.(selection := NoSelection)
  }

  lemma SelectionValid(b: Builder, id: nat)
    requires Valid(b) && id in Ids(b.canvas)
    ensures Valid(SelectElement(b, id)) && Valid(Deselect(b))
    ensures SelectElement(b, id).canvas == b.canvas && SelectElement(b, id).history == b.history
    ensures Deselect(b).canvas == b.canvas && Deselect(b).history == b.history
  {
  }

  /** The element the properties panel is showing. */
  function Selected(b: Builder): (r: Option<Node>)
    requires Consistent(b)
    ensures b.selection.NoSelection? <==> r.None?
    ensures b.selection.Live? ==> r == Find(b.canvas, b.selection.id)
  {
    match b.selection
    case NoSelection => None
    case Live(id) => Find(b.canvas, id)
    case Detached(n) => Some(n)
  }

  /** Puts an edited copy of the selected element back where it came from:
      into the canvas for a live selection (with a snapshot), into the
      detached copy otherwise (the snapshot then repeats the canvas). */
  function Commit(b: Builder, n: Node): Builder
    requires History.Valid(b.history) && !b.selection.NoSelection?
  {
    match b.selection
    case Live(id) =>
      var c := Replace(b.canvas, id, n);
      b.(canvas := c, history := History.Save(b.history, c))
    case Detached(_) =>
      b.(selection := Detached(n), history := History.Save(b.history, b.canvas))
  }

  /* ---------------- editing ---------------- */

  /** `applyProperty(prop)` with the panel input holding `value`: nothing
      without a selection or when the panel has no such input; otherwise the
      dataset writes of `Store` and a snapshot. */
  function ApplyProperty(b: Builder, prop: string, value: string): Builder
    requires Consistent(b)
  {
    match Selected(b)
    case None => b
    case Some(n) =>
      if prop !in PanelInputs(n.kind) then b
      else Commit(b, n.(props := Store(n.props, prop, value)))
  }

  /** The content text area's listener: the element's content is replaced by
      the typed text (nothing when it is empty) and a snapshot is saved. */
  function SetContent(b: Builder, value: string): Builder
    requires Consistent(b)
  {
    match Selected(b)
    case None => b
    case Some(n) =>
      if !HasContentField(n.kind) then b
      else Commit(b, n.(content := if value == "" then [] else [Text(value)]))
  }

  lemma SelectedSound(b: Builder)
    requires Valid(b) && !b.selection.NoSelection?
    ensures b.history.cursor >= 0
    ensures Selected(b).value.props.Keys !! CustomKeys
    ensures b.selection.Live? ==>
              && NodeWF(Selected(b).value, b.counter, CustomKeys)
              && NodeUnique(Selected(b).value)
  {
    if b.selection.Live? {
      FindWF(b.canvas, b.selection.id, b.counter, CustomKeys);
      FindUnique(b.canvas, b.selection.id);
    }
  }

  /** Committing a copy with the same id, the same nested elements and
      storable keys keeps the invariant. */
  lemma CommitValid(b: Builder, n: Node)
    requires Valid(b) && !b.selection.NoSelection?
    requires n.props.Keys !! CustomKeys
    requires b.selection.Live? ==>
               var prev := Selected(b).value;
               && n.id == prev.id
               && NodeIds(n) == NodeIds(prev)
               && NodeUnique(n)
               && NodeWF(n, b.counter, CustomKeys)
    ensures Valid(Commit(b, n))
    ensures b.selection.Live? ==>
              && Find(Commit(b, n).canvas, n.id) == Some(n)
              && Ids(Commit(b, n).canvas) == Ids(b.canvas)
    ensures b.selection.Detached? ==> Commit(b, n).canvas == b.canvas
    ensures b.selection.Live? ==>
              forall x :: x in Ids(b.canvas) && x !in NodeIds(n) ==>
                && Find(Commit(b, n).canvas, x).Some?
                && Find(Commit(b, n).canvas, x).value.kind == Find(b.canvas, x).value.kind
                && Find(Commit(b, n).canvas, x).value.props == Find(b.canvas, x).value.props
  {
    SelectedSound(b);
    if b.selection.Live? {
      var id := b.selection.id;
      var c := Replace(b.canvas, id, n);
      forall x | x in Ids(b.canvas) && x !in NodeIds(n)
        ensures Find(c, x).Some? && Find(c, x).value.kind == Find(b.canvas, x).value.kind
        ensures Find(c, x).value.props == Find(b.canvas, x).value.props
      {
        ReplaceKeepsOthers(b.canvas, id, n, x);
      }
      ReplaceIds(b.canvas, id, n);
      ReplaceUnique(b.canvas, id, n);
      ReplaceWF(b.canvas, id, n, b.counter, CustomKeys);
      ReplaceFind(b.canvas, id, n);
      SaveKeepsValid(b, c, b.selection, b.counter);
    } else {
      SaveKeepsValid(b, b.canvas, b.selection, b.counter);
    }
  }

  /** A property edit keeps the invariant. On a live selection it writes
      `Store`'s keys into exactly that element and saves; with no selection or
      no such input it changes nothing; on a detached selection the canvas
      stays as it is but a snapshot of it is still saved, which discards the
      redo branch. */
  lemma ApplyPropertyValid(b: Builder, prop: string, value: string)
    requires Valid(b)
    ensures Valid(ApplyProperty(b, prop, value))
    ensures ApplyProperty(b, prop, value).counter == b.counter
    ensures b.selection.NoSelection? ==> ApplyProperty(b, prop, value) == b
    ensures !b.selection.NoSelection? && prop !in PanelInputs(Selected(b).value.kind) ==>
              ApplyProperty(b, prop, value) == b
    ensures b.selection.Live? && prop in PanelInputs(Selected(b).value.kind) ==>
              var n := Selected(b).value;
              var r := ApplyProperty(b, prop, value);
              && Find(r.canvas, n.id) == Some(n.(props := Store(n.props, prop, value)))
              && Ids(r.canvas) == Ids(b.canvas)
              && r.history == History.Save(b.history, r.canvas)
              && forall x :: x in Ids(b.canvas) && x !in NodeIds(n) ==>
                   && Find(r.canvas, x).Some?
                   && Find(r.canvas, x).value.kind == Find(b.canvas, x).value.kind
                   && Find(r.canvas, x).value.props == Find(b.canvas, x).value.props
    ensures b.selection.Detached? && prop in PanelInputs(b.selection.node.kind) ==>
              var r := ApplyProperty(b, prop, value);
              && r.canvas == b.canvas
              && r.history == History.Save(b.history, b.canvas)
              && r.selection == Detached(b.selection.node.(props := Store(b.selection.node.props, prop, value)))
  {
    if !b.selection.NoSelection? {
      var n := Selected(b).value;
      if prop in PanelInputs(n.kind) {
        SelectedSound(b);
        StoreAvoidsCustomKeys(n.props, prop, value);
        CommitValid(b, n.(props := Store(n.props, prop, value)));
      }
    }
  }

  /** A text edit keeps the invariant and, on a live selection, leaves the
      element holding exactly the typed text. */
  lemma SetContentValid(b: Builder, value: string)
    requires Valid(b)
    ensures Valid(SetContent(b, value))
    ensures SetContent(b, value).counter == b.counter
    ensures b.selection.NoSelection? ==> SetContent(b, value) == b
    ensures !b.selection.NoSelection? && !HasContentField(Selected(b).value.kind) ==>
              SetContent(b, value) == b
    ensures b.selection.Live? && HasContentField(Selected(b).value.kind) ==>
              var n := Selected(b).value;
              var r := SetContent(b, value);
              && Find(r.canvas, n.id) == Some(n.(content := if value == "" then [] else [Text(value)]))
              && Ids(r.canvas) == Ids(b.canvas)
              && r.history == History.Save(b.history, r.canvas)
              && forall x :: x in Ids(b.canvas) && x !in NodeIds(n) ==>
                   && Find(SetContent(b, value).canvas, x).Some?
                   && Find(SetContent(b, value).canvas, x).value.kind == Find(b.canvas, x).value.kind
                   && Find(SetContent(b, value).canvas, x).value.props == Find(b.canvas, x).value.props
    ensures b.selection.Detached? && HasContentField(b.selection.node.kind) ==>
              var r := SetContent(b, value);
              && r.canvas == b.canvas
              && r.history == History.Save(b.history, b.canvas)
              && r.selection == Detached(b.selection.node.(content := if value == "" then [] else [Text(value)]))
  {
    if !b.selection.NoSelection? {
      var n := Selected(b).value;
      if HasContentField(n.kind) {
        SelectedSound(b);
        var m := n.(content := if value == "" then [] else [Text(value)]);
        if b.selection.Live? {
          assert !Lookup(n.kind).canContain;
          assert NoElems(n.content);
          NoElemsIds(n.content);
          NoElemsIds(m.content);
          assert NodeIds(m) == NodeIds(n);
        }
        CommitValid(b, m);
      }
    }
  }

  /** The generator reads exactly the keys the style inputs write: the k-th
      entry of the style table is the storage key of the k-th style input.
      The colour text fields reach the same two colour keys through
      `ColourTextSharesPickerKey`. */
  lemma StyleKeysAreInputKeys()
    ensures StorageKeys(StyleInputs) == Codegen.StyleKeys(Codegen.StyleTable)
  {
    StorageKeysOfInputs();
  }

  /** The ID and Class inputs never produce the keys the generator reads for
      a custom id or class, so in every reachable state each element's
      selector is its catalog class. */
  lemma NoCustomSelectors(b: Builder, id: nat)
    requires Valid(b) && id in Ids(b.canvas)
    ensures "customId" !in Find(b.canvas, id).value.props
    ensures "customClass" !in Find(b.canvas, id).value.props
    ensures Codegen.Selector(Find(b.canvas, id).value) == "." + Lookup(Find(b.canvas, id).value.kind).cls
  {
    FindWF(b.canvas, id, b.counter, CustomKeys);
    Codegen.SelectorWithoutCustomId(Find(b.canvas, id).value);
  }

  /* ---------------- deleting ---------------- */

  /** `deleteSelected`: nothing without a selection; otherwise remove the
      selected element with everything inside it, clear the selection and
      save. A detached selection is removed from nowhere. */
  function DeleteSelected(b: Builder): Builder
    requires History.Valid(b.history)
  {
    match b.selection
    case NoSelection => b
    case Live(id) =>
      var c := Remove(b.canvas, id);
      b.(canvas := c, selection := NoSelection, history := History.Save(b.history, c))
    case Detached(_) =>
      b.(selection := NoSelection, history := History.Save(b.history, b.canvas))
  }

  /** Deleting keeps the invariant and takes away exactly the selected
      element's subtree. */
  lemma DeleteSelectedValid(b: Builder)
    requires Valid(b)
    ensures Valid(DeleteSelected(b))
    ensures DeleteSelected(b).selection == NoSelection && DeleteSelected(b).counter == b.counter
    ensures b.selection.NoSelection? ==> DeleteSelected(b) == b
    ensures b.selection.Live? ==>
              Ids(DeleteSelected(b).canvas) == Ids(b.canvas) - NodeIds(Find(b.canvas, b.selection.id).value)
    ensures b.selection.Live? ==>
              forall x :: x in Ids(DeleteSelected(b).canvas) ==>
                && Find(DeleteSelected(b).canvas, x).value.kind == Find(b.canvas, x).value.kind
                && Find(DeleteSelected(b).canvas, x).value.props == Find(b.canvas, x).value.props
    ensures b.selection.Detached? ==> DeleteSelected(b).canvas == b.canvas
    ensures !b.selection.NoSelection? ==>
              DeleteSelected(b).history == History.Save(b.history, DeleteSelected(b).canvas)
  {
    if !b.selection.NoSelection? {
      SelectedSound(b);
      if b.selection.Live? {
        var c := Remove(b.canvas, b.selection.id);
        forall x | x in Ids(c)
          ensures Find(c, x).value.kind == Find(b.canvas, x).value.kind
          ensures Find(c, x).value.props == Find(b.canvas, x).value.props
        {
          RemoveKeepsOthers(b.canvas, b.selection.id, x);
        }
        RemoveIds(b.canvas, b.selection.id);
        RemoveUnique(b.canvas, b.selection.id);
        RemoveWF(b.canvas, b.selection.id, b.counter, CustomKeys);
        SaveKeepsValid(b, c, NoSelection, b.counter);
      } else {
        SaveKeepsValid(b, b.canvas, NoSelection, b.counter);
      }
    }
  }

  /** Deleting an element right after creating and selecting it restores the
      canvas from before the creation. */
  lemma DeleteUndoesCreate(b: Builder, kind: string, parent: Option<nat>)
    requires Valid(b)
    requires parent.Some? ==> parent.value in Ids(b.canvas)
    ensures var r := CreateElement(b, kind, parent);
            r.counter in Ids(r.canvas) &&
            DeleteSelected(SelectElement(r, r.counter)).canvas == b.canvas
  {
    NextIdFresh(b);
    DeleteFresh(b, kind, parent);
  }

  lemma DeleteFresh(b: Builder, kind: string, parent: Option<nat>)
    requires History.Valid(b.history) && Unique(b.canvas) && b.counter + 1 !in Ids(b.canvas)
    requires parent.Some? ==> parent.value in Ids(b.canvas)
    ensures var r := CreateElement(b, kind, parent);
            r.counter in Ids(r.canvas) &&
            DeleteSelected(SelectElement(r, r.counter)).canvas == b.canvas
  {
    PlaceFresh(b, kind, parent);
  }

  /* ---------------- undo and redo ---------------- */

  /** What the selection becomes when the canvas is rebuilt from a snapshot. */
  function Detach(b: Builder): Selection
    requires Consistent(b)
  {
    match b.selection
    case Live(id) => Detached(Find(b.canvas, id).value)
    case other => other
  }

  /** Apply an undo or redo step: when it restores a snapshot, the canvas
      becomes that snapshot and the selection detaches. */
  function Restore(b: Builder, st: History.Step<Canvas>): Builder
    requires Consistent(b)
  {
    match st.restored
    case None => b
    case Some(c) => b.(canvas := c, history := st.history, selection := Detach(b))
  }

  function Undo(b: Builder): Builder
    requires Consistent(b)
  {
    Restore(b, History.Undo(b.history))
  }

  function Redo(b: Builder): Builder
    requires Consistent(b)
  {
    Restore(b, History.Redo(b.history))
  }

  lemma RestoreValid(b: Builder, st: History.Step<Canvas>)
    requires Valid(b)
    requires History.Valid(st.history) && st.history.entries == b.history.entries
    requires st.restored.Some? ==>
               st.history.cursor >= 0 && st.restored.value == st.history.entries[st.history.cursor]
    requires st.restored.None? ==> st.history == b.history
    ensures Valid(Restore(b, st))
  {
    if st.restored.Some? {
      assert Sound(b.history.entries[st.history.cursor], b.counter);
      if b.selection.Live? {
        FindWF(b.canvas, b.selection.id, b.counter, CustomKeys);
      }
    }
  }

  /** Undo keeps the invariant; it is a no-op at the first snapshot, and
      otherwise restores the previous snapshot with the selection detached. */
  lemma UndoValid(b: Builder)
    requires Valid(b)
    ensures Valid(Undo(b)) && Undo(b).counter == b.counter
    ensures b.history.cursor <= 0 ==> Undo(b) == b
    ensures b.history.cursor > 0 ==>
              && Undo(b).canvas == b.history.entries[b.history.cursor - 1]
              && Undo(b).history.cursor == b.history.cursor - 1
              && !Undo(b).selection.Live?
  {
    RestoreValid(b, History.Undo(b.history));
  }

  /** Redo keeps the invariant; it is a no-op at the last snapshot. */
  lemma RedoValid(b: Builder)
    requires Valid(b)
    ensures Valid(Redo(b)) && Redo(b).counter == b.counter
    ensures b.history.cursor == |b.history.entries| - 1 ==> Redo(b) == b
    ensures b.history.cursor < |b.history.entries| - 1 ==>
              && Redo(b).canvas == b.history.entries[b.history.cursor + 1]
              && Redo(b).history.cursor == b.history.cursor + 1
              && !Redo(b).selection.Live?
  {
    RestoreValid(b, History.Redo(b.history));
  }

  /** Undo then redo brings back the canvas and the history. */
  lemma UndoThenRedoRestores(b: Builder)
    requires Valid(b) && b.history.cursor > 0
    ensures Redo(Undo(b)).canvas == b.canvas && Redo(Undo(b)).history == b.history
  {
    UndoValid(b);
    History.UndoThenRedo(b.history);
  }

  /** In every reachable state undo never brings back an empty canvas at the
      first snapshot: the canvas at index 0 already holds the first element
      created. */
  lemma UndoFloorNotEmpty(b: Builder)
    requires Valid(b) && b.history.cursor == 0
    ensures Undo(b) == b && Ids(Undo(b).canvas) != {}
  {
  }

  /** After an undo the panel edits a detached copy: a property edit leaves
      the canvas as restored while it still drops the redo branch. */
  lemma EditAfterUndoMissesCanvas(b: Builder, prop: string, value: string)
    requires Valid(b) && b.selection.Live? && b.history.cursor > 0
    requires prop in PanelInputs(Find(b.canvas, b.selection.id).value.kind)
    ensures var u := Undo(b);
            var e := ApplyProperty(u, prop, value);
            && e.canvas == u.canvas
            && |e.history.entries| == b.history.cursor + 1
            && History.Redo(e.history).restored.None?
  {
    UndoValid(b);
    var u := Undo(b);
    ApplyPropertyValid(u, prop, value);
  }

  /* ---------------- keyboard ---------------- */

  /** The document-level `keydown` handler: Delete or Backspace deletes the
      selection unless the focused element is an INPUT or a TEXTAREA; with
      Ctrl or Meta held, `z` undoes and `y` redoes. */
  function KeyDown(b: Builder, key: string, ctrlOrMeta: bool, focusTag: string): Builder
    requires Consistent(b)
  {
    var deleting := (key == "Delete" || key == "Backspace") && !b.selection.NoSelection?
                    && focusTag != "INPUT" && focusTag != "TEXTAREA";
    var b1 := if deleting then DeleteSelected(b) else b;
    if !ctrlOrMeta then b1
    else if key == "z" then Undo(b1)
    else if key == "y" then Redo(b1)
    else b1
  }

  lemma KeyDownValid(b: Builder, key: string, ctrlOrMeta: bool, focusTag: string)
    requires Valid(b)
    ensures Valid(KeyDown(b, key, ctrlOrMeta, focusTag))
    ensures KeyDown(b, key, ctrlOrMeta, focusTag).counter == b.counter
  {
    DeleteSelectedValid(b);
    UndoValid(b);
    RedoValid(b);
  }

  /** Typing Delete or Backspace into a text field never deletes an element. */
  lemma KeyDeleteGuard(b: Builder, key: string, ctrlOrMeta: bool, focusTag: string)
    requires Consistent(b)
    requires key == "Delete" || key == "Backspace"
    ensures (focusTag == "INPUT" || focusTag == "TEXTAREA" || b.selection.NoSelection?) ==>
              KeyDown(b, key, ctrlOrMeta, focusTag) == b
    ensures !(focusTag == "INPUT" || focusTag == "TEXTAREA" || b.selection.NoSelection?) ==>
              KeyDown(b, key, ctrlOrMeta, focusTag) == DeleteSelected(b)
  {
  }

  /** The shortcuts: Ctrl/Meta+z is undo, Ctrl/Meta+y is redo, and neither
      letter does anything without the modifier. */
  lemma KeyShortcuts(b: Builder, focusTag: string)
    requires Consistent(b)
    ensures KeyDown(b, "z", true, focusTag) == Undo(b)
    ensures KeyDown(b, "y", true, focusTag) == Redo(b)
    ensures KeyDown(b, "z", false, focusTag) == b && KeyDown(b, "y", false, focusTag) == b
  {
  }

  /* ---------------- sessions ---------------- */

  /** A click at `path`. The event bubbles up from its target: the first
      canvas element on the way selects itself and stops it there; if none
      is met and the target is the canvas itself (nothing lies between
      them), the canvas listener deselects; otherwise nothing happens. */
  function Click(b: Builder, path: seq<nat>): Builder {
    match DropTargetAt(b.canvas, path)
    case Some(id) => SelectElement(b, id)
    case None => if Chain(b.canvas, path) == [] then Deselect(b) else b
  }

  /** A click selects the innermost element under the pointer. Over no
      element it deselects when the target is the bare canvas -- past its
      last child or on text lying directly on it -- and does nothing over
      foreign markup. Canvas, history and counter never change. */
  lemma ClickSelects(b: Builder, path: seq<nat>)
    ensures var c := Click(b, path);
            c.canvas == b.canvas && c.history == b.history && c.counter == b.counter
    ensures var reached := Reached(b.canvas, path);
            reached != [] ==>
              && Click(b, path).selection == Live(reached[|reached| - 1].id)
              && (Unique(b.canvas) ==> Find(b.canvas, reached[|reached| - 1].id) == Some(reached[|reached| - 1]))
    ensures Reached(b.canvas, path) == [] && (path == [] || path[0] >= |b.canvas| || b.canvas[path[0]].Text?) ==>
              Click(b, path).selection == NoSelection
    ensures Reached(b.canvas, path) == [] && path != [] && path[0] < |b.canvas| && b.canvas[path[0]].Raw? ==>
              Click(b, path) == b
  {
    DropTargetIsInnermost(b.canvas, path);
    if Unique(b.canvas) {
      ReachedFound(b.canvas, path);
    }
  }

  /** One gesture on the builder page. */
  datatype Action =
    | DropItem(kind: string, path: seq<nat>)
    | ClickAt(path: seq<nat>)
    | EditProperty(prop: string, value: string)
    | TypeContent(value: string)
    | DeleteButton
    | UndoButton
    | RedoButton
    | Key(key: string, ctrlOrMeta: bool, focusTag: string)

  /** The handler each gesture reaches. */
  function Step(b: Builder, a: Action): Builder
    requires Consistent(b)
  {
    match a
    case DropItem(kind, path) => Drop(b, kind, path)
    case ClickAt(path) => Click(b, path)
    case EditProperty(prop, value) => ApplyProperty(b, prop, value)
    case TypeContent(value) => SetContent(b, value)
    case DeleteButton => DeleteSelected(b)
    case UndoButton => Undo(b)
    case RedoButton => Redo(b)
    case Key(key, ctrlOrMeta, focusTag) => KeyDown(b, key, ctrlOrMeta, focusTag)
  }

  /** Whether a gesture creates an element: a drop carrying an element type. */
  predicate Creates(a: Action) {
    a.DropItem? && a.kind != ""
  }

  /** The number of creating gestures in a session. */
  function Creations(actions: seq<Action>): nat {
    if actions == [] then 0
    else (if Creates(actions[0]) then 1 else 0) + Creations(actions[1..])
  }

  /** Every gesture keeps the invariant, and only a drop moves the id counter
      -- by one. Undo and redo restore snapshots but never the counter. */
  lemma StepValid(b: Builder, a: Action)
    requires Valid(b)
    ensures Valid(Step(b, a))
    ensures Step(b, a).counter == if Creates(a) then b.counter + 1 else b.counter
  {
    match a
    case DropItem(kind, path) => DropValid(b, kind, path);
    case ClickAt(path) =>
      var target := DropTargetAt(b.canvas, path);
      if target.Some? {
        SelectionValid(b, target.value);
      }
    case EditProperty(prop, value) => ApplyPropertyValid(b, prop, value);
    case TypeContent(value) => SetContentValid(b, value);
    case DeleteButton => DeleteSelectedValid(b);
    case UndoButton => UndoValid(b);
    case RedoButton => RedoValid(b);
    case Key(key, ctrlOrMeta, focusTag) => KeyDownValid(b, key, ctrlOrMeta, focusTag);
  }

  /** A session: the gestures applied in order. */
  function Run(b: Builder, actions: seq<Action>): Builder
    requires Valid(b)
    decreases |actions|
  {
    if actions == [] then b
    else
      StepValid(b, actions[0]);
      Run(Step(b, actions[0]), actions[1..])
  }

  /** Every session keeps the invariant, and the counter has advanced by
      exactly the number of creating drops: it is never rewound. */
  lemma {:induction false} RunValid(b: Builder, actions: seq<Action>)
    requires Valid(b)
    ensures Valid(Run(b, actions))
    ensures Run(b, actions).counter == b.counter + Creations(actions)
    decreases |actions|
  {
    if actions != [] {
      StepValid(b, actions[0]);
      RunValid(Step(b, actions[0]), actions[1..]);
    }
  }

  /** From a fresh page, after any session the next element's id has never
      been used: not on the canvas and not in any snapshot undo or redo could
      bring back. Every element carries an id from `1` to the counter. */
  lemma SessionIdsFresh(actions: seq<Action>)
    ensures var b := Run(Init(), actions);
            && b.counter == Creations(actions)
            && b.counter + 1 !in Ids(b.canvas)
            && (forall k :: 0 <= k < |b.history.entries| ==> b.counter + 1 !in Ids(b.history.entries[k]))
            && (forall id :: id in Ids(b.canvas) ==> 1 <= id <= b.counter)
  {
    InitValid();
    RunValid(Init(), actions);
    IdsBounded(Run(Init(), actions));
  }

  /** In a valid state every id lies between 1 and the counter, and the next
      one is fresh everywhere. */
  lemma IdsBounded(b: Builder)
    requires Valid(b)
    ensures b.counter + 1 !in Ids(b.canvas)
    ensures forall k :: 0 <= k < |b.history.entries| ==> b.counter + 1 !in Ids(b.history.entries[k])
    ensures forall id :: id in Ids(b.canvas) ==> 1 <= id <= b.counter
  {
    NextIdFresh(b);
    WFBounded(b.canvas, b.counter, CustomKeys);
  }

  /* ---------------- export ---------------- */

  /** The export modal's code: the generator run on the canvas with the typed
      section name, or the default name when the field is empty. */
  function ExportCode(b: Builder, nameInput: string): Codegen.Export {
    Codegen.GenerateCode(b.canvas, Codegen.ExportName(nameInput))
  }

  /** Export reads the canvas and nothing else. */
  lemma ExportIgnoresSelectionAndHistory(b: Builder, s: Selection, h: History.History<Canvas>, nameInput: string)
    ensures ExportCode(b.(selection := s, history := h), nameInput) == ExportCode(b, nameInput)
  {
  }
}
