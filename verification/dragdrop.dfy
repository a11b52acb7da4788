/**
  Where a drop lands. The `drop` handler walks from the event target up
  towards the canvas and takes the first canvas element it meets
  (`findDropTarget`); the new element goes inside that element when it is a
  container, and onto the canvas root otherwise -- never into a container
  further up.

  The pointer position is given as a path of child indexes from the canvas
  root: `path[0]` picks a child of the canvas, `path[1]` a child of that
  element, and so on. A path that ends, or indexes past an element's
  children (the pointer is over the element's label or padding), stops at
  the element reached so far; a path that meets foreign markup (a list item,
  the placeholder input) stops there, with that markup as the event target.
*/
module DragDrop {
  import opened Strings
  import opened Catalog
  import opened Tree

  /** A DOM node between the event target and the canvas. */
  datatype DomItem = CanvasElement(id: nat) | Other

  /** The canvas elements the path passes through, outermost first. */
  function Reached(segs: seq<Segment>, path: seq<nat>): (r: seq<Node>)
    ensures forall k :: 0 <= k < |r| ==> r[k].id in Ids(segs)
    decreases |path|
  {
    if path == [] || path[0] >= |segs| then []
    else
      match segs[path[0]]
      case Elem(n) =>
        IdsOfMember(segs, path[0]);
        var inner := Reached(n.content, path[1..]);
        assert forall k :: 1 <= k < |[n] + inner| ==> ([n] + inner)[k] == inner[k - 1];
        [n] + inner
      case _ => []
  }

  /** The event target and its ancestors below the canvas, target first: the
      nodes `findDropTarget` visits. */
  function Chain(segs: seq<Segment>, path: seq<nat>): seq<DomItem>
    decreases |path|
  {
    if path == [] || path[0] >= |segs| then []
    else
      match segs[path[0]]
      case Elem(n) => Chain(n.content, path[1..]) + [CanvasElement(n.id)]
      case Raw(_) => [Other]
      case Text(_) => []
  }

  /** `findDropTarget`: the first canvas element on the way up, if any. */
  function FindDropTarget(upward: seq<DomItem>): (r: Option<nat>)
    ensures r.None? <==> forall k :: 0 <= k < |upward| ==> upward[k] == Other
  {
    if upward == [] then None
    else if upward[0].CanvasElement? then Some(upward[0].id)
    else FindDropTarget(upward[1..])
  }

  /** The target found is a canvas element on the chain with nothing but
      other nodes before it. */
  lemma {:induction false} FindDropTargetIsFirst(upward: seq<DomItem>)
    ensures var r := FindDropTarget(upward);
            r.Some? ==>
              exists k :: 0 <= k < |upward| && upward[k] == CanvasElement(r.value)
                          && forall j :: 0 <= j < k ==> upward[j] == Other
  {
    var r := FindDropTarget(upward);
    if upward != [] && !upward[0].CanvasElement? && r.Some? {
      FindDropTargetIsFirst(upward[1..]);
      var k :| 0 <= k < |upward[1..]| && upward[1..][k] == CanvasElement(r.value)
               && forall j :: 0 <= j < k ==> upward[1..][j] == Other;
      assert upward[k + 1] == CanvasElement(r.value);
      forall j | 0 <= j < k + 1
        ensures upward[j] == Other
      {
        if j > 0 {
          assert upward[j] == upward[1..][j - 1];
        }
      }
    }
  }

  /** The walk up stops in the first part of the chain if it can. */
  lemma {:induction false} FindDropTargetAppend(a: seq<DomItem>, b: seq<DomItem>)
    ensures FindDropTarget(a + b) ==
              if FindDropTarget(a).Some? then FindDropTarget(a) else FindDropTarget(b)
  {
    if a == [] {
      assert a + b == b;
    } else {
      assert (a + b)[0] == a[0];
      assert (a + b)[1..] == a[1..] + b;
      FindDropTargetAppend(a[1..], b);
    }
  }

  /** The drop target is the innermost canvas element under the pointer. */
  lemma {:induction false} DropTargetIsInnermost(segs: seq<Segment>, path: seq<nat>)
    ensures var reached := Reached(segs, path);
            FindDropTarget(Chain(segs, path)) ==
              if reached == [] then None else Some(reached[|reached| - 1].id)
    decreases |path|
  {
    if path != [] && path[0] < |segs| {
      match segs[path[0]] {
        case Elem(n) =>
          var inner := Chain(n.content, path[1..]);
          DropTargetIsInnermost(n.content, path[1..]);
          FindDropTargetAppend(inner, [CanvasElement(n.id)]);
        case _ =>
      }
    }
  }

  /** With unique ids, every element the path reaches is the one its id finds. */
  lemma {:induction false} ReachedFound(segs: seq<Segment>, path: seq<nat>)
    requires Unique(segs)
    ensures forall k :: 0 <= k < |Reached(segs, path)| ==>
                          Find(segs, Reached(segs, path)[k].id) == Some(Reached(segs, path)[k])
    decreases |path|
  {
    if path != [] && path[0] < |segs| {
      match segs[path[0]] {
        case Elem(n) =>
          var i := path[0];
          var inner := Reached(n.content, path[1..]);
          assert Unique(n.content) && n.id !in Ids(n.content) by {
            UniqueMember(segs, i);
          }
          ReachedFound(n.content, path[1..]);
          FindMember(segs, i, n.id);
          forall k | 0 <= k < |inner|
            ensures Find(segs, inner[k].id) == Some(inner[k])
          {
            assert Find(n.content, inner[k].id) == Some(inner[k]);
            assert inner[k].id in Ids(n.content);
            assert inner[k].id != n.id;
            assert segs[i] == Elem(n);
            FindMember(segs, i, inner[k].id);
            assert FindIn(segs[i], inner[k].id) == Find(n.content, inner[k].id);
          }
          assert Reached(segs, path) == [n] + inner;
        case _ =>
      }
    }
  }

  lemma {:induction false} UniqueMember(segs: seq<Segment>, i: nat)
    requires Unique(segs) && i < |segs|
    ensures SegUnique(segs[i])
    decreases i
  {
    if i > 0 {
      UniqueMember(segs[1..], i - 1);
    }
  }

  /** The `data-container` flag the builder sets on a new element. */
  predicate IsContainer(canvas: Canvas, id: nat)
    requires id in Ids(canvas)
  {
    Lookup(Find(canvas, id).value.kind).canContain
  }

  /** The drop rule: append inside the target if it is a container, else onto
      the canvas root (`None`). */
  function DropParent(canvas: Canvas, target: Option<nat>): (r: Option<nat>)
    requires target.Some? ==> target.value in Ids(canvas)
    ensures r.Some? ==> r.value in Ids(canvas)
  {
    if target.Some? && IsContainer(canvas, target.value) then target else None
  }

  /** `findDropTarget(e.target)` for the pointer at `path`: the id of the
      innermost canvas element under it, if any. */
  function DropTargetAt(canvas: Canvas, path: seq<nat>): (r: Option<nat>)
    ensures r.Some? ==> r.value in Ids(canvas)
  {
    DropTargetIsInnermost(canvas, path);
    FindDropTarget(Chain(canvas, path))
  }

  /** The drag-over highlight is shown exactly on the element a drop would
      append into. */
  predicate Highlighted(canvas: Canvas, target: Option<nat>)
    requires target.Some? ==> target.value in Ids(canvas)
  {
    target.Some? && IsContainer(canvas, target.value)
  }

  /** Where a drop at `path` appends: inside the innermost element under the
      pointer if that element is a container, and onto the canvas root in
      every other case -- also when the innermost element is a leaf nested
      inside a container. */
  lemma DropLands(canvas: Canvas, path: seq<nat>)
    requires Unique(canvas)
    ensures var reached := Reached(canvas, path);
            var target := FindDropTarget(Chain(canvas, path));
            && (target.Some? ==> target.value in Ids(canvas))
            && (reached == [] ==> DropParent(canvas, target) == None)
            && (reached != [] ==>
                  var inner := reached[|reached| - 1];
                  && (Lookup(inner.kind).canContain ==> DropParent(canvas, target) == Some(inner.id))
                  && (!Lookup(inner.kind).canContain ==> DropParent(canvas, target) == None))
  {
    DropTargetIsInnermost(canvas, path);
    ReachedFound(canvas, path);
  }

  /** Over a container, the drop parent is the innermost element under the
      pointer, found as it was reached. */
  lemma ContainerTarget(canvas: Canvas, path: seq<nat>)
    requires Unique(canvas)
    requires var reached := Reached(canvas, path);
             reached != [] && Lookup(reached[|reached| - 1].kind).canContain
    ensures var target := Reached(canvas, path)[|Reached(canvas, path)| - 1];
            && DropParent(canvas, DropTargetAt(canvas, path)) == Some(target.id)
            && Find(canvas, target.id) == Some(target)
  {
    DropLands(canvas, path);
    ReachedFound(canvas, path);
  }

  /** The highlight and the drop agree. */
  lemma HighlightIsDropParent(canvas: Canvas, target: Option<nat>)
    requires target.Some? ==> target.value in Ids(canvas)
    ensures Highlighted(canvas, target) <==> DropParent(canvas, target) == target && target.Some?
  {
  }
}
