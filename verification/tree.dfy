/**
  The canvas as an immutable tree. A canvas element (a `.canvas-element`
  wrapper) is a `Node`: its `data-id` counter value, its `data-type`, the
  rest of its dataset as a string map, and its child nodes as an ordered
  sequence of segments -- literal text, foreign markup (an element that is
  not itself a canvas element, such as a list item), or a nested canvas
  element. The palette label span the builder puts first in every wrapper is
  not content and is not represented. The canvas root is the segment
  sequence itself: it has no id, no type and no dataset.
*/
module Tree {
  import opened Strings
  import opened Catalog

  datatype Segment = Text(text: string) | Raw(markup: string) | Elem(node: Node)
  datatype Node = Node(id: nat, kind: string, props: map<string, string>, content: seq<Segment>)

  type Canvas = seq<Segment>

  /* ---------------- size, a termination measure ---------------- */

  function SegSize(s: Segment): (r: nat)
    ensures r >= 1
    ensures s.Elem? ==> r > Size(s.node.content)
  {
    match s
    case Elem(n) => 1 + Size(n.content)
    case _ => 1
  }

  function Size(segs: seq<Segment>): (r: nat)
    ensures segs != [] ==> r == SegSize(segs[0]) + Size(segs[1..])
  {
    if segs == [] then 0 else SegSize(segs[0]) + Size(segs[1..])
  }

  /* ---------------- identifiers ---------------- */

  function SegIds(s: Segment): set<nat>
    decreases SegSize(s), 0
  {
    match s
    case Elem(n) => {n.id} + Ids(n.content)
    case _ => {}
  }

  /** The ids of every canvas element in `segs`, at any depth. */
  function Ids(segs: seq<Segment>): set<nat>
    decreases Size(segs), 1
  {
    if segs == [] then {} else SegIds(segs[0]) + Ids(segs[1..])
  }

  /** The ids of a node and all its descendants. */
  function NodeIds(n: Node): set<nat> {
    SegIds(Elem(n))
  }

  predicate NoElems(segs: seq<Segment>) {
    forall k :: 0 <= k < |segs| ==> !segs[k].Elem?
  }

  lemma {:induction false} IdsAppend(a: seq<Segment>, b: seq<Segment>)
    ensures Ids(a + b) == Ids(a) + Ids(b)
    decreases |a|
  {
    if a == [] {
      assert a + b == b;
    } else {
      assert (a + b)[0] == a[0];
      assert (a + b)[1..] == a[1..] + b;
      IdsAppend(a[1..], b);
    }
  }

  /** Text and foreign markup alone hold no ids, so they are trivially
      unique and well formed. */
  lemma {:induction false} NoElemsSound(segs: seq<Segment>, bound: nat, banned: set<string>)
    requires NoElems(segs)
    ensures Ids(segs) == {} && Unique(segs) && WF(segs, bound, banned)
    decreases |segs|
  {
    if segs != [] {
      assert NoElems(segs[1..]) by {
        assert forall k :: 0 <= k < |segs[1..]| ==> segs[1..][k] == segs[k + 1];
      }
      NoElemsSound(segs[1..], bound, banned);
      assert !segs[0].Elem?;
    }
  }

  lemma {:induction false} NoElemsIds(segs: seq<Segment>)
    requires NoElems(segs)
    ensures Ids(segs) == {}
    decreases |segs|
  {
    if segs != [] {
      NoElemsIds(segs[1..]);
    }
  }

  /* ---------------- uniqueness of ids ---------------- */

  predicate SegUnique(s: Segment)
    decreases SegSize(s), 0
  {
    match s
    case Elem(n) => n.id !in Ids(n.content) && Unique(n.content)
    case _ => true
  }

  /** No id occurs twice anywhere in `segs`. */
  predicate Unique(segs: seq<Segment>)
    decreases Size(segs), 1
  {
    segs == [] || (SegUnique(segs[0]) && SegIds(segs[0]) !! Ids(segs[1..]) && Unique(segs[1..]))
  }

  predicate NodeUnique(n: Node) {
    SegUnique(Elem(n))
  }

  lemma {:induction false} UniqueAppend(a: seq<Segment>, b: seq<Segment>)
    ensures Unique(a + b) <==> Unique(a) && Unique(b) && Ids(a) !! Ids(b)
    decreases |a|
  {
    if a == [] {
      assert a + b == b;
    } else {
      assert (a + b)[0] == a[0];
      assert (a + b)[1..] == a[1..] + b;
      UniqueAppend(a[1..], b);
      IdsAppend(a[1..], b);
    }
  }

  /* ---------------- well-formedness ---------------- */

  predicate SegWF(s: Segment, bound: nat, banned: set<string>)
    decreases SegSize(s), 0
  {
    match s
    case Elem(n) =>
      && 1 <= n.id <= bound
      && n.props.Keys !! banned
      && (Lookup(n.kind).canContain || NoElems(n.content))
      && WF(n.content, bound, banned)
    case _ => true
  }

  /** Every element at any depth has an id in `1..bound`, stores no dataset
      key from `banned`, and holds nested elements only if its type is a
      container. */
  predicate WF(segs: seq<Segment>, bound: nat, banned: set<string>)
    decreases Size(segs), 1
  {
    segs == [] || (SegWF(segs[0], bound, banned) && WF(segs[1..], bound, banned))
  }

  predicate NodeWF(n: Node, bound: nat, banned: set<string>) {
    SegWF(Elem(n), bound, banned)
  }

  lemma {:induction false} WFAppend(a: seq<Segment>, b: seq<Segment>, bound: nat, banned: set<string>)
    ensures WF(a + b, bound, banned) <==> WF(a, bound, banned) && WF(b, bound, banned)
    decreases |a|
  {
    if a == [] {
      assert a + b == b;
    } else {
      assert (a + b)[0] == a[0];
      assert (a + b)[1..] == a[1..] + b;
      WFAppend(a[1..], b, bound, banned);
    }
  }

  /** Every id in a well-formed canvas lies in `1..bound`, so `bound + 1` is fresh. */
  lemma {:induction false} WFBounded(segs: seq<Segment>, bound: nat, banned: set<string>)
    requires WF(segs, bound, banned)
    ensures forall x :: x in Ids(segs) ==> 1 <= x <= bound
    decreases Size(segs)
  {
    if segs != [] {
      match segs[0] {
      case Elem(n) =>
        WFBounded(n.content, bound, banned);
        assert SegIds(segs[0]) == {n.id} + Ids(n.content);
      case _ =>
      }
      WFBounded(segs[1..], bound, banned);
    }
  }

  /** Raising the id bound keeps a canvas well formed. */
  lemma {:induction false} WFMono(segs: seq<Segment>, bound: nat, bound': nat, banned: set<string>)
    requires WF(segs, bound, banned) && bound <= bound'
    ensures WF(segs, bound', banned)
    decreases Size(segs)
  {
    if segs != [] {
      match segs[0] {
      case Elem(n) => WFMono(n.content, bound, bound', banned);
      case _ =>
      }
      WFMono(segs[1..], bound, bound', banned);
    }
  }

  /* ---------------- lookup ---------------- */

  function FindIn(s: Segment, id: nat): (r: Option<Node>)
    ensures r.Some? <==> id in SegIds(s)
    ensures r.Some? ==> r.value.id == id && NodeIds(r.value) <= SegIds(s)
    decreases SegSize(s), 0
  {
    match s
    case Elem(n) => if n.id == id then Some(n) else Find(n.content, id)
    case _ => None
  }

  /** The first element with the given id, in document order. */
  function Find(segs: seq<Segment>, id: nat): (r: Option<Node>)
    ensures r.Some? <==> id in Ids(segs)
    ensures r.Some? ==> r.value.id == id && NodeIds(r.value) <= Ids(segs)
    decreases Size(segs), 1
  {
    if segs == [] then None
    else
      var here := FindIn(segs[0], id);
      if here.Some? then here else Find(segs[1..], id)
  }

  lemma {:induction false} IdsOfMember(segs: seq<Segment>, i: nat)
    requires i < |segs|
    ensures SegIds(segs[i]) <= Ids(segs)
    decreases i
  {
    if i > 0 {
      IdsOfMember(segs[1..], i - 1);
    }
  }

  /** With unique ids, looking an id up in a sequence finds it in the member
      that holds it. */
  lemma {:induction false} FindMember(segs: seq<Segment>, i: nat, id: nat)
    requires Unique(segs) && i < |segs| && id in SegIds(segs[i])
    ensures Find(segs, id) == FindIn(segs[i], id)
    decreases i
  {
    if i > 0 {
      IdsOfMember(segs[1..], i - 1);
      assert id !in SegIds(segs[0]);
      FindMember(segs[1..], i - 1, id);
    }
  }

  lemma {:induction false} FindUnique(segs: seq<Segment>, id: nat)
    requires Unique(segs) && id in Ids(segs)
    ensures NodeUnique(Find(segs, id).value)
    decreases Size(segs)
  {
    match segs[0]
    case Elem(n) =>
      if n.id != id {
        if id in Ids(n.content) { FindUnique(n.content, id); } else { FindUnique(segs[1..], id); }
      }
    case _ => FindUnique(segs[1..], id);
  }

  lemma {:induction false} FindWF(segs: seq<Segment>, id: nat, bound: nat, banned: set<string>)
    requires WF(segs, bound, banned) && id in Ids(segs)
    ensures NodeWF(Find(segs, id).value, bound, banned)
    decreases Size(segs)
  {
    match segs[0]
    case Elem(n) =>
      if n.id != id {
        if id in Ids(n.content) { FindWF(n.content, id, bound, banned); } else { FindWF(segs[1..], id, bound, banned); }
      }
    case _ => FindWF(segs[1..], id, bound, banned);
  }

  /* ---------------- replacing one element ---------------- */

  function ReplaceIn(s: Segment, id: nat, r: Node): Segment
    decreases SegSize(s), 0
  {
    match s
    case Elem(n) => if n.id == id then Elem(r) else Elem(n.(content := Replace(n.content, id, r)))
    case _ => s
  }

  /** Puts `r` where the element with id `id` was, keeping everything else. */
  function Replace(segs: seq<Segment>, id: nat, r: Node): (out: seq<Segment>)
    ensures |out| == |segs|
    decreases Size(segs), 1
  {
    if segs == [] then [] else [ReplaceIn(segs[0], id, r)] + Replace(segs[1..], id, r)
  }

  lemma {:induction false} ReplaceAbsent(segs: seq<Segment>, id: nat, r: Node)
    requires id !in Ids(segs)
    ensures Replace(segs, id, r) == segs
    decreases Size(segs)
  {
    if segs != [] {
      match segs[0] {
      case Elem(n) => ReplaceAbsent(n.content, id, r);
      case _ =>
      }
      ReplaceAbsent(segs[1..], id, r);
    }
  }

  lemma {:induction false} ReplaceIds(segs: seq<Segment>, id: nat, r: Node)
    requires Unique(segs) && id in Ids(segs) && r.id == id
    ensures Ids(Replace(segs, id, r)) == (Ids(segs) - NodeIds(Find(segs, id).value)) + NodeIds(r)
    decreases Size(segs)
  {
    var s, rest := segs[0], segs[1..];
    var out := Replace(segs, id, r);
    assert out[0] == ReplaceIn(s, id, r) && out[1..] == Replace(rest, id, r);
    var f := Find(segs, id).value;
    if id in SegIds(s) {
      ReplaceAbsent(rest, id, r);
      var n := s.node;
      if n.id != id {
        ReplaceIds(n.content, id, r);
        assert FindIn(s, id) == Find(n.content, id);
      }
    } else {
      match s {
      case Elem(n) => ReplaceAbsent(n.content, id, r);
      case _ =>
      }
      ReplaceIds(rest, id, r);
    }
  }

  lemma {:induction false} ReplaceUnique(segs: seq<Segment>, id: nat, r: Node)
    requires Unique(segs) && id in Ids(segs) && r.id == id && NodeUnique(r)
    requires NodeIds(r) !! (Ids(segs) - NodeIds(Find(segs, id).value))
    ensures Unique(Replace(segs, id, r))
    decreases Size(segs)
  {
    var s, rest := segs[0], segs[1..];
    var out := Replace(segs, id, r);
    assert out[0] == ReplaceIn(s, id, r) && out[1..] == Replace(rest, id, r);
    if id in SegIds(s) {
      ReplaceAbsent(rest, id, r);
      var n := s.node;
      if n.id != id {
        ReplaceIds(n.content, id, r);
        ReplaceUnique(n.content, id, r);
      }
    } else {
      match s {
      case Elem(n) => ReplaceAbsent(n.content, id, r);
      case _ =>
      }
      ReplaceIds(rest, id, r);
      ReplaceUnique(rest, id, r);
    }
  }

  lemma {:induction false} ReplaceFind(segs: seq<Segment>, id: nat, r: Node)
    requires Unique(segs) && id in Ids(segs) && r.id == id
    ensures Find(Replace(segs, id, r), id) == Some(r)
    decreases Size(segs)
  {
    var s, rest := segs[0], segs[1..];
    var out := Replace(segs, id, r);
    assert out[0] == ReplaceIn(s, id, r) && out[1..] == Replace(rest, id, r);
    if id in SegIds(s) {
      var n := s.node;
      if n.id != id {
        ReplaceFind(n.content, id, r);
      }
    } else {
      match s {
      case Elem(n) => ReplaceAbsent(n.content, id, r);
      case _ =>
      }
      ReplaceFind(rest, id, r);
    }
  }

  /** An id that was nowhere before the replacement is found inside the
      replacement, where it sits in `r`. */
  lemma {:induction false} ReplaceFindWithin(segs: seq<Segment>, id: nat, r: Node, x: nat)
    requires Unique(segs) && id in Ids(segs) && r.id == id
    requires x in NodeIds(r) && x !in Ids(segs)
    ensures Find(Replace(segs, id, r), x) == FindIn(Elem(r), x)
    decreases Size(segs)
  {
    var s, rest := segs[0], segs[1..];
    var out := Replace(segs, id, r);
    assert out[0] == ReplaceIn(s, id, r) && out[1..] == Replace(rest, id, r);
    if id in SegIds(s) {
      var n := s.node;
      if n.id != id {
        ReplaceFindWithin(n.content, id, r, x);
      }
    } else {
      match s {
      case Elem(n) => ReplaceAbsent(n.content, id, r);
      case _ =>
      }
      ReplaceFindWithin(rest, id, r, x);
    }
  }

  /** Every element outside the replaced subtree is still found after the
      replacement, with its type and dataset as they were; one that does not
      contain the replaced element is found entirely unchanged. */
  lemma {:induction false} ReplaceKeepsOthers(segs: seq<Segment>, id: nat, r: Node, x: nat)
    requires Unique(segs) && id in Ids(segs) && r.id == id
    requires x in Ids(segs) && x !in NodeIds(Find(segs, id).value) && x !in NodeIds(r)
    ensures var after := Find(Replace(segs, id, r), x);
            && after.Some?
            && after.value.kind == Find(segs, x).value.kind
            && after.value.props == Find(segs, x).value.props
            && (id !in NodeIds(Find(segs, x).value) ==> after == Find(segs, x))
    decreases Size(segs)
  {
    var s, rest := segs[0], segs[1..];
    var out := Replace(segs, id, r);
    assert out[0] == ReplaceIn(s, id, r) && out[1..] == Replace(rest, id, r);
    if id in SegIds(s) {
      ReplaceAbsent(rest, id, r);
      var n := s.node;
      if n.id != id {
        if x in Ids(n.content) {
          ReplaceKeepsOthers(n.content, id, r, x);
        } else if x != n.id {
          ReplaceIds(n.content, id, r);
        }
      }
    } else {
      match s {
      case Elem(n) => ReplaceAbsent(n.content, id, r);
      case _ =>
      }
      if x !in SegIds(s) {
        ReplaceKeepsOthers(rest, id, r, x);
      }
    }
  }

  lemma {:induction false} ReplaceWF(segs: seq<Segment>, id: nat, r: Node, bound: nat, banned: set<string>)
    requires WF(segs, bound, banned) && NodeWF(r, bound, banned)
    ensures WF(Replace(segs, id, r), bound, banned)
    decreases Size(segs)
  {
    if segs != [] {
      var s, rest := segs[0], segs[1..];
      var out := Replace(segs, id, r);
      assert out[0] == ReplaceIn(s, id, r) && out[1..] == Replace(rest, id, r);
      match s {
      case Elem(n) =>
        if n.id != id {
          if Lookup(n.kind).canContain {
            ReplaceWF(n.content, id, r, bound, banned);
          } else {
            NoElemsIds(n.content);
            ReplaceAbsent(n.content, id, r);
          }
        }
      case _ =>
      }
      ReplaceWF(rest, id, r, bound, banned);
    }
  }

  /* ---------------- removing a subtree ---------------- */

  /** Detaches every element with id `id`, together with its whole subtree. */
  function Remove(segs: seq<Segment>, id: nat): (out: seq<Segment>)
    ensures Ids(out) <= Ids(segs)
    ensures id !in Ids(out)
    decreases Size(segs)
  {
    if segs == [] then []
    else
      var rest := Remove(segs[1..], id);
      match segs[0]
      case Elem(n) =>
        if n.id == id then rest
        else
          var head := Elem(n.(content := Remove(n.content, id)));
          assert ([head] + rest)[0] == head && ([head] + rest)[1..] == rest;
          [head] + rest
      case _ =>
        assert ([segs[0]] + rest)[0] == segs[0] && ([segs[0]] + rest)[1..] == rest;
        [segs[0]] + rest
  }

  lemma {:induction false} RemoveAbsent(segs: seq<Segment>, id: nat)
    requires id !in Ids(segs)
    ensures Remove(segs, id) == segs
    decreases Size(segs)
  {
    if segs != [] {
      match segs[0] {
      case Elem(n) => RemoveAbsent(n.content, id);
      case _ =>
      }
      RemoveAbsent(segs[1..], id);
    }
  }

  lemma {:induction false} RemoveAppend(a: seq<Segment>, b: seq<Segment>, id: nat)
    ensures Remove(a + b, id) == Remove(a, id) + Remove(b, id)
    decreases |a|
  {
    if a == [] {
      assert a + b == b;
    } else {
      assert (a + b)[0] == a[0];
      assert (a + b)[1..] == a[1..] + b;
      RemoveAppend(a[1..], b, id);
    }
  }

  lemma {:induction false} RemoveIds(segs: seq<Segment>, id: nat)
    requires Unique(segs) && id in Ids(segs)
    ensures Ids(Remove(segs, id)) == Ids(segs) - NodeIds(Find(segs, id).value)
    decreases Size(segs)
  {
    var s, rest := segs[0], segs[1..];
    if id in SegIds(s) {
      RemoveAbsent(rest, id);
      var n := s.node;
      if n.id != id {
        RemoveIds(n.content, id);
      }
    } else {
      match s {
      case Elem(n) => RemoveAbsent(n.content, id);
      case _ =>
      }
      RemoveIds(rest, id);
    }
  }

  lemma {:induction false} RemoveUnique(segs: seq<Segment>, id: nat)
    requires Unique(segs)
    ensures Unique(Remove(segs, id))
    decreases Size(segs)
  {
    if segs != [] {
      match segs[0] {
      case Elem(n) => RemoveUnique(n.content, id);
      case _ =>
      }
      RemoveUnique(segs[1..], id);
    }
  }

  lemma {:induction false} RemoveWF(segs: seq<Segment>, id: nat, bound: nat, banned: set<string>)
    requires WF(segs, bound, banned)
    ensures WF(Remove(segs, id), bound, banned)
    decreases Size(segs)
  {
    if segs != [] {
      match segs[0] {
      case Elem(n) =>
        if Lookup(n.kind).canContain {
          RemoveWF(n.content, id, bound, banned);
        } else {
          NoElemsIds(n.content);
          RemoveAbsent(n.content, id);
        }
      case _ =>
      }
      RemoveWF(segs[1..], id, bound, banned);
    }
  }

  /** Every element that survives a removal is found with its type and
      dataset as they were; one that did not contain the removed element is
      found entirely unchanged. */
  lemma {:induction false} RemoveKeepsOthers(segs: seq<Segment>, id: nat, x: nat)
    requires Unique(segs) && x in Ids(Remove(segs, id))
    ensures var after := Find(Remove(segs, id), x);
            && after.Some?
            && after.value.kind == Find(segs, x).value.kind
            && after.value.props == Find(segs, x).value.props
            && (id !in NodeIds(Find(segs, x).value) ==> after == Find(segs, x))
    decreases Size(segs)
  {
    var s, rest := segs[0], segs[1..];
    var out := Remove(segs, id);
    match s {
    case Elem(n) =>
      if n.id == id {
        RemoveKeepsOthers(rest, id, x);
      } else {
        var head := Elem(n.(content := Remove(n.content, id)));
        assert out[0] == head && out[1..] == Remove(rest, id);
        if x == n.id {
          if id !in Ids(n.content) {
            RemoveAbsent(n.content, id);
          }
        } else if x in Ids(Remove(n.content, id)) {
          RemoveKeepsOthers(n.content, id, x);
        } else {
          RemoveKeepsOthers(rest, id, x);
        }
      }
    case _ =>
      assert out[0] == s && out[1..] == Remove(rest, id);
      RemoveKeepsOthers(rest, id, x);
    }
  }

  /** Removing an id that a replacement introduced restores the original
      canvas, provided the replacement only added that id's subtree. */
  lemma {:induction false} RemoveUndoesReplace(segs: seq<Segment>, pid: nat, q: Node, x: nat)
    requires Unique(segs) && pid in Ids(segs) && x !in Ids(segs) && q.id == pid
    requires q.(content := Remove(q.content, x)) == Find(segs, pid).value
    ensures Remove(Replace(segs, pid, q), x) == segs
    decreases Size(segs)
  {
    var s, rest := segs[0], segs[1..];
    var out := Replace(segs, pid, q);
    assert out[0] == ReplaceIn(s, pid, q) && out[1..] == Replace(rest, pid, q);
    if pid in SegIds(s) {
      ReplaceAbsent(rest, pid, q);
      RemoveAbsent(rest, x);
      var n := s.node;
      if n.id != pid {
        RemoveUndoesReplace(n.content, pid, q, x);
      }
    } else {
      match s {
      case Elem(n) => ReplaceAbsent(n.content, pid, q); RemoveAbsent(n.content, x);
      case _ =>
      }
      RemoveUndoesReplace(rest, pid, q, x);
    }
  }

  /* ---------------- appending a new element ---------------- */

  /** Appends `n` as the last child of the element `pid`, or of the canvas root
      when no parent is given. */
  function Insert(canvas: Canvas, parent: Option<nat>, n: Node): (out: Canvas)
    requires parent.Some? ==> parent.value in Ids(canvas)
    ensures parent.None? ==> out == canvas + [Elem(n)]
    ensures parent.Some? && Unique(canvas) ==>
              var p := Find(canvas, parent.value).value;
              Find(out, parent.value) == Some(p.(content := p.content + [Elem(n)]))
  {
    if parent.None? then canvas + [Elem(n)]
    else
      var p := Find(canvas, parent.value).value;
      var q := p.(content := p.content + [Elem(n)]);
      if Unique(canvas) then ReplaceFind(canvas, parent.value, q); Replace(canvas, parent.value, q)
      else Replace(canvas, parent.value, q)
  }

  /** Inserting adds exactly the new subtree's ids. */
  lemma InsertIds(canvas: Canvas, parent: Option<nat>, n: Node)
    requires parent.Some? ==> parent.value in Ids(canvas)
    requires Unique(canvas)
    ensures Ids(Insert(canvas, parent, n)) == Ids(canvas) + NodeIds(n)
  {
    if parent.None? {
      IdsAppend(canvas, [Elem(n)]);
    } else {
      var p := Find(canvas, parent.value).value;
      var q := p.(content := p.content + [Elem(n)]);
      IdsAppend(p.content, [Elem(n)]);
      ReplaceIds(canvas, parent.value, q);
    }
  }

  /** Inserting a node whose ids are fresh keeps ids unique. */
  lemma InsertUnique(canvas: Canvas, parent: Option<nat>, n: Node)
    requires parent.Some? ==> parent.value in Ids(canvas)
    requires Unique(canvas) && NodeUnique(n) && NodeIds(n) !! Ids(canvas)
    ensures Unique(Insert(canvas, parent, n))
  {
    if parent.None? {
      UniqueAppend(canvas, [Elem(n)]);
    } else {
      var p := Find(canvas, parent.value).value;
      var q := p.(content := p.content + [Elem(n)]);
      FindUnique(canvas, parent.value);
      IdsAppend(p.content, [Elem(n)]);
      UniqueAppend(p.content, [Elem(n)]);
      ReplaceUnique(canvas, parent.value, q);
    }
  }

  /** Inserting a well-formed node under a container (or the root) keeps the
      canvas well formed; in particular a non-container never gains a child. */
  lemma InsertWF(canvas: Canvas, parent: Option<nat>, n: Node, bound: nat, banned: set<string>)
    requires parent.Some? ==> parent.value in Ids(canvas)
    requires parent.Some? ==> Lookup(Find(canvas, parent.value).value.kind).canContain
    requires WF(canvas, bound, banned) && NodeWF(n, bound, banned)
    ensures WF(Insert(canvas, parent, n), bound, banned)
  {
    if parent.None? {
      WFAppend(canvas, [Elem(n)], bound, banned);
    } else {
      var p := Find(canvas, parent.value).value;
      var q := p.(content := p.content + [Elem(n)]);
      FindWF(canvas, parent.value, bound, banned);
      WFAppend(p.content, [Elem(n)], bound, banned);
      ReplaceWF(canvas, parent.value, q, bound, banned);
    }
  }

  /** Looking past a prefix that does not hold the id. */
  lemma {:induction false} FindAfter(a: seq<Segment>, b: seq<Segment>, id: nat)
    requires id !in Ids(a)
    ensures Find(a + b, id) == Find(b, id)
    decreases |a|
  {
    if a == [] {
      assert a + b == b;
    } else {
      assert (a + b)[0] == a[0];
      assert (a + b)[1..] == a[1..] + b;
      FindAfter(a[1..], b, id);
    }
  }

  /** The inserted element is found under its new id, exactly as inserted. */
  lemma InsertFind(canvas: Canvas, parent: Option<nat>, n: Node)
    requires parent.Some? ==> parent.value in Ids(canvas)
    requires Unique(canvas) && n.id !in Ids(canvas)
    ensures Find(Insert(canvas, parent, n), n.id) == Some(n)
  {
    if parent.None? {
      FindAfter(canvas, [Elem(n)], n.id);
    } else {
      var p := Find(canvas, parent.value).value;
      var q := p.(content := p.content + [Elem(n)]);
      IdsAppend(p.content, [Elem(n)]);
      ReplaceFindWithin(canvas, parent.value, q, n.id);
      FindAfter(p.content, [Elem(n)], n.id);
    }
  }

  /** Deleting a freshly inserted element gives back the canvas as it was. */
  lemma RemoveUndoesInsert(canvas: Canvas, parent: Option<nat>, n: Node)
    requires parent.Some? ==> parent.value in Ids(canvas)
    requires Unique(canvas) && n.id !in Ids(canvas)
    ensures Remove(Insert(canvas, parent, n), n.id) == canvas
  {
    RemoveAppend(canvas, [Elem(n)], n.id);
    RemoveAbsent(canvas, n.id);
    if parent.Some? {
      var p := Find(canvas, parent.value).value;
      var q := p.(content := p.content + [Elem(n)]);
      RemoveAppend(p.content, [Elem(n)], n.id);
      RemoveAbsent(p.content, n.id);
      RemoveUndoesReplace(canvas, parent.value, q, n.id);
    }
  }
}
