/** The declarative `Element` of `xinghuo-core` (its `element.rs`): the
    builder methods, `build` (one render tree plus sparse event and data
    trees), the default `layout` and `paint` hooks of a render object, and
    `RenderTree::child`.

    The render node handles (`TreeNode` clones) held by event and data
    objects are paths of child indices from the render root. */
module Elements {
  import opened Wrappers
  import opened Trees
  import opened Dom
  import opened Events
  import opened Geom
  import Colors
  import Quads

  /** A `Box<dyn Any>` payload: only its type and identity matter. */
  datatype AnyValue = AnyValue(typeId: nat, id: nat)

  /** `Element`: a dom record, an optional listener, an optional payload
      and the child elements in order. */
  datatype Element = Element(
    dom: DomElement,
    event: Option<EventListener>,
    data: Option<AnyValue>,
    children: seq<Element>)

  type Path = seq<nat>

  // ------------------------------------------------------------ builders

  /** `Element::new`. */
  function NewElement(tag: string): (e: Element)
    ensures e.dom == NewDom(tag) && e.dom.dirty
    ensures e.event.None? && e.data.None? && |e.children| == 0
  {
    Element(NewDom(tag), None, None, [])
  }

  /** `onclick`: creates a default listener only when there is none and
      fills only its click slot. */
  function OnClick(e: Element, cb: Callback): (r: Element)
    ensures r.event.Some? && Slot(r.event.value, Click) == Some(cb)
    ensures forall k: EventKind :: k != Click ==>
      Slot(r.event.value, k) == (if e.event.None? then None else Slot(e.event.value, k))
    ensures r.dom == e.dom && r.data == e.data && r.children == e.children
  {
    var l := if e.event.None? then DefaultListener else e.event.value;
    e.(event := Some(WithSlot(l, Click, Some(cb))))
  }

  /** `width`, `height`, `background_color`: the dom setter, nothing else. */
  function WithWidth(e: Element, w: Size): (r: Element)
    ensures Get(r.dom, WidthField) == SizeValue(w) && OnlyChanged(e.dom, r.dom, WidthField)
    ensures r.event == e.event && r.data == e.data && r.children == e.children
  {
    e.(dom := SetWidth(e.dom, w))
  }

  function WithHeight(e: Element, h: Size): (r: Element)
    ensures Get(r.dom, HeightField) == SizeValue(h) && OnlyChanged(e.dom, r.dom, HeightField)
    ensures r.event == e.event && r.data == e.data && r.children == e.children
  {
    e.(dom := SetHeight(e.dom, h))
  }

  function WithBackgroundColor(e: Element, c: Colors.Color): (r: Element)
    ensures Get(r.dom, BackgroundColorField) == ColorValue(c)
    ensures OnlyChanged(e.dom, r.dom, BackgroundColorField)
    ensures r.event == e.event && r.data == e.data && r.children == e.children
  {
    e.(dom := SetBackgroundColor(e.dom, c))
  }

  /** `data`: replaces the payload. */
  function WithData(e: Element, v: AnyValue): (r: Element)
    ensures r.data == Some(v)
    ensures r.dom == e.dom && r.event == e.event && r.children == e.children
  {
    e.(data := Some(v))
  }

  /** `child`: appends one child at the end. */
  function WithChild(e: Element, c: Element): (r: Element)
    ensures |r.children| == |e.children| + 1
    ensures r.children[..|e.children|] == e.children && r.children[|e.children|] == c
    ensures r.dom == e.dom && r.event == e.event && r.data == e.data
  {
    e.(children := e.children + [c])
  }

  /** `children`: appends the given children at the end, in order. */
  function WithChildren(e: Element, cs: seq<Element>): (r: Element)
    ensures |r.children| == |e.children| + |cs|
    ensures r.children[..|e.children|] == e.children && r.children[|e.children|..] == cs
    ensures r.dom == e.dom && r.event == e.event && r.data == e.data
  {
    e.(children := e.children + cs)
  }

  // ------------------------------------------------------- element paths

  predicate ValidElementPath(e: Element, q: Path)
    decreases |q|
  {
    |q| == 0 || (q[0] < |e.children| && ValidElementPath(e.children[q[0]], q[1..]))
  }

  function SubElement(e: Element, q: Path): Element
    requires ValidElementPath(e, q)
    decreases |q|
  {
    if |q| == 0 then e else SubElement(e.children[q[0]], q[1..])
  }

  /** Number of elements declared in `e`, itself included. */
  function Count(e: Element): nat
    decreases e, 1
  {
    1 + CountFrom(e, 0)
  }

  function CountFrom(e: Element, i: nat): nat
    requires i <= |e.children|
    decreases e, 0, |e.children| - i
  {
    if i == |e.children| then 0 else Count(e.children[i]) + CountFrom(e, i + 1)
  }

  // --------------------------------------------------------- render tree

  /** The render tree `build` returns: one node per element holding its
      dom record, children in declaration order. */
  function Render(e: Element): Tree<DomElement>
    decreases e
  {
    Node(e.dom, seq(|e.children|, i requires 0 <= i < |e.children| => Render(e.children[i])))
  }

  /** Render paths and element paths name the same places, and the render
      node at a path is the render tree of the element at that path. */
  lemma {:induction false} RenderMirrorsElements(e: Element, q: Path)
    ensures ValidPath(Render(e), q) <==> ValidElementPath(e, q)
    ensures ValidElementPath(e, q) ==> At(Render(e), q) == Render(SubElement(e, q))
    ensures ValidElementPath(e, q) ==> At(Render(e), q).value == SubElement(e, q).dom
    decreases |q|
  {
    if |q| > 0 && q[0] < |e.children| {
      RenderMirrorsElements(e.children[q[0]], q[1..]);
    }
  }

  /** The render tree has exactly one node per declared element. */
  lemma {:induction false} RenderSize(e: Element)
    ensures Trees.Size(Render(e)) == Count(e)
    decreases e, 1
  {
    RenderSizeFrom(e, 0);
    assert Render(e).children[0..] == Render(e).children;
  }

  lemma {:induction false} RenderSizeFrom(e: Element, i: nat)
    requires i <= |e.children|
    ensures SizeOf(Render(e).children[i..]) == CountFrom(e, i)
    decreases e, 0, |e.children| - i
  {
    var cs := Render(e).children;
    if i < |e.children| {
      RenderSize(e.children[i]);
      RenderSizeFrom(e, i + 1);
      assert cs[i..][1..] == cs[i + 1..];
    }
  }

  // ------------------------------------------------------- overlay trees

  /** An entry of an overlay tree: the render handle and the attachment. */
  type Attached<P> = (Path, P)

  /** The overlay node an element contributes on its own. */
  function Own<P>(e: Element, at: Path, sel: Element -> Option<P>): Option<Tree<Attached<P>>> {
    match sel(e)
    case Some(p) => Some(Node((at, p), []))
    case None => None
  }

  /** The event or data tree of `build` for the element at render path
      `at`, where `sel` picks the listener or the payload. The element's
      own node, if any, is merged with each child's tree in child order
      by `MergeOption`: with an own node the children's trees are appended
      to it; without one, the first child tree present takes over and the
      later ones are appended to that. */
  function Overlay<P>(e: Element, at: Path, sel: Element -> Option<P>): Option<Tree<Attached<P>>>
    decreases e
  {
    FoldMerge(Own(e, at, sel),
      seq(|e.children|, i requires 0 <= i < |e.children| => Overlay(e.children[i], at + [i], sel)))
  }

  /** The attachments of `e` in pre-order, each with its render path. */
  function Attachments<P>(e: Element, at: Path, sel: Element -> Option<P>): seq<Attached<P>>
    decreases e, 1
  {
    PreOrderOpt(Own(e, at, sel)) + AttachmentsFrom(e, at, sel, 0)
  }

  function AttachmentsFrom<P>(e: Element, at: Path, sel: Element -> Option<P>, i: nat): seq<Attached<P>>
    requires i <= |e.children|
    decreases e, 0, |e.children| - i
  {
    if i == |e.children| then []
    else Attachments(e.children[i], at + [i], sel) + AttachmentsFrom(e, at, sel, i + 1)
  }

  /** The overlay tree holds exactly the attachments, in pre-order. */
  lemma {:induction false} OverlayPreOrder<P>(e: Element, at: Path, sel: Element -> Option<P>)
    ensures PreOrderOpt(Overlay(e, at, sel)) == Attachments(e, at, sel)
    decreases e, 1
  {
    var xs := seq(|e.children|, i requires 0 <= i < |e.children| => Overlay(e.children[i], at + [i], sel));
    FoldMergePreOrder(Own(e, at, sel), xs);
    OverlayPreOrderFrom(e, at, sel, 0);
    assert xs[0..] == xs;
  }

  lemma {:induction false} OverlayPreOrderFrom<P>(e: Element, at: Path, sel: Element -> Option<P>, i: nat)
    requires i <= |e.children|
    ensures var xs := seq(|e.children|, i requires 0 <= i < |e.children| => Overlay(e.children[i], at + [i], sel));
            PreOrderOptOf(xs[i..]) == AttachmentsFrom(e, at, sel, i)
    decreases e, 0, |e.children| - i
  {
    var xs := seq(|e.children|, i requires 0 <= i < |e.children| => Overlay(e.children[i], at + [i], sel));
    if i < |e.children| {
      OverlayPreOrder(e.children[i], at + [i], sel);
      OverlayPreOrderFrom(e, at, sel, i + 1);
      assert xs[i..][1..] == xs[i + 1..];
    }
  }

  /** Every attachment names, by its path, an element below `at` whose
      selection it is. */
  ghost predicate AttachedAt<P>(e: Element, at: Path, sel: Element -> Option<P>, x: Attached<P>) {
    && |at| <= |x.0| && x.0[..|at|] == at
    && ValidElementPath(e, x.0[|at|..])
    && sel(SubElement(e, x.0[|at|..])) == Some(x.1)
  }

  lemma {:induction false} AttachmentsSound<P>(e: Element, at: Path, sel: Element -> Option<P>)
    ensures forall x: Attached<P> :: x in Attachments(e, at, sel) ==> AttachedAt(e, at, sel, x)
    decreases e, 1
  {
    AttachmentsFromSound(e, at, sel, 0);
    forall x: Attached<P> | x in PreOrderOpt(Own(e, at, sel)) ensures AttachedAt(e, at, sel, x) {
      PreOrderLeaf((at, sel(e).value));
      assert x == (at, sel(e).value);
      assert x.0[|at|..] == [];
    }
  }

  lemma {:induction false} AttachmentsFromSound<P>(e: Element, at: Path, sel: Element -> Option<P>, i: nat)
    requires i <= |e.children|
    ensures forall x: Attached<P> :: x in AttachmentsFrom(e, at, sel, i) ==> AttachedAt(e, at, sel, x)
    decreases e, 0, |e.children| - i
  {
    if i < |e.children| {
      var c := e.children[i];
      AttachmentsSound(c, at + [i], sel);
      AttachmentsFromSound(e, at, sel, i + 1);
      forall x: Attached<P> | x in Attachments(c, at + [i], sel) ensures AttachedAt(e, at, sel, x) {
        var q := x.0[|at| + 1..];
        assert x.0[..|at| + 1] == at + [i];
        assert x.0[..|at|] == x.0[..|at| + 1][..|at|] == at;
        assert x.0[|at|] == x.0[..|at| + 1][|at|] == i;
        assert x.0[|at|..] == [i] + q;
        assert ([i] + q)[1..] == q;
      }
    }
  }

  /** Every element below `at` with a selection shows up among the
      attachments, under its own path. */
  lemma {:induction false} AttachmentsComplete<P>(e: Element, at: Path, sel: Element -> Option<P>, q: Path)
    requires ValidElementPath(e, q) && sel(SubElement(e, q)).Some?
    ensures (at + q, sel(SubElement(e, q)).value) in Attachments(e, at, sel)
    decreases |q|
  {
    if |q| == 0 {
      assert at + q == at;
      PreOrderLeaf((at, sel(e).value));
      assert PreOrderOpt(Own(e, at, sel)) == [(at, sel(e).value)];
    } else {
      var j := q[0];
      AttachmentsComplete(e.children[j], at + [j], sel, q[1..]);
      assert at + [j] + q[1..] == at + q;
      AttachmentsFromContains(e, at, sel, 0, j, (at + q, sel(SubElement(e, q)).value));
    }
  }

  lemma {:induction false} AttachmentsFromContains<P>(e: Element, at: Path, sel: Element -> Option<P>, i: nat, j: nat, x: Attached<P>)
    requires i <= j < |e.children|
    requires x in Attachments(e.children[j], at + [j], sel)
    ensures x in AttachmentsFrom(e, at, sel, i)
    decreases j - i
  {
    var head := Attachments(e.children[i], at + [i], sel);
    var tail := AttachmentsFrom(e, at, sel, i + 1);
    assert AttachmentsFrom(e, at, sel, i) == head + tail;
    if i < j {
      AttachmentsFromContains(e, at, sel, i + 1, j, x);
    }
  }

  /** The overlay tree exists iff some element in the subtree has a
      selection (a listener for the event tree, a payload for the data
      tree), and each of its entries is a handle to the render node built
      for the very element that carries the attachment. */
  lemma {:induction false} OverlayFacts<P>(e: Element, sel: Element -> Option<P>)
    ensures Overlay(e, [], sel).Some? <==>
      exists q :: ValidElementPath(e, q) && sel(SubElement(e, q)).Some?
    ensures forall x: Attached<P> :: x in PreOrderOpt(Overlay(e, [], sel)) ==>
      ValidPath(Render(e), x.0) && ValidElementPath(e, x.0)
      && At(Render(e), x.0) == Render(SubElement(e, x.0))
      && sel(SubElement(e, x.0)) == Some(x.1)
  {
    OverlayPreOrder(e, [], sel);
    AttachmentsSound(e, [], sel);
    var o := Overlay(e, [], sel);
    forall x: Attached<P> | x in PreOrderOpt(o)
      ensures ValidPath(Render(e), x.0) && ValidElementPath(e, x.0)
      ensures At(Render(e), x.0) == Render(SubElement(e, x.0))
      ensures sel(SubElement(e, x.0)) == Some(x.1)
    {
      assert x.0[0..] == x.0;
      RenderMirrorsElements(e, x.0);
    }
    if o.Some? {
      var x := PreOrder(o.value)[0];
      assert x in PreOrderOpt(o);
      assert x.0[0..] == x.0;
    }
    if exists q :: ValidElementPath(e, q) && sel(SubElement(e, q)).Some? {
      var q :| ValidElementPath(e, q) && sel(SubElement(e, q)).Some?;
      AttachmentsComplete(e, [], sel, q);
    }
  }

  /** The listener and the payload selectors. */
  function EventOf(e: Element): Option<EventListener> { e.event }
  function DataOf(e: Element): Option<AnyValue> { e.data }

  /** `o` is the overlay tree of `e` built next to the render tree `t`:
      its pre-order is the elements' attachments in declaration order; it
      exists iff some element declares one; each entry's handle reaches in
      `t` the node rendered for the element that declared the entry; and
      every declared attachment has an entry. */
  ghost predicate OverlayOf<P>(e: Element, sel: Element -> Option<P>, t: Tree<DomElement>, o: Option<Tree<Attached<P>>>) {
    && PreOrderOpt(o) == Attachments(e, [], sel)
    && (o.Some? <==> exists q :: ValidElementPath(e, q) && sel(SubElement(e, q)).Some?)
    && (forall x: Attached<P> :: x in PreOrderOpt(o) ==>
          ValidPath(t, x.0) && ValidElementPath(e, x.0)
          && At(t, x.0) == Render(SubElement(e, x.0))
          && sel(SubElement(e, x.0)) == Some(x.1))
    && (forall q :: ValidElementPath(e, q) && sel(SubElement(e, q)).Some? ==>
          (q, sel(SubElement(e, q)).value) in PreOrderOpt(o))
  }

  lemma {:induction false} BuiltOverlay<P>(e: Element, sel: Element -> Option<P>)
    ensures OverlayOf(e, sel, Render(e), Overlay(e, [], sel))
  {
    OverlayPreOrder(e, [], sel);
    OverlayFacts(e, sel);
    forall q | ValidElementPath(e, q) && sel(SubElement(e, q)).Some?
      ensures (q, sel(SubElement(e, q)).value) in PreOrderOpt(Overlay(e, [], sel))
    {
      AttachmentsComplete(e, [], sel, q);
      assert [] + q == q;
    }
  }

  /** `Element::build`: the render tree, the event tree and the data tree.
      The render root holds the element's DOM with one child per declared
      child; the event tree holds exactly the declared listeners and the
      data tree exactly the declared payloads, each under the render path
      of its element. */
  function Build(e: Element): (r: (Tree<DomElement>, Option<Tree<Attached<EventListener>>>, Option<Tree<Attached<AnyValue>>>))
    ensures r.0.value == e.dom && |r.0.children| == |e.children|
    ensures forall i :: 0 <= i < |e.children| ==> r.0.children[i] == Build(e.children[i]).0
    ensures OverlayOf(e, EventOf, r.0, r.1)
    ensures OverlayOf(e, DataOf, r.0, r.2)
  {
    BuiltOverlay(e, EventOf);
    BuiltOverlay(e, DataOf);
    (Render(e), Overlay(e, [], EventOf), Overlay(e, [], DataOf))
  }

  /** With a listener of its own, an element's event tree is that
      listener's node with each child's event tree (when present)
      appended in child order; without one, the first child event tree
      present becomes the result and later ones are appended to it. The
      data tree follows the same rule. */
  lemma {:induction false} OverlayMergeRule<P>(e: Element, at: Path, sel: Element -> Option<P>, k: nat)
    ensures var xs := seq(|e.children|, i requires 0 <= i < |e.children| => Overlay(e.children[i], at + [i], sel));
            && (sel(e).Some? ==> Overlay(e, at, sel) == Some(Node((at, sel(e).value), Somes(xs))))
            && (sel(e).None? && k < |xs| && xs[k].Some? && (forall j :: 0 <= j < k ==> xs[j].None?) ==>
                  Overlay(e, at, sel) == FoldMerge(xs[k], xs[k + 1..]))
  {
    var xs := seq(|e.children|, i requires 0 <= i < |e.children| => Overlay(e.children[i], at + [i], sel));
    if sel(e).Some? {
      FoldMergeOntoTree(Node((at, sel(e).value), []), xs);
      assert [] + Somes(xs) == Somes(xs);
    } else if k < |xs| && xs[k].Some? && (forall j :: 0 <= j < k ==> xs[j].None?) {
      FoldMergeFromNone(xs, k);
    }
  }

  // ------------------------------------------------------ default hooks

  /** The default `layout` of a render object: a clean node is left
      alone; a dirty one becomes clean under an inline, inline-block or
      block parent and panics (`todo!()`) under a flex parent. */
  function LayoutHook(node: DomElement, parent: DomElement): (r: Result<DomElement>)
    ensures !node.dirty ==> r == Ok(node)
    ensures node.dirty && LayoutOf(parent) in {RowFlex, ColFlex} ==> r.Err?
    ensures node.dirty && LayoutOf(parent) !in {RowFlex, ColFlex} ==>
      r.Ok? && !r.value.dirty && SameButDirty(node, r.value)
  {
    if !node.dirty then Ok(node)
    else
      match LayoutOf(parent)
      case Inline => Ok(SetDirty(node, false))
      case InlineBlock => Ok(SetDirty(node, false))
      case Block => Ok(SetDirty(node, false))
      case RowFlex => Err(Panic("not yet implemented"))
      case ColFlex => Err(Panic("not yet implemented"))
  }

  /** A painter records the quads of each `rect` call, in order. */
  type PaintTrace = seq<seq<Quads.Quad>>

  /** The default `paint`: one `rect` call holding one quad over the
      node's available box, filled with its background colour. */
  function PaintHook(d: DomElement): (calls: PaintTrace)
    ensures |calls| == 1 && |calls[0]| == 1
    ensures calls[0][0].rect == ToRect(d.area) && calls[0][0].color == d.style.backgroundColor
    ensures calls[0][0].borderColor == Colors.Default
    ensures calls[0][0].borderWidth == 0.0 && calls[0][0].borderRadius == 0.0
  {
    [[Quads.NewQuad(ToRect(d.area), d.style.backgroundColor)]]
  }

  /** `RenderTree::child`: appends a leaf under the root, or drops it
      when the tree has no root. */
  function RenderTreeChild(t: Option<Tree<DomElement>>, d: DomElement): (r: Option<Tree<DomElement>>)
    ensures r.Some? <==> t.Some?
    ensures PreOrderOpt(r) == PreOrderOpt(t) + (if t.Some? then [d] else [])
    ensures t.Some? ==> r.value.value == t.value.value && |r.value.children| == |t.value.children| + 1
  {
    match t
    case None => None
    case Some(root) =>
      PreOrderLeaf(d);
      Some(Append(root, Node(d, [])))
  }
}
