/** The block layout driver of the example application (`examples/test.rs`):
    the root is forced to the window size, then a pre-order walk over the
    render tree sizes and stacks the children of every block element at
    that element's start edge, and lays out and paints every element but
    the root.

    `Size::update` and `Quaternion::update`, which resolve a declared size
    or edge set against the parent's size, are not part of this model;
    they are the two functions of a `Resolver` parameter. */
module Layouts {
  import opened Wrappers
  import opened Geom
  import opened Trees
  import opened Dom
  import opened Elements

  /** How declared sizes and edges are resolved against the parent. */
  datatype Resolver = Resolver(
    size: (Size, real) -> Size,
    edges: (Quaternion, real, real) -> Quaternion)

  predicate IsFlex(l: Layout) {
    l == RowFlex || l == ColFlex
  }

  // ------------------------------------------------------- placement

  /** The body of the block loop for one child: margin, padding and
      border resolved against the parent's size, then width, height and
      area. */
  function PlaceChild(c: DomElement, pw: real, ph: real, cursor: Vec2, r: Resolver): DomElement {
    var edged := c.(style := c.style.(
      margin := r.edges(c.style.margin, pw, ph),
      padding := r.edges(c.style.padding, pw, ph),
      border := r.edges(c.style.border, pw, ph)));
    var sized := edged.(style := edged.style.(
      width := Size(pw - EdgeWidth(edged)),
      height := r.size(c.style.height, ph)));
    var start := Add(cursor, LeftTop(sized));
    sized.(area := Box2(start, Add(start, Vec2(sized.style.width.n, sized.style.height.n))), dirty := true)
  }

  /** `PlaceChild` is the loop body's sequence of setter calls, in the
      order the loop makes them. */
  lemma {:induction false} PlaceChildIsSetterChain(c: DomElement, pw: real, ph: real, cursor: Vec2, r: Resolver)
    ensures var c1 := SetMargin(c, r.edges(c.style.margin, pw, ph));
            var c2 := SetPadding(c1, r.edges(c1.style.padding, pw, ph));
            var c3 := SetBorder(c2, r.edges(c2.style.border, pw, ph));
            var c4 := SetWidth(c3, Size(pw - EdgeWidth(c3)));
            var c5 := SetHeight(c4, r.size(c4.style.height, ph));
            var start := Add(cursor, LeftTop(c5));
            PlaceChild(c, pw, ph, cursor, r)
              == SetArea(c5, Box2(start, Add(start, Vec2(c5.style.width.n, c5.style.height.n))))
  {
  }

  /** A placed child: its edges are resolved against the parent's size,
      its width is the parent's width less its own edges, its height is
      resolved against the parent's height, and its area starts at the
      cursor moved in by its left and top margins and spans its width and
      height. Nothing else about it changes but the dirty flag, which is
      set. */
  lemma {:induction false} PlaceChildFacts(c: DomElement, pw: real, ph: real, cursor: Vec2, r: Resolver)
    ensures var p := PlaceChild(c, pw, ph, cursor, r);
      && p.style.margin == r.edges(c.style.margin, pw, ph)
      && p.style.padding == r.edges(c.style.padding, pw, ph)
      && p.style.border == r.edges(c.style.border, pw, ph)
      && p.style.width.n + EdgeWidth(p) == pw
      && p.style.height == r.size(c.style.height, ph)
      && p.area.min == Add(cursor, LeftTop(p))
      && Geom.Size(p.area) == Vec2(p.style.width.n, p.style.height.n)
      && p.dirty && p.layout == c.layout
      && p.tag == c.tag && p.id == c.id && p.className == c.className && p.nodeId == c.nodeId
      && p.style.borderRadius == c.style.borderRadius
      && p.style.borderColor == c.style.borderColor
      && p.style.backgroundColor == c.style.backgroundColor
  {
  }

  /** Total box height of a run of siblings. */
  function StackHeight(ds: seq<DomElement>): real
    decreases |ds|
  {
    if |ds| == 0 then 0.0 else BoxHeight(ds[0]) + StackHeight(ds[1..])
  }

  /** The cursor walk of the block loop, for any per-child body `place`:
      each child is placed at the cursor, which then moves down by the
      placed child's box height. */
  function Stack(cs: seq<DomElement>, cursor: Vec2, place: (DomElement, Vec2) -> DomElement): (ps: seq<DomElement>)
    ensures |ps| == |cs|
    decreases |cs|
  {
    if |cs| == 0 then []
    else
      var p := place(cs[0], cursor);
      [p] + Stack(cs[1..], Vec2(cursor.x, cursor.y + BoxHeight(p)), place)
  }

  /** Child `i` of the walk is placed at the cursor moved down by the box
      heights of the children before it: siblings share the cursor's left
      edge and stack top to bottom in order. */
  lemma {:induction false} StackClosedForm(cs: seq<DomElement>, cursor: Vec2, place: (DomElement, Vec2) -> DomElement, i: nat)
    requires i < |cs|
    ensures var ps := Stack(cs, cursor, place);
            ps[i] == place(cs[i], Vec2(cursor.x, cursor.y + StackHeight(ps[..i])))
    decreases i
  {
    var ps := Stack(cs, cursor, place);
    var p := place(cs[0], cursor);
    var cursor' := Vec2(cursor.x, cursor.y + BoxHeight(p));
    if i == 0 {
      assert ps[..0] == [];
      assert Vec2(cursor.x, cursor.y + StackHeight([])) == cursor;
    } else {
      var rest := Stack(cs[1..], cursor', place);
      StackClosedForm(cs[1..], cursor', place, i - 1);
      assert ps == [p] + rest;
      StackHeightCons(p, rest, i);
      assert ps[i] == rest[i - 1] && cs[i] == cs[1..][i - 1];
    }
  }

  /** The box heights above sibling `i` are the first sibling's plus those
      above it among the rest. */
  lemma {:induction false} StackHeightCons(p: DomElement, rest: seq<DomElement>, i: nat)
    requires 0 < i <= |rest| + 1
    ensures StackHeight(([p] + rest)[..i]) == BoxHeight(p) + StackHeight(rest[..i - 1])
  {
    var pre := ([p] + rest)[..i];
    assert pre[0] == p && pre[1..] == rest[..i - 1];
  }

  /** The loop body with the parent's size and the resolver fixed. */
  function Placer(pw: real, ph: real, r: Resolver): (DomElement, Vec2) -> DomElement {
    (c: DomElement, at: Vec2) => PlaceChild(c, pw, ph, at, r)
  }

  /** The block loop over all children: the cursor starts at the parent's
      area corner, and after each child moves down by its box height. */
  function PlaceChildren(cs: seq<DomElement>, pw: real, ph: real, cursor: Vec2, r: Resolver): (ps: seq<DomElement>)
    ensures |ps| == |cs|
  {
    Stack(cs, cursor, Placer(pw, ph, r))
  }

  /** Child `i` is placed by the loop body at the cursor moved down by
      the box heights of the children before it. */
  lemma {:induction false} PlacementClosedForm(cs: seq<DomElement>, pw: real, ph: real, cursor: Vec2, r: Resolver, i: nat)
    requires i < |cs|
    ensures var ps := PlaceChildren(cs, pw, ph, cursor, r);
            ps[i] == PlaceChild(cs[i], pw, ph, Vec2(cursor.x, cursor.y + StackHeight(ps[..i])), r)
  {
    StackClosedForm(cs, cursor, Placer(pw, ph, r), i);
  }

  /** Placement keeps every child's layout. */
  lemma {:induction false} PlacementKeepsLayout(cs: seq<DomElement>, pw: real, ph: real, cursor: Vec2, r: Resolver)
    ensures var ps := PlaceChildren(cs, pw, ph, cursor, r);
            forall k :: 0 <= k < |cs| ==> ps[k].layout == cs[k].layout
  {
    var ps := PlaceChildren(cs, pw, ph, cursor, r);
    forall k | 0 <= k < |cs| ensures ps[k].layout == cs[k].layout {
      PlacementClosedForm(cs, pw, ph, cursor, r, k);
      PlaceChildFacts(cs[k], pw, ph, Vec2(cursor.x, cursor.y + StackHeight(ps[..k])), r);
    }
  }

  /** The geometry that follows: each child's area starts at the parent's
      corner plus the box heights above it plus its own left and top
      margins, and has the child's width and height. */
  lemma {:induction false} PlacedArea(cs: seq<DomElement>, pw: real, ph: real, cursor: Vec2, r: Resolver, i: nat)
    requires i < |cs|
    ensures var ps := PlaceChildren(cs, pw, ph, cursor, r);
            && ps[i].area.min.x == cursor.x + ps[i].style.margin.sides[Left]
            && ps[i].area.min.y == cursor.y + StackHeight(ps[..i]) + ps[i].style.margin.sides[Top]
            && ps[i].style.width.n == pw - EdgeWidth(ps[i])
            && ps[i].area.max == Add(ps[i].area.min, Vec2(ps[i].style.width.n, ps[i].style.height.n))
  {
    var ps := PlaceChildren(cs, pw, ph, cursor, r);
    PlacementClosedForm(cs, pw, ph, cursor, r, i);
    PlaceChildFacts(cs[i], pw, ph, Vec2(cursor.x, cursor.y + StackHeight(ps[..i])), r);
  }

  // ------------------------------------------------------------ the walk

  function Values(ts: seq<Tree<DomElement>>): (ds: seq<DomElement>)
    ensures |ds| == |ts|
    ensures forall k :: 0 <= k < |ts| ==> ds[k] == ts[k].value
  {
    seq(|ts|, k requires 0 <= k < |ts| => ts[k].value)
  }

  /** The child values after the node's start edge: placed when the node
      is a block, untouched otherwise. */
  function Arranged(t: Tree<DomElement>, d: DomElement, r: Resolver): (vs: seq<DomElement>)
    ensures |vs| == |t.children|
    ensures forall k :: 0 <= k < |vs| ==> LayoutOf(vs[k]) == LayoutOf(t.children[k].value)
    ensures LayoutOf(d) != Block ==> vs == Values(t.children)
    ensures LayoutOf(d) == Block ==>
      vs == PlaceChildren(Values(t.children), d.style.width.n, d.style.height.n, d.area.min, r)
  {
    var vs := Values(t.children);
    if LayoutOf(d) == Block then
      PlacementKeepsLayout(vs, d.style.width.n, d.style.height.n, d.area.min, r);
      PlaceChildren(vs, d.style.width.n, d.style.height.n, d.area.min, r)
    else vs
  }

  /** The start edge of one node, whose current value is `d`, and then
      its subtree. Without a parent (the root) the node is skipped;
      otherwise it is laid out against its parent and painted. A panic
      anywhere ends the walk. */
  function VisitNode(t: Tree<DomElement>, d: DomElement, parent: Option<DomElement>, r: Resolver)
    : Result<(Tree<DomElement>, Elements.PaintTrace)>
    decreases t, 1
  {
    var self := if parent.None? then Ok(d) else LayoutHook(d, parent.value);
    match self
    case Err(f) => Err(f)
    case Ok(d') =>
      var own := if parent.None? then [] else PaintHook(d');
      match VisitChildren(t, Arranged(t, d, r), d', r, 0)
      case Err(f) => Err(f)
      case Ok((cs, trace)) => Ok((Node(d', cs), own + trace))
  }

  function VisitChildren(t: Tree<DomElement>, vals: seq<DomElement>, parent: DomElement, r: Resolver, i: nat)
    : Result<(seq<Tree<DomElement>>, Elements.PaintTrace)>
    requires |vals| == |t.children| && i <= |t.children|
    decreases t, 0, |t.children| - i
  {
    if i == |t.children| then Ok(([], []))
    else
      match VisitNode(t.children[i], vals[i], Some(parent), r)
      case Err(f) => Err(f)
      case Ok((c, trace)) =>
        match VisitChildren(t, vals, parent, r, i + 1)
        case Err(f) => Err(f)
        case Ok((cs, trace')) => Ok(([c] + cs, trace + trace'))
  }

  /** One step of the child loop: it succeeds iff the child and the rest
      do, and then joins their trees and paint calls. */
  lemma {:induction false} VisitChildrenStep(t: Tree<DomElement>, vals: seq<DomElement>, p: DomElement, r: Resolver, i: nat)
    requires |vals| == |t.children| && i < |t.children|
    ensures var res := VisitChildren(t, vals, p, r, i);
            var head := VisitNode(t.children[i], vals[i], Some(p), r);
            var tail := VisitChildren(t, vals, p, r, i + 1);
            && (res.Ok? <==> head.Ok? && tail.Ok?)
            && (res.Ok? ==> res.value == ([head.value.0] + tail.value.0, head.value.1 + tail.value.1))
  {
  }

  /** The layout and paint walk over a whole render tree. */
  function Run(t: Tree<DomElement>, r: Resolver): Result<(Tree<DomElement>, Elements.PaintTrace)> {
    VisitNode(t, t.value, None, r)
  }

  // ------------------------------------------------------ walk properties

  /** Some flex element has a dirty child: the case the default layout
      hook cannot handle. */
  predicate FlexDirtyBelow(t: Tree<DomElement>)
    decreases t
  {
    || (IsFlex(LayoutOf(t.value)) && exists k :: 0 <= k < |t.children| && t.children[k].value.dirty)
    || (exists k :: 0 <= k < |t.children| && FlexDirtyBelow(t.children[k]))
  }

  /** The paint calls of a run of nodes, one after another. */
  function PaintAll(ds: seq<DomElement>): Elements.PaintTrace
    decreases |ds|
  {
    if |ds| == 0 then [] else PaintHook(ds[0]) + PaintAll(ds[1..])
  }

  lemma {:induction false} PaintAllAppend(ds: seq<DomElement>, es: seq<DomElement>)
    ensures PaintAll(ds + es) == PaintAll(ds) + PaintAll(es)
    decreases |ds|
  {
    if |ds| == 0 {
      assert ds + es == es;
    } else {
      assert (ds + es)[1..] == ds[1..] + es;
      PaintAllAppend(ds[1..], es);
    }
  }

  lemma {:induction false} PaintAllLength(ds: seq<DomElement>)
    ensures |PaintAll(ds)| == |ds|
    decreases |ds|
  {
    if |ds| > 0 {
      PaintAllLength(ds[1..]);
    }
  }

  predicate AllClean(ds: seq<DomElement>) {
    forall k :: 0 <= k < |ds| ==> !ds[k].dirty
  }

  /** Child `k` of a node whose layout is that of `p` panics, or panics
      somewhere below. */
  predicate ChildFails(t: Tree<DomElement>, vals: seq<DomElement>, p: DomElement, k: nat)
    requires |vals| == |t.children| && k < |t.children|
  {
    (vals[k].dirty && IsFlex(LayoutOf(p))) || FlexDirtyBelow(t.children[k])
  }

  /** A visit panics iff the node itself is dirty under a flex parent or
      some flex element below it has a dirty child. */
  lemma {:induction false} VisitFails(t: Tree<DomElement>, d: DomElement, parent: Option<DomElement>, r: Resolver)
    requires LayoutOf(d) == LayoutOf(t.value)
    ensures VisitNode(t, d, parent, r).Err? <==>
      (parent.Some? && d.dirty && IsFlex(LayoutOf(parent.value))) || FlexDirtyBelow(t)
    decreases t, 1
  {
    var self := if parent.None? then Ok(d) else LayoutHook(d, parent.value);
    if self.Ok? {
      var d' := self.value;
      var vals := Arranged(t, d, r);
      assert LayoutOf(d') == LayoutOf(t.value);
      VisitChildrenFail(t, vals, d', r, 0);
      assert VisitNode(t, d, parent, r).Err? <==> VisitChildren(t, vals, d', r, 0).Err?;
      ChildFailsBelow(t, vals, d');
    }
  }

  /** Some child of a node fails iff some flex element at or below the
      node has a dirty child. */
  lemma {:induction false} ChildFailsBelow(t: Tree<DomElement>, vals: seq<DomElement>, p: DomElement)
    requires |vals| == |t.children| && LayoutOf(p) == LayoutOf(t.value)
    requires LayoutOf(p) != Block ==> vals == Values(t.children)
    ensures (exists k :: 0 <= k < |t.children| && ChildFails(t, vals, p, k)) <==> FlexDirtyBelow(t)
  {
    if FlexDirtyBelow(t) {
      if IsFlex(LayoutOf(t.value)) && exists k :: 0 <= k < |t.children| && t.children[k].value.dirty {
        var k :| 0 <= k < |t.children| && t.children[k].value.dirty;
        assert vals[k] == t.children[k].value;
        assert ChildFails(t, vals, p, k);
      } else {
        var k :| 0 <= k < |t.children| && FlexDirtyBelow(t.children[k]);
        assert ChildFails(t, vals, p, k);
      }
    }
    if exists k :: 0 <= k < |t.children| && ChildFails(t, vals, p, k) {
      var k :| 0 <= k < |t.children| && ChildFails(t, vals, p, k);
      if !FlexDirtyBelow(t.children[k]) {
        assert IsFlex(LayoutOf(t.value));
        assert vals[k] == t.children[k].value;
      }
    }
  }

  lemma {:induction false} VisitChildrenFail(t: Tree<DomElement>, vals: seq<DomElement>, p: DomElement, r: Resolver, i: nat)
    requires |vals| == |t.children| && i <= |t.children|
    requires forall k :: 0 <= k < |vals| ==> LayoutOf(vals[k]) == LayoutOf(t.children[k].value)
    ensures VisitChildren(t, vals, p, r, i).Err? <==>
      exists k :: i <= k < |t.children| && ChildFails(t, vals, p, k)
    decreases t, 0, |t.children| - i
  {
    if i < |t.children| {
      VisitChildrenStep(t, vals, p, r, i);
      VisitFails(t.children[i], vals[i], Some(p), r);
      VisitChildrenFail(t, vals, p, r, i + 1);
      FailsHereOrLater(t, vals, p, i);
    }
  }

  /** Some child from `i` on fails iff child `i` does or one after it. */
  lemma {:induction false} FailsHereOrLater(t: Tree<DomElement>, vals: seq<DomElement>, p: DomElement, i: nat)
    requires |vals| == |t.children| && i < |t.children|
    ensures (exists k :: i <= k < |t.children| && ChildFails(t, vals, p, k)) <==>
      ChildFails(t, vals, p, i) || exists k :: i + 1 <= k < |t.children| && ChildFails(t, vals, p, k)
  {
    if exists k :: i <= k < |t.children| && ChildFails(t, vals, p, k) {
      var k :| i <= k < |t.children| && ChildFails(t, vals, p, k);
      if k > i {
        assert i + 1 <= k < |t.children| && ChildFails(t, vals, p, k);
      }
    }
  }

  /** The node a visit returns is the node laid out (unless it is the
      root) over the visited children, one per child. */
  lemma {:induction false} VisitRoot(t: Tree<DomElement>, d: DomElement, parent: Option<DomElement>, r: Resolver)
    ensures var res := VisitNode(t, d, parent, r);
      res.Ok? ==>
        && res.value.0.value == (if parent.None? then d else SetDirty(d, false))
        && res.value.0.children == VisitChildren(t, Arranged(t, d, r), res.value.0.value, r, 0).value.0
  {
  }

  /** Each tree of `cs` holds the matching value of `vals`, made clean. */
  predicate CleanedFrom(cs: seq<Tree<DomElement>>, vals: seq<DomElement>) {
    |cs| == |vals| && forall k :: 0 <= k < |cs| ==> cs[k].value == SetDirty(vals[k], false)
  }

  lemma {:induction false} VisitChildrenValues(t: Tree<DomElement>, vals: seq<DomElement>, p: DomElement, r: Resolver, i: nat)
    requires |vals| == |t.children| && i <= |t.children|
    ensures var res := VisitChildren(t, vals, p, r, i);
      res.Ok? ==> CleanedFrom(res.value.0, vals[i..])
    decreases |t.children| - i
  {
    var res := VisitChildren(t, vals, p, r, i);
    if i < |t.children| && res.Ok? {
      VisitChildrenStep(t, vals, p, r, i);
      var u := VisitNode(t.children[i], vals[i], Some(p), r).value.0;
      var us := VisitChildren(t, vals, p, r, i + 1).value.0;
      assert u.value == SetDirty(vals[i], false) by {
        VisitRoot(t.children[i], vals[i], Some(p), r);
      }
      VisitChildrenValues(t, vals, p, r, i + 1);
      assert vals[i..][0] == vals[i] && vals[i..][1..] == vals[i + 1..];
      ConsCleanValues(u, us, vals[i..]);
    } else if i == |t.children| && res.Ok? {
      assert res.value.0 == [] && vals[i..] == [];
    }
  }

  /** A visited child followed by the visited rest: each value is the
      matching input made clean. */
  lemma {:induction false} ConsCleanValues(u: Tree<DomElement>, us: seq<Tree<DomElement>>, vals: seq<DomElement>)
    requires |vals| > 0 && u.value == SetDirty(vals[0], false)
    requires CleanedFrom(us, vals[1..])
    ensures CleanedFrom([u] + us, vals)
  {
    var cs := [u] + us;
    forall k | 0 <= k < |cs| ensures cs[k].value == SetDirty(vals[k], false) {
      if k > 0 {
        assert cs[k] == us[k - 1] && vals[k] == vals[1..][k - 1];
      }
    }
  }

  /** Every node below a visited node comes back clean. */
  lemma {:induction false} VisitClean(t: Tree<DomElement>, d: DomElement, parent: Option<DomElement>, r: Resolver)
    ensures var res := VisitNode(t, d, parent, r);
      res.Ok? ==> AllClean(PreOrderOf(res.value.0.children))
    decreases t, 1
  {
    var res := VisitNode(t, d, parent, r);
    if res.Ok? {
      VisitRoot(t, d, parent, r);
      VisitChildrenClean(t, Arranged(t, d, r), res.value.0.value, r, 0);
    }
  }

  lemma {:induction false} VisitChildrenClean(t: Tree<DomElement>, vals: seq<DomElement>, p: DomElement, r: Resolver, i: nat)
    requires |vals| == |t.children| && i <= |t.children|
    ensures var res := VisitChildren(t, vals, p, r, i);
      res.Ok? ==> AllClean(PreOrderOf(res.value.0))
    decreases t, 0, |t.children| - i
  {
    var res := VisitChildren(t, vals, p, r, i);
    if i < |t.children| && res.Ok? {
      VisitChildrenStep(t, vals, p, r, i);
      var u := VisitNode(t.children[i], vals[i], Some(p), r).value.0;
      var us := VisitChildren(t, vals, p, r, i + 1).value.0;
      VisitRoot(t.children[i], vals[i], Some(p), r);
      VisitClean(t.children[i], vals[i], Some(p), r);
      VisitChildrenClean(t, vals, p, r, i + 1);
      assert res.value.0 == [u] + us;
      ConsClean(u, us);
    } else if i == |t.children| {
      assert res.value.0 == [];
    }
  }

  /** A clean node with clean descendants before clean trees: all clean. */
  lemma {:induction false} ConsClean(u: Tree<DomElement>, us: seq<Tree<DomElement>>)
    requires !u.value.dirty && AllClean(PreOrderOf(u.children)) && AllClean(PreOrderOf(us))
    ensures AllClean(PreOrderOf([u] + us))
  {
    PreOrderOfCons(u, us);
    assert PreOrder(u) == [u.value] + PreOrderOf(u.children);
    AllCleanAppend([u.value], PreOrderOf(u.children));
    AllCleanAppend(PreOrder(u), PreOrderOf(us));
  }

  lemma {:induction false} AllCleanAppend(ds: seq<DomElement>, es: seq<DomElement>)
    requires AllClean(ds) && AllClean(es)
    ensures AllClean(ds + es)
  {
    assert forall k :: |ds| <= k < |ds + es| ==> (ds + es)[k] == es[k - |ds|];
  }

  /** A visit neither loses nor adds a node. */
  lemma {:induction false} VisitSize(t: Tree<DomElement>, d: DomElement, parent: Option<DomElement>, r: Resolver)
    ensures var res := VisitNode(t, d, parent, r);
      res.Ok? ==> |PreOrder(res.value.0)| == Trees.Size(t)
    decreases t, 1
  {
    var res := VisitNode(t, d, parent, r);
    if res.Ok? {
      VisitRoot(t, d, parent, r);
      VisitChildrenSize(t, Arranged(t, d, r), res.value.0.value, r, 0);
      assert t.children[0..] == t.children;
      PreOrderOfSize(res.value.0.children);
    }
  }

  lemma {:induction false} VisitChildrenSize(t: Tree<DomElement>, vals: seq<DomElement>, p: DomElement, r: Resolver, i: nat)
    requires |vals| == |t.children| && i <= |t.children|
    ensures var res := VisitChildren(t, vals, p, r, i);
      res.Ok? ==> |PreOrderOf(res.value.0)| == SizeOf(t.children[i..])
    decreases t, 0, |t.children| - i
  {
    var res := VisitChildren(t, vals, p, r, i);
    if i == |t.children| {
      assert t.children[i..] == [];
    } else if res.Ok? {
      var u := VisitNode(t.children[i], vals[i], Some(p), r).value.0;
      var us := VisitChildren(t, vals, p, r, i + 1).value.0;
      VisitSize(t.children[i], vals[i], Some(p), r);
      VisitChildrenSize(t, vals, p, r, i + 1);
      assert res.value.0 == [u] + us;
      PreOrderOfCons(u, us);
      assert t.children[i..][1..] == t.children[i + 1..];
    }
  }

  /** The tree a visit returns: the node's value is laid out (unless it
      is the root), each child carries its arranged value made clean,
      every node below the node is clean, and no node is lost or added. */
  lemma {:induction false} VisitShape(t: Tree<DomElement>, d: DomElement, parent: Option<DomElement>, r: Resolver)
    ensures var res := VisitNode(t, d, parent, r);
      res.Ok? ==>
        && res.value.0.value == (if parent.None? then d else SetDirty(d, false))
        && |res.value.0.children| == |t.children|
        && (forall k :: 0 <= k < |t.children| ==>
              res.value.0.children[k].value == SetDirty(Arranged(t, d, r)[k], false))
        && AllClean(PreOrderOf(res.value.0.children))
        && |PreOrder(res.value.0)| == Trees.Size(t)
  {
    var res := VisitNode(t, d, parent, r);
    if res.Ok? {
      VisitRoot(t, d, parent, r);
      VisitChildrenValues(t, Arranged(t, d, r), res.value.0.value, r, 0);
      assert Arranged(t, d, r)[0..] == Arranged(t, d, r);
      VisitClean(t, d, parent, r);
      VisitSize(t, d, parent, r);
    }
  }

  /** The paint calls of a visit are those of the nodes of the returned
      tree in pre-order, the root's excepted. */
  lemma {:induction false} VisitPaints(t: Tree<DomElement>, d: DomElement, parent: Option<DomElement>, r: Resolver)
    ensures var res := VisitNode(t, d, parent, r);
      res.Ok? ==>
        res.value.1 == PaintAll(if parent.None? then PreOrderOf(res.value.0.children) else PreOrder(res.value.0))
    decreases t, 1
  {
    var self := if parent.None? then Ok(d) else LayoutHook(d, parent.value);
    var res := VisitNode(t, d, parent, r);
    if self.Ok? && res.Ok? {
      var d' := self.value;
      var vals := Arranged(t, d, r);
      VisitChildrenPaint(t, vals, d', r, 0);
      var cs := VisitChildren(t, vals, d', r, 0).value.0;
      assert res.value.0 == Node(d', cs);
      if parent.Some? {
        PaintAllAppend([d'], PreOrderOf(cs));
        assert [d'][1..] == [];
      }
    }
  }

  lemma {:induction false} VisitChildrenPaint(t: Tree<DomElement>, vals: seq<DomElement>, p: DomElement, r: Resolver, i: nat)
    requires |vals| == |t.children| && i <= |t.children|
    ensures var res := VisitChildren(t, vals, p, r, i);
      res.Ok? ==> res.value.1 == PaintAll(PreOrderOf(res.value.0))
    decreases t, 0, |t.children| - i
  {
    if i < |t.children| {
      VisitChildrenStep(t, vals, p, r, i);
      VisitPaints(t.children[i], vals[i], Some(p), r);
      VisitChildrenPaint(t, vals, p, r, i + 1);
      ConsPaint(VisitChildren(t, vals, p, r, i), VisitNode(t.children[i], vals[i], Some(p), r),
                VisitChildren(t, vals, p, r, i + 1));
    }
  }

  /** A visited tree whose paint calls are its pre-order's, before
      visited trees whose paint calls are theirs: together, the calls are
      those of all the trees in pre-order. */
  lemma {:induction false} ConsPaint(res: Result<(seq<Tree<DomElement>>, Elements.PaintTrace)>,
                                     head: Result<(Tree<DomElement>, Elements.PaintTrace)>,
                                     tail: Result<(seq<Tree<DomElement>>, Elements.PaintTrace)>)
    requires res.Ok? <==> head.Ok? && tail.Ok?
    requires res.Ok? ==> res.value == ([head.value.0] + tail.value.0, head.value.1 + tail.value.1)
    requires head.Ok? ==> head.value.1 == PaintAll(PreOrder(head.value.0))
    requires tail.Ok? ==> tail.value.1 == PaintAll(PreOrderOf(tail.value.0))
    ensures res.Ok? ==> res.value.1 == PaintAll(PreOrderOf(res.value.0))
  {
    if res.Ok? {
      PreOrderOfCons(head.value.0, tail.value.0);
      PaintAllAppend(PreOrder(head.value.0), PreOrderOf(tail.value.0));
    }
  }

  /** For a whole tree: the walk panics iff some flex element has a dirty
      child; otherwise the root comes back unchanged, every other node is
      clean, and the painter saw one `rect` call per non-root node, in
      pre-order, each for the node as it finally is. */
  lemma {:induction false} RunFacts(t: Tree<DomElement>, r: Resolver)
    ensures Run(t, r).Err? <==> FlexDirtyBelow(t)
    ensures Run(t, r).Ok? ==>
      && Run(t, r).value.0.value == t.value
      && Run(t, r).value.1 == PaintAll(PreOrder(Run(t, r).value.0)[1..])
      && |Run(t, r).value.1| == Trees.Size(t) - 1
      && AllClean(PreOrder(Run(t, r).value.0)[1..])
  {
    VisitFails(t, t.value, None, r);
    VisitShape(t, t.value, None, r);
    VisitPaints(t, t.value, None, r);
    if Run(t, r).Ok? {
      var u := Run(t, r).value.0;
      assert PreOrder(u)[1..] == PreOrderOf(u.children);
      PaintAllLength(PreOrder(u)[1..]);
    }
  }

  // ------------------------------------------------------- the root

  /** The root initialisation as written: default style, block layout,
      the window's width and height, and an available box from the origin
      to `(window_width, window_width)`. */
  function RootInit(root: DomElement, w: real, h: real): (d: DomElement)
    ensures LayoutOf(d) == Block && d.style.width == Size(w) && d.style.height == Size(h)
    ensures d.area == Box2(Zero, Vec2(w, w))
    ensures d.style == DefaultStyle.(width := Size(w), height := Size(h))
  {
    var d1 := SetStyle(root, DefaultStyle);
    var d2 := SetLayout(d1, Block);
    var d3 := SetWidth(d2, Size(w));
    var d4 := SetHeight(d3, Size(h));
    SetArea(d4, Box2(Vec2(0.0, 0.0), Vec2(w, w)))
  }

  /** The root's available box as its comment intends: the whole window. */
  function RootInitIntended(root: DomElement, w: real, h: real): (d: DomElement)
    ensures LayoutOf(d) == Block && d.style.width == Size(w) && d.style.height == Size(h)
    ensures d.area == Box2(Zero, Vec2(w, h))
    ensures d.style == DefaultStyle.(width := Size(w), height := Size(h))
    ensures Geom.Size(d.area) == Vec2(w, h)
  {
    RootInit(root, w, h).(area := Box2(Vec2(0.0, 0.0), Vec2(w, h)))
  }

  /** The written root box is wrong whenever the window is not square. */
  lemma {:induction false} RootBoxUsesWidth(root: DomElement, w: real, h: real)
    ensures Geom.Size(RootInit(root, w, h).area) == Vec2(w, w)
    ensures RootInit(root, w, h) == RootInitIntended(root, w, h) <==> w == h
  {
  }

  /** The default layout hook reads nothing of the parent but its
      layout. */
  lemma {:induction false} HookReadsParentLayout(d: DomElement, p1: DomElement, p2: DomElement)
    requires LayoutOf(p1) == LayoutOf(p2)
    ensures LayoutHook(d, p1) == LayoutHook(d, p2)
  {
  }

  /** Hence the walk over a node's children reads nothing of the node but
      its layout. */
  lemma {:induction false} ChildrenReadParentLayout(t: Tree<DomElement>, vals: seq<DomElement>, p1: DomElement, p2: DomElement, r: Resolver, i: nat)
    requires |vals| == |t.children| && i <= |t.children|
    requires LayoutOf(p1) == LayoutOf(p2)
    ensures VisitChildren(t, vals, p1, r, i) == VisitChildren(t, vals, p2, r, i)
    decreases |t.children| - i
  {
    if i < |t.children| {
      HookReadsParentLayout(vals[i], p1, p2);
      assert VisitNode(t.children[i], vals[i], Some(p1), r) == VisitNode(t.children[i], vals[i], Some(p2), r);
      ChildrenReadParentLayout(t, vals, p1, p2, r, i + 1);
    }
  }

  /** The slip is harmless to the walk: only the root's corner is read
      (as the first cursor), and the root is never painted, so the two
      initialisations give the same children and the same paint calls. */
  lemma {:induction false} RootBoxSlipIsHarmless(t: Tree<DomElement>, w: real, h: real, r: Resolver)
    ensures var a := VisitNode(t, RootInit(t.value, w, h), None, r);
            var b := VisitNode(t, RootInitIntended(t.value, w, h), None, r);
            a.Err? == b.Err?
            && (a.Ok? ==> a.value.0.children == b.value.0.children && a.value.1 == b.value.1)
  {
    var da, db := RootInit(t.value, w, h), RootInitIntended(t.value, w, h);
    assert da.style == db.style && da.area.min == db.area.min;
    var vals := Arranged(t, da, r);
    assert vals == Arranged(t, db, r);
    ChildrenReadParentLayout(t, vals, da, db, r, 0);
  }
}
