/** Ordered trees (the `rctree` nodes the core builds), their pre-order,
    path addressing, and the optional-node merge used when the sparse
    event and data trees are built. */
module Trees {
  import opened Wrappers

  /** A node and its children, in order. */
  datatype Tree<T> = Node(value: T, children: seq<Tree<T>>)

  /** Number of nodes. */
  function Size<T>(t: Tree<T>): (n: nat)
    ensures n >= 1
    decreases t
  {
    1 + SizeOf(t.children)
  }

  function SizeOf<T>(ts: seq<Tree<T>>): nat
    decreases ts
  {
    if |ts| == 0 then 0 else Size(ts[0]) + SizeOf(ts[1..])
  }

  /** The values in pre-order: the node before its children, children in
      order (the `Start` edges of `traverse()`). */
  function PreOrder<T>(t: Tree<T>): seq<T>
    decreases t
  {
    [t.value] + PreOrderOf(t.children)
  }

  function PreOrderOf<T>(ts: seq<Tree<T>>): seq<T>
    decreases ts
  {
    if |ts| == 0 then [] else PreOrder(ts[0]) + PreOrderOf(ts[1..])
  }

  lemma {:induction false} PreOrderSize<T>(t: Tree<T>)
    ensures |PreOrder(t)| == Size(t)
    decreases t
  {
    PreOrderOfSize(t.children);
  }

  lemma {:induction false} PreOrderOfSize<T>(ts: seq<Tree<T>>)
    ensures |PreOrderOf(ts)| == SizeOf(ts)
    decreases ts
  {
    if |ts| > 0 {
      PreOrderSize(ts[0]);
      PreOrderOfSize(ts[1..]);
    }
  }

  lemma {:induction false} PreOrderOfAppend<T>(ts: seq<Tree<T>>, us: seq<Tree<T>>)
    ensures PreOrderOf(ts + us) == PreOrderOf(ts) + PreOrderOf(us)
    decreases |ts|
  {
    if |ts| == 0 {
      assert ts + us == us;
    } else {
      assert (ts + us)[1..] == ts[1..] + us;
      PreOrderOfAppend(ts[1..], us);
    }
  }

  lemma {:induction false} PreOrderOfCons<T>(u: Tree<T>, us: seq<Tree<T>>)
    ensures PreOrderOf([u] + us) == PreOrder(u) + PreOrderOf(us)
  {
    assert ([u] + us)[1..] == us;
  }

  lemma {:induction false} PreOrderLeaf<T>(v: T)
    ensures PreOrder(Node(v, [])) == [v]
  {
    assert PreOrderOf<T>([]) == [];
  }

  /** `append`: `c` becomes the last child. */
  function Append<T>(t: Tree<T>, c: Tree<T>): (r: Tree<T>)
    ensures r.value == t.value && r.children == t.children + [c]
    ensures PreOrder(r) == PreOrder(t) + PreOrder(c)
  {
    PreOrderOfAppend(t.children, [c]);
    assert [c][1..] == [];
    Node(t.value, t.children + [c])
  }

  // ------------------------------------------------------ optional trees

  /** Pre-order of an optional tree; nothing for `None`. */
  function PreOrderOpt<T>(o: Option<Tree<T>>): seq<T> {
    match o
    case None => []
    case Some(t) => PreOrder(t)
  }

  /** `merge_option_node`: with a first tree, the second (if any) is
      appended to it as its last child; without one, the second is the
      result. */
  function MergeOption<T>(a: Option<Tree<T>>, b: Option<Tree<T>>): (r: Option<Tree<T>>)
    ensures r.None? <==> a.None? && b.None?
    ensures a.Some? ==> r.value.value == a.value.value
    ensures a.Some? && b.Some? ==> r.value.children == a.value.children + [b.value]
    ensures a.Some? && b.None? ==> r == a
    ensures a.None? ==> r == b
  {
    match a
    case Some(t) =>
      (match b
       case Some(u) => Some(Node(t.value, t.children + [u]))
       case None => Some(t))
    case None => b
  }

  /** Merging loses and adds no node: the first tree's pre-order is
      followed by the second's. */
  lemma {:induction false} MergeOptionPreOrder<T>(a: Option<Tree<T>>, b: Option<Tree<T>>)
    ensures PreOrderOpt(MergeOption(a, b)) == PreOrderOpt(a) + PreOrderOpt(b)
  {
    if a.Some? && b.Some? {
      assert MergeOption(a, b).value == Append(a.value, b.value);
    }
  }

  /** Merging a sequence of optional trees into an accumulator, left to
      right: the loop over children in `Element::build`. */
  function FoldMerge<T>(acc: Option<Tree<T>>, xs: seq<Option<Tree<T>>>): (r: Option<Tree<T>>)
    ensures r.None? <==> acc.None? && forall k :: 0 <= k < |xs| ==> xs[k].None?
    decreases |xs|
  {
    if |xs| == 0 then acc
    else
      var r := FoldMerge(MergeOption(acc, xs[0]), xs[1..]);
      assert forall k :: 1 <= k < |xs| ==> xs[k] == xs[1..][k - 1];
      r
  }

  /** Merging keeps every node: the pre-order of the result is the
      accumulator's followed by those of the merged trees, in order. */
  lemma {:induction false} FoldMergePreOrder<T>(acc: Option<Tree<T>>, xs: seq<Option<Tree<T>>>)
    ensures PreOrderOpt(FoldMerge(acc, xs)) == PreOrderOpt(acc) + PreOrderOptOf(xs)
    decreases |xs|
  {
    if |xs| == 0 {
      assert PreOrderOptOf(xs) == [];
    } else {
      FoldMergePreOrder(MergeOption(acc, xs[0]), xs[1..]);
      MergeOptionPreOrder(acc, xs[0]);
      FoldMergePreOrderStep(acc, xs);
    }
  }

  /** The step: merging the first tree in, then the rest, keeps the
      accumulator's nodes, then the first tree's, then the rest's. */
  lemma {:induction false} FoldMergePreOrderStep<T>(acc: Option<Tree<T>>, xs: seq<Option<Tree<T>>>)
    requires |xs| > 0
    requires PreOrderOpt(MergeOption(acc, xs[0])) == PreOrderOpt(acc) + PreOrderOpt(xs[0])
    requires PreOrderOpt(FoldMerge(MergeOption(acc, xs[0]), xs[1..]))
          == PreOrderOpt(MergeOption(acc, xs[0])) + PreOrderOptOf(xs[1..])
    ensures PreOrderOpt(FoldMerge(acc, xs)) == PreOrderOpt(acc) + PreOrderOptOf(xs)
  {
    AppendAssoc(PreOrderOpt(acc), PreOrderOpt(xs[0]), PreOrderOptOf(xs[1..]));
  }

  lemma {:induction false} AppendAssoc<T>(a: seq<T>, b: seq<T>, c: seq<T>)
    ensures (a + b) + c == a + (b + c)
  {
  }

  /** The pre-orders of a sequence of optional trees, concatenated. */
  function PreOrderOptOf<T>(xs: seq<Option<Tree<T>>>): seq<T>
    decreases |xs|
  {
    if |xs| == 0 then [] else PreOrderOpt(xs[0]) + PreOrderOptOf(xs[1..])
  }

  /** The trees present in `xs`, in order. */
  function Somes<T>(xs: seq<Option<Tree<T>>>): (ts: seq<Tree<T>>)
    ensures |ts| <= |xs|
    decreases |xs|
  {
    if |xs| == 0 then []
    else if xs[0].Some? then [xs[0].value] + Somes(xs[1..])
    else Somes(xs[1..])
  }

  /** With a tree to start from, every present tree becomes one more
      child of it, in order. */
  lemma {:induction false} FoldMergeOntoTree<T>(t: Tree<T>, xs: seq<Option<Tree<T>>>)
    ensures FoldMerge(Some(t), xs) == Some(Node(t.value, t.children + Somes(xs)))
    decreases |xs|
  {
    if |xs| == 0 {
      assert t.children + Somes(xs) == t.children;
    } else {
      var rest := xs[1..];
      if xs[0].Some? {
        var x := xs[0].value;
        var t' := Node(t.value, t.children + [x]);
        assert FoldMerge(Some(t), xs) == FoldMerge(Some(t'), rest) by {
          assert MergeOption(Some(t), xs[0]) == Some(t');
        }
        FoldMergeOntoTree(t', rest);
        assert t'.children + Somes(rest) == t.children + Somes(xs) by {
          assert Somes(xs) == [x] + Somes(rest);
        }
      } else {
        assert FoldMerge(Some(t), xs) == FoldMerge(Some(t), rest) by {
          assert MergeOption(Some(t), xs[0]) == Some(t);
        }
        FoldMergeOntoTree(t, rest);
        assert Somes(xs) == Somes(rest);
      }
    }
  }

  /** Without a tree to start from, the first present tree takes its
      place and later ones become its children. */
  lemma {:induction false} FoldMergeFromNone<T>(xs: seq<Option<Tree<T>>>, k: nat)
    requires k < |xs| && xs[k].Some?
    requires forall j :: 0 <= j < k ==> xs[j].None?
    ensures FoldMerge(None, xs) == FoldMerge(xs[k], xs[k + 1..])
    decreases k
  {
    if k > 0 {
      assert xs[1..][k - 1] == xs[k];
      assert xs[1..][k..] == xs[k + 1..];
      FoldMergeFromNone(xs[1..], k - 1);
    }
  }

  // ---------------------------------------------------------------- paths

  /** A path of child indices names a node in the tree. */
  predicate ValidPath<T>(t: Tree<T>, p: seq<nat>)
    decreases |p|
  {
    |p| == 0 || (p[0] < |t.children| && ValidPath(t.children[p[0]], p[1..]))
  }

  /** The subtree at a valid path. */
  function At<T>(t: Tree<T>, p: seq<nat>): Tree<T>
    requires ValidPath(t, p)
    decreases |p|
  {
    if |p| == 0 then t else At(t.children[p[0]], p[1..])
  }

  // -------------------------------------------------- pre-order positions

  /** The position in the pre-order of the node at path `p`: the nodes
      before it are its ancestors' own entries and the whole subtrees of
      the earlier siblings along the way. */
  function Position<T>(t: Tree<T>, p: seq<nat>): nat
    requires ValidPath(t, p)
    decreases |p|
  {
    if |p| == 0 then 0
    else 1 + SizeOf(t.children[..p[0]]) + Position(t.children[p[0]], p[1..])
  }

  /** Entry `i` of the pre-order is the node at some path. */
  ghost predicate IsPositionOfSomeNode<T>(t: Tree<T>, i: nat) {
    exists p :: ValidPath(t, p) && Position(t, p) == i && i < |PreOrder(t)| && PreOrder(t)[i] == At(t, p).value
  }

  /** The pre-order lists every node exactly once: it has one entry per
      node, the node at each path sits at that path's position, no two
      paths share a position, and every position belongs to a path. */
  lemma {:induction false} PreOrderListsEachNodeOnce<T>(t: Tree<T>)
    ensures |PreOrder(t)| == Size(t)
    ensures forall p :: ValidPath(t, p) ==>
      Position(t, p) < |PreOrder(t)| && PreOrder(t)[Position(t, p)] == At(t, p).value
    ensures forall p, q :: ValidPath(t, p) && ValidPath(t, q) && Position(t, p) == Position(t, q) ==> p == q
    ensures forall i :: 0 <= i < |PreOrder(t)| ==> IsPositionOfSomeNode(t, i)
  {
    PreOrderSize(t);
    forall p | ValidPath(t, p)
      ensures Position(t, p) < |PreOrder(t)| && PreOrder(t)[Position(t, p)] == At(t, p).value
    {
      PositionHolds(t, p);
    }
    forall p, q | ValidPath(t, p) && ValidPath(t, q) && Position(t, p) == Position(t, q)
      ensures p == q
    {
      PositionInjective(t, p, q);
    }
    forall i | 0 <= i < |PreOrder(t)|
      ensures IsPositionOfSomeNode(t, i)
    {
      var p := PathAt(t, i);
      PositionHolds(t, p);
      assert ValidPath(t, p) && Position(t, p) == i && PreOrder(t)[i] == At(t, p).value;
    }
  }

  lemma {:induction false} SizeOfAppend<T>(ts: seq<Tree<T>>, us: seq<Tree<T>>)
    ensures SizeOf(ts + us) == SizeOf(ts) + SizeOf(us)
    decreases |ts|
  {
    if |ts| == 0 {
      assert ts + us == us;
    } else {
      assert (ts + us)[1..] == ts[1..] + us;
      SizeOfAppend(ts[1..], us);
    }
  }

  /** The children before `k`, child `k`, and the children after it. */
  lemma {:induction false} AroundChild<T>(cs: seq<Tree<T>>, k: nat)
    requires k < |cs|
    ensures SizeOf(cs) == SizeOf(cs[..k]) + Size(cs[k]) + SizeOf(cs[k + 1..])
    ensures PreOrderOf(cs) == PreOrderOf(cs[..k]) + PreOrder(cs[k]) + PreOrderOf(cs[k + 1..])
  {
    assert cs == cs[..k] + cs[k..];
    assert cs[k..][1..] == cs[k + 1..];
    SizeOfAppend(cs[..k], cs[k..]);
    PreOrderOfAppend(cs[..k], cs[k..]);
  }

  /** The node at a path sits at its position in the pre-order. */
  lemma {:induction false} PositionHolds<T>(t: Tree<T>, p: seq<nat>)
    requires ValidPath(t, p)
    ensures Position(t, p) < Size(t)
    ensures Position(t, p) < |PreOrder(t)| && PreOrder(t)[Position(t, p)] == At(t, p).value
    decreases |p|
  {
    PreOrderSize(t);
    if |p| > 0 {
      var cs, k := t.children, p[0];
      PositionHolds(cs[k], p[1..]);
      AroundChild(cs, k);
      PreOrderOfSize(cs[..k]);
      var before := [t.value] + PreOrderOf(cs[..k]);
      assert PreOrder(t) == before + PreOrder(cs[k]) + PreOrderOf(cs[k + 1..]);
      InMiddle(before, PreOrder(cs[k]), PreOrderOf(cs[k + 1..]), Position(cs[k], p[1..]));
    }
  }

  lemma {:induction false} InMiddle<T>(a: seq<T>, m: seq<T>, b: seq<T>, i: nat)
    requires i < |m|
    ensures |a| + i < |a + m + b| && (a + m + b)[|a| + i] == m[i]
  {
  }

  /** The whole subtree of an earlier sibling comes before a later one. */
  lemma {:induction false} EarlierSiblingsFirst<T>(cs: seq<Tree<T>>, k: nat, j: nat)
    requires k < j <= |cs|
    ensures SizeOf(cs[..k]) + Size(cs[k]) <= SizeOf(cs[..j])
  {
    assert cs[..j] == cs[..k] + cs[k..j];
    SizeOfAppend(cs[..k], cs[k..j]);
    assert cs[k..j][0] == cs[k];
  }

  lemma {:induction false} PositionInjective<T>(t: Tree<T>, p: seq<nat>, q: seq<nat>)
    requires ValidPath(t, p) && ValidPath(t, q) && Position(t, p) == Position(t, q)
    ensures p == q
    decreases |p|
  {
    if |p| > 0 && |q| > 0 {
      var cs, k, j := t.children, p[0], q[0];
      PositionHolds(cs[k], p[1..]);
      PositionHolds(cs[j], q[1..]);
      if k < j {
        EarlierSiblingsFirst(cs, k, j);
      } else if j < k {
        EarlierSiblingsFirst(cs, j, k);
      } else {
        PositionInjective(cs[k], p[1..], q[1..]);
        assert p == [k] + p[1..] && q == [j] + q[1..];
      }
    }
  }

  /** The child whose subtree holds entry `n` of the children's
      pre-order. */
  function ChildHolding<T>(cs: seq<Tree<T>>, n: nat): (k: nat)
    requires n < SizeOf(cs)
    ensures k < |cs| && SizeOf(cs[..k]) <= n < SizeOf(cs[..k]) + Size(cs[k])
    decreases |cs|
  {
    if n < Size(cs[0]) then
      assert cs[..0] == [];
      0
    else
      var k := ChildHolding(cs[1..], n - Size(cs[0]));
      assert cs[..k + 1] == [cs[0]] + cs[1..][..k];
      assert ([cs[0]] + cs[1..][..k])[1..] == cs[1..][..k];
      k + 1
  }

  /** The path whose node sits at position `i` of the pre-order. */
  function PathAt<T>(t: Tree<T>, i: nat): (p: seq<nat>)
    requires i < Size(t)
    ensures ValidPath(t, p) && Position(t, p) == i
    decreases t
  {
    if i == 0 then []
    else
      var k := ChildHolding(t.children, i - 1);
      var p := PathAt(t.children[k], i - 1 - SizeOf(t.children[..k]));
      assert ([k] + p)[1..] == p;
      [k] + p
  }
}
