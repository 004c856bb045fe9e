/** The attribute-map DOM node of `xinghuo-core` (its `node.rs`). The
    shared, reference-counted `rctree` node becomes a value: a node owns
    its data and its children. */
module Nodes {
  import opened Wrappers

  /** `NodeData`: an element with a tag and attributes, or a text node. */
  datatype NodeData =
    | Elem(tag: string, attrs: map<string, string>)
    | Text(text: string)

  /** A node and its children, in order. */
  datatype CachedNode = CachedNode(data: NodeData, children: seq<CachedNode>)

  /** `NodeData::new` / `CachedNode::new`: an element with no attributes
      and no children. */
  function NewNode(tag: string): (n: CachedNode)
    ensures n.data.Elem? && n.data.tag == tag
    ensures |n.data.attrs| == 0 && |n.children| == 0
  {
    CachedNode(Elem(tag, map[]), [])
  }

  /** `set_attribute`: overwrites or adds `name`; panics on a text node. */
  function SetAttribute(n: CachedNode, name: string, value: string): (r: Result<CachedNode>)
    ensures r.Err? <==> n.data.Text?
    ensures r.Ok? ==> r.value.data.Elem? && r.value.data.tag == n.data.tag && r.value.children == n.children
    ensures r.Ok? ==> r.value.data.attrs.Keys == n.data.attrs.Keys + {name}
  {
    match n.data
    case Text(_) => Err(Panic("expected VirtData::Elem, found Text"))
    case Elem(tag, attrs) => Ok(n.(data := Elem(tag, attrs[name := value])))
  }

  /** `remove_attribute`: drops `name` if present; panics on a text node. */
  function RemoveAttribute(n: CachedNode, name: string): (r: Result<CachedNode>)
    ensures r.Err? <==> n.data.Text?
    ensures r.Ok? ==> r.value.data.Elem? && r.value.data.tag == n.data.tag && r.value.children == n.children
    ensures r.Ok? ==> r.value.data.attrs.Keys == n.data.attrs.Keys - {name}
  {
    match n.data
    case Text(_) => Err(Panic("expected VirtData::Elem, found Text"))
    case Elem(tag, attrs) => Ok(n.(data := Elem(tag, attrs - {name})))
  }

  /** `get_attribute`: the value stored under `name`; `None` for a text
      node or a missing name. */
  function GetAttribute(n: CachedNode, name: string): (r: Option<string>)
    ensures r.Some? <==> n.data.Elem? && name in n.data.attrs
    ensures r.Some? ==> r.value == n.data.attrs[name]
  {
    match n.data
    case Text(_) => None
    case Elem(_, attrs) => if name in attrs then Some(attrs[name]) else None
  }

  /** Setting reads back, removing reads `None`, and both leave every
      other name as it was. */
  lemma {:induction false} AttributeLaws(n: CachedNode, name: string, other: string, value: string)
    requires n.data.Elem?
    requires other != name
    ensures GetAttribute(SetAttribute(n, name, value).value, name) == Some(value)
    ensures GetAttribute(SetAttribute(n, name, value).value, other) == GetAttribute(n, other)
    ensures GetAttribute(RemoveAttribute(n, name).value, name).None?
    ensures GetAttribute(RemoveAttribute(n, name).value, other) == GetAttribute(n, other)
  {
  }

  /** A text node has no attributes and refuses to be given or to lose
      one. */
  lemma {:induction false} TextNodeLaws(text: string, name: string, value: string)
    ensures GetAttribute(CachedNode(Text(text), []), name).None?
    ensures SetAttribute(CachedNode(Text(text), []), name, value).Err?
    ensures RemoveAttribute(CachedNode(Text(text), []), name).Err?
  {
  }

  /** `append_child`: the new child goes last. */
  function AppendChild(n: CachedNode, child: CachedNode): (r: CachedNode)
    ensures r.data == n.data
    ensures |r.children| == |n.children| + 1
    ensures r.children[..|n.children|] == n.children && r.children[|n.children|] == child
  {
    n.(children := n.children + [child])
  }

  /** `first_child`. */
  function FirstChild(n: CachedNode): (r: Option<CachedNode>)
    ensures r.None? <==> |n.children| == 0
    ensures r.Some? ==> r.value == n.children[0]
  {
    if |n.children| == 0 then None else Some(n.children[0])
  }

  /** Appending children one after another to a fresh node keeps them in
      order, so `first_child` is the earliest one appended. */
  function AppendAll(n: CachedNode, cs: seq<CachedNode>): CachedNode
    decreases |cs|
  {
    if |cs| == 0 then n else AppendAll(AppendChild(n, cs[0]), cs[1..])
  }

  lemma {:induction false} AppendAllOrder(n: CachedNode, cs: seq<CachedNode>)
    ensures AppendAll(n, cs).children == n.children + cs
    ensures AppendAll(n, cs).data == n.data
    decreases |cs|
  {
    if |cs| > 0 {
      AppendAllOrder(AppendChild(n, cs[0]), cs[1..]);
      assert n.children + [cs[0]] + cs[1..] == n.children + cs;
    }
  }

  lemma {:induction false} FirstAppendedIsFirstChild(tag: string, cs: seq<CachedNode>)
    requires |cs| > 0
    ensures FirstChild(AppendAll(NewNode(tag), cs)) == Some(cs[0])
  {
    AppendAllOrder(NewNode(tag), cs);
  }
}
