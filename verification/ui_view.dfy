/** The front end of the `ui_view!` macro: an already parsed markup tree
    (syn-rsx nodes) is classified into tags, expressions and dropped
    nodes, its names are validated and mangled into Rust identifiers,
    and it is lowered to a builder-call token sequence such as
    `div().id(x).child(span())`.

    Token streams are sequences of `Tok`; an embedded Rust expression is
    kept as the opaque token sequence it was parsed from. */
module UiView {
  import opened Wrappers
  import opened Strings

  // ------------------------------------------------------------ syntax

  datatype Tok = Ident(name: string) | Sym(text: string) | Open(delim: char) | Close(delim: char)

  type Expr = seq<Tok>

  /** A path segment: its identifier and its generic arguments, if any. */
  datatype Segment = Segment(ident: string, arguments: seq<Tok>)

  /** `syn::ExprPath`: whether it carries outer attributes or a qualified
      self type, whether it starts with `::`, and its segments. */
  datatype ExprPath = ExprPath(hasAttrs: bool, hasQSelf: bool, leadingColon: bool, segments: seq<Segment>)

  /** The four ways syn-rsx spells a node name. */
  datatype NodeName =
    | PathName(path: ExprPath)
    | DashName(words: seq<string>, trailingPunct: bool)
    | ColonName(parts: seq<string>)
    | BlockName(block: Expr)

  datatype NodeType = Element | Attribute | Text | Comment | Doctype | Block | Fragment

  datatype RsxNode = RsxNode(
    nodeType: NodeType,
    name: Option<NodeName>,
    value: Option<Expr>,
    attributes: seq<RsxNode>,
    children: seq<RsxNode>)

  /** The lowered forms: an attribute, and an item that is a tag (with
      its name, attributes and children), an expression, or nothing. */
  datatype UiAttr = UiAttr(name: string, value: Option<Expr>)

  datatype UiItem =
    | Tag(path: ExprPath, attributes: seq<UiAttr>, children: seq<UiItem>)
    | ExprItem(expr: Expr)
    | NoItem

  const UnwrapNone := "called `Option::unwrap()` on a `None` value"

  function NodeTypeName(t: NodeType): string {
    match t
    case Element => "Element"
    case Attribute => "Attribute"
    case Text => "Text"
    case Comment => "Comment"
    case Doctype => "Doctype"
    case Block => "Block"
    case Fragment => "Fragment"
  }

  /** `node_convert_error`: a compile error naming the node type and the
      type it could not become. */
  function ConvertError(t: NodeType, target: string): Failure {
    CompileError("Cannot convert " + NodeTypeName(t) + " to " + target)
  }

  // ------------------------------------------------------------ names

  const Reserved: set<string> := {"async", "for", "loop", "type"}

  /** `mangle_ident`: the four reserved words get a trailing underscore;
      any other identifier is kept. The result is never reserved. */
  function MangleIdent(s: string): (r: string)
    ensures r !in Reserved
    ensures s in Reserved ==> r == s + "_"
    ensures s !in Reserved ==> r == s
  {
    if s in Reserved then
      assert forall w :: w in Reserved ==> w[|w| - 1] != '_';
      assert (s + "_")[|s|] == '_';
      s + "_"
    else s
  }

  /** Mangling twice is mangling once, but it is not injective: a
      reserved word and the same word already suffixed meet. */
  lemma {:induction false} MangleLaws(s: string)
    ensures MangleIdent(MangleIdent(s)) == MangleIdent(s)
    ensures MangleIdent("for") == MangleIdent("for_")
  {
  }

  /** `mangle_expr_path`: every segment's identifier is mangled; the
      rest of the path is kept. */
  function ManglePath(p: ExprPath): (r: ExprPath)
    ensures r.hasAttrs == p.hasAttrs && r.hasQSelf == p.hasQSelf && r.leadingColon == p.leadingColon
    ensures |r.segments| == |p.segments|
    ensures forall k :: 0 <= k < |p.segments| ==>
      r.segments[k] == Segment(MangleIdent(p.segments[k].ident), p.segments[k].arguments)
  {
    p.(segments := seq(|p.segments|, k requires 0 <= k < |p.segments| =>
      Segment(MangleIdent(p.segments[k].ident), p.segments[k].arguments)))
  }

  /** `dashes_to_underscores`: the words joined by `_`, plus one more `_`
      when the dashed name ends in a dash; a name without words panics. */
  function DashesToUnderscores(words: seq<string>, trailingPunct: bool): (r: Result<string>)
    ensures r.Err? <==> |words| == 0
    ensures r.Err? ==> r.failure.Panic?
    ensures r.Ok? ==> (EndsWith(r.value, '_') <== trailingPunct)
    ensures r.Ok? && (forall k :: 0 <= k < |words| ==> '_' !in words[k]) ==>
      Split(r.value, '_') == (if trailingPunct then words + [""] else words)
  {
    if |words| == 0 then Err(Panic("There must be at least one ident in a punctuated list"))
    else
      DashedWordsSplit(words);
      if trailingPunct then Ok(Join(words, '_') + "_") else Ok(Join(words, '_'))
  }

  lemma {:induction false} DashedWordsSplit(words: seq<string>)
    requires |words| > 0
    ensures EndsWith(Join(words, '_') + "_", '_')
    ensures (forall k :: 0 <= k < |words| ==> '_' !in words[k]) ==>
      Split(Join(words, '_') + "_", '_') == words + [""] && Split(Join(words, '_'), '_') == words
  {
    JoinTrailingEmpty(words, '_');
    if forall k :: 0 <= k < |words| ==> '_' !in words[k] {
      SplitJoin(words + [""], '_');
      SplitJoin(words, '_');
    }
  }

  /** `UiTag::validate_name`: a path is mangled segment by segment; a
      dashed name becomes a path of one plain segment; colon and block
      names are compile errors. */
  function ValidateTagName(n: NodeName): (r: Result<ExprPath>)
    ensures r.Ok? <==> n.PathName? || (n.DashName? && |n.words| > 0)
    ensures (n.ColonName? || n.BlockName?) ==> r.Err? && r.failure.CompileError?
    ensures n.PathName? ==> r == Ok(ManglePath(n.path))
    ensures n.DashName? && r.Ok? ==>
      r.value == ExprPath(false, false, false, [Segment(DashesToUnderscores(n.words, n.trailingPunct).value, [])])
  {
    match n
    case PathName(p) => Ok(ManglePath(p))
    case DashName(ws, trailing) =>
      (match DashesToUnderscores(ws, trailing)
       case Err(f) => Err(f)
       case Ok(id) => Ok(ExprPath(false, false, false, [Segment(id, [])])))
    case ColonName(_) => Err(CompileError("Colon tag name syntax isn't supported"))
    case BlockName(_) => Err(CompileError("Block expression as a tag name isn't supported"))
  }

  /** A path that is just one identifier: no attributes, no qualified
      self, no leading `::`, one segment without generic arguments. */
  predicate IsPlainIdent(p: ExprPath) {
    !p.hasAttrs && !p.hasQSelf && !p.leadingColon && |p.segments| == 1 && |p.segments[0].arguments| == 0
  }

  /** `UiAttr::validate_name`: a plain identifier is mangled, a dashed
      name is joined with underscores, anything else is a compile error. */
  function ValidateAttrName(n: NodeName): (r: Result<string>)
    ensures r.Ok? <==> (n.PathName? && IsPlainIdent(n.path)) || (n.DashName? && |n.words| > 0)
    ensures n.PathName? && r.Ok? ==> r.value == MangleIdent(n.path.segments[0].ident)
    ensures n.DashName? ==> r == DashesToUnderscores(n.words, n.trailingPunct)
    ensures r.Err? && !n.DashName? ==> r.failure.CompileError?
  {
    match n
    case PathName(p) =>
      if !p.hasAttrs && !p.hasQSelf && !p.leadingColon && |p.segments| == 1 then
        if |p.segments[0].arguments| == 0 then Ok(MangleIdent(p.segments[0].ident))
        else Err(CompileError("Invalid name for an attribute"))
      else Err(CompileError("Invalid name for an attribute"))
    case DashName(ws, trailing) => DashesToUnderscores(ws, trailing)
    case ColonName(_) => Err(CompileError("Colon attribute name syntax isn't supported"))
    case BlockName(_) => Err(CompileError("Invalid name for an attribute"))
  }

  // ------------------------------------------------------- conversion

  /** `UiAttr::try_from`: only an attribute node converts; its value,
      if any, is kept as written. */
  function AttrFromNode(n: RsxNode): (r: Result<UiAttr>)
    ensures n.nodeType != Attribute ==> r == Err(ConvertError(n.nodeType, "UiAttr"))
    ensures r.Ok? <==> n.nodeType == Attribute && n.name.Some? && ValidateAttrName(n.name.value).Ok?
    ensures r.Ok? ==> r.value == UiAttr(ValidateAttrName(n.name.value).value, n.value)
  {
    if n.nodeType != Attribute then Err(ConvertError(n.nodeType, "UiAttr"))
    else if n.name.None? then Err(Panic(UnwrapNone))
    else
      match ValidateAttrName(n.name.value)
      case Err(f) => Err(f)
      case Ok(name) => Ok(UiAttr(name, n.value))
  }

  /** Attribute `k` is the first that fails to convert, with `f`. */
  predicate AttrFailsFirst(ns: seq<RsxNode>, k: int, f: Failure) {
    && 0 <= k < |ns|
    && AttrFromNode(ns[k]) == Err(f)
    && forall j :: 0 <= j < k ==> AttrFromNode(ns[j]).Ok?
  }

  /** Collecting into `Result<Vec<_>>`: all attributes in order, or the
      first failure. */
  function AttrsFromNodes(ns: seq<RsxNode>): (r: Result<seq<UiAttr>>)
    ensures r.Ok? <==> forall k :: 0 <= k < |ns| ==> AttrFromNode(ns[k]).Ok?
    ensures r.Ok? ==> |r.value| == |ns| && forall k :: 0 <= k < |ns| ==> r.value[k] == AttrFromNode(ns[k]).value
    ensures r.Err? ==> exists k :: AttrFailsFirst(ns, k, r.failure)
    decreases |ns|
  {
    if |ns| == 0 then Ok([])
    else
      match AttrFromNode(ns[0])
      case Err(f) =>
        assert AttrFailsFirst(ns, 0, f);
        Err(f)
      case Ok(a) =>
        match AttrsFromNodes(ns[1..])
        case Err(f) =>
          var k :| AttrFailsFirst(ns[1..], k, f);
          AttrFailsLater(ns, k, f);
          Err(f)
        case Ok(attrs) =>
          ConsAttrs(ns, a, attrs);
          Ok([a] + attrs)
  }

  /** A failure after a converting first attribute is one place later. */
  lemma {:induction false} AttrFailsLater(ns: seq<RsxNode>, k: int, f: Failure)
    requires |ns| > 0 && AttrFromNode(ns[0]).Ok? && AttrFailsFirst(ns[1..], k, f)
    ensures AttrFailsFirst(ns, k + 1, f)
  {
    assert ns[k + 1] == ns[1..][k];
    forall j | 0 <= j < k + 1 ensures AttrFromNode(ns[j]).Ok? {
      if j > 0 {
        assert ns[j] == ns[1..][j - 1];
      }
    }
  }

  /** A converted first attribute before the converted rest. */
  lemma {:induction false} ConsAttrs(ns: seq<RsxNode>, a: UiAttr, attrs: seq<UiAttr>)
    requires |ns| > 0 && AttrFromNode(ns[0]) == Ok(a) && |attrs| == |ns| - 1
    requires forall k :: 0 <= k < |ns| - 1 ==> AttrFromNode(ns[1..][k]).Ok? && attrs[k] == AttrFromNode(ns[1..][k]).value
    ensures forall k :: 0 <= k < |ns| ==> AttrFromNode(ns[k]).Ok? && ([a] + attrs)[k] == AttrFromNode(ns[k]).value
  {
    forall k | 0 <= k < |ns| ensures AttrFromNode(ns[k]).Ok? && ([a] + attrs)[k] == AttrFromNode(ns[k]).value {
      if k > 0 {
        assert ns[k] == ns[1..][k - 1] && ([a] + attrs)[k] == attrs[k - 1];
      }
    }
  }

  /** `UiExpr::try_from`: a text or block node becomes its expression. */
  function ExprFromNode(n: RsxNode): (r: Result<Expr>)
    ensures r.Ok? <==> n.nodeType in {Text, Block} && n.value.Some?
    ensures r.Ok? ==> r.value == n.value.value
    ensures n.nodeType !in {Text, Block} ==> r == Err(ConvertError(n.nodeType, "UiExpr"))
  {
    if n.nodeType == Text || n.nodeType == Block then
      if n.value.None? then Err(Panic(UnwrapNone)) else Ok(n.value.value)
    else Err(ConvertError(n.nodeType, "UiExpr"))
  }

  /** `UiItem::try_from`: elements become tags, text and blocks become
      expressions, comments and doctypes are dropped, and attributes and
      fragments cannot stand as items. */
  function ItemFromNode(n: RsxNode): (r: Result<UiItem>)
    ensures r.Ok? && r.value.NoItem? <==> n.nodeType in {Comment, Doctype}
    ensures r.Ok? && r.value.Tag? ==> n.nodeType == Element
    ensures r.Ok? && r.value.ExprItem? <==> n.nodeType in {Text, Block} && n.value.Some?
    ensures r.Ok? && r.value.ExprItem? ==> r.value.expr == n.value.value
    ensures n.nodeType in {Attribute, Fragment} ==> r == Err(ConvertError(n.nodeType, "UiItem"))
    decreases n, 2
  {
    match n.nodeType
    case Element =>
      (match TagFromNode(n)
       case Err(f) => Err(f)
       case Ok(t) => Ok(t))
    case Attribute => Err(ConvertError(n.nodeType, "UiItem"))
    case Fragment => Err(ConvertError(n.nodeType, "UiItem"))
    case Text =>
      (match ExprFromNode(n)
       case Err(f) => Err(f)
       case Ok(e) => Ok(ExprItem(e)))
    case Block =>
      (match ExprFromNode(n)
       case Err(f) => Err(f)
       case Ok(e) => Ok(ExprItem(e)))
    case Comment => Ok(NoItem)
    case Doctype => Ok(NoItem)
  }

  /** `UiTag::try_from`: the name, then the attributes, then the
      children, each converted in order; the first failure ends the
      conversion. */
  function TagFromNode(n: RsxNode): (r: Result<UiItem>)
    ensures r.Ok? ==> r.value.Tag? && n.nodeType == Element
    decreases n, 1
  {
    if n.nodeType != Element then Err(ConvertError(n.nodeType, "UiTag"))
    else if n.name.None? then Err(Panic(UnwrapNone))
    else
      match ValidateTagName(n.name.value)
      case Err(f) => Err(f)
      case Ok(path) =>
        match AttrsFromNodes(n.attributes)
        case Err(f) => Err(f)
        case Ok(attrs) =>
          match ItemsFromChildren(n, 0)
          case Err(f) => Err(f)
          case Ok(items) => Ok(Tag(path, attrs, items))
  }

  /** The children of `n` from index `i` on, converted in order. */
  function ItemsFromChildren(n: RsxNode, i: nat): Result<seq<UiItem>>
    requires i <= |n.children|
    decreases n, 0, |n.children| - i
  {
    if i == |n.children| then Ok([])
    else
      match ItemFromNode(n.children[i])
      case Err(f) => Err(f)
      case Ok(c) =>
        match ItemsFromChildren(n, i + 1)
        case Err(f) => Err(f)
        case Ok(cs) => Ok([c] + cs)
  }

  /** Child `k`, counting from `i`, is the first that fails to convert,
      with `f`. */
  predicate ChildFailsFirst(n: RsxNode, i: nat, k: int, f: Failure) {
    && i <= k < |n.children|
    && ItemFromNode(n.children[k]) == Err(f)
    && forall j :: i <= j < k ==> ItemFromNode(n.children[j]).Ok?
  }

  /** The children convert one by one: the result is every child's item
      in order, and it fails exactly when some child does, with the
      failure of the first such child. */
  lemma {:induction false} ItemsFromChildrenFacts(n: RsxNode, i: nat)
    requires i <= |n.children|
    ensures var r := ItemsFromChildren(n, i);
      && (r.Ok? <==> forall k :: i <= k < |n.children| ==> ItemFromNode(n.children[k]).Ok?)
      && (r.Ok? ==> |r.value| == |n.children| - i)
      && (r.Ok? ==> forall k :: 0 <= k < |r.value| ==> r.value[k] == ItemFromNode(n.children[i + k]).value)
      && (r.Err? ==> exists k :: ChildFailsFirst(n, i, k, r.failure))
  {
    ItemsFromChildrenOk(n, i);
    ItemsFromChildrenErr(n, i);
  }

  /** One step of the child loop: the first child's failure, else the
      rest's failure, else the first item before the rest's. */
  lemma {:induction false} ItemsFromChildrenStep(n: RsxNode, i: nat)
    requires i < |n.children|
    ensures var r := ItemsFromChildren(n, i);
            var head := ItemFromNode(n.children[i]);
            var tail := ItemsFromChildren(n, i + 1);
            && (head.Err? ==> r == Err(head.failure))
            && (head.Ok? && tail.Err? ==> r == Err(tail.failure))
            && (head.Ok? && tail.Ok? ==> r == Ok([head.value] + tail.value))
  {
  }

  /** The children from `i` on convert iff each does, into their items in
      order. */
  lemma {:induction false} ItemsFromChildrenOk(n: RsxNode, i: nat)
    requires i <= |n.children|
    ensures var r := ItemsFromChildren(n, i);
      && (r.Ok? <==> forall k :: i <= k < |n.children| ==> ItemFromNode(n.children[k]).Ok?)
      && (r.Ok? ==> |r.value| == |n.children| - i)
      && (r.Ok? ==> forall k :: 0 <= k < |r.value| ==> r.value[k] == ItemFromNode(n.children[i + k]).value)
  {
    var r := ItemsFromChildren(n, i);
    ItemsFromChildrenItems(n, i);
    ItemsFromChildrenAllOk(n, i);
    if r.Ok? {
      forall k | 0 <= k < |r.value| ensures ItemFromNode(n.children[i + k]) == Ok(r.value[k]) {
        ItemsOfChildrenAt(n, i, r.value, k);
      }
      forall k | i <= k < |n.children| ensures ItemFromNode(n.children[k]).Ok? {
        ItemsOfChildrenAt(n, i, r.value, k - i);
      }
    }
  }

  /** `items` are the converted children of `n` from index `i` on. */
  predicate ItemsOfChildren(n: RsxNode, i: nat, items: seq<UiItem>)
    decreases |items|
  {
    && i + |items| <= |n.children|
    && (|items| > 0 ==> ItemFromNode(n.children[i]) == Ok(items[0]) && ItemsOfChildren(n, i + 1, items[1..]))
  }

  /** Item `k` of such a run is child `i + k` converted. */
  lemma {:induction false} ItemsOfChildrenAt(n: RsxNode, i: nat, items: seq<UiItem>, k: nat)
    requires ItemsOfChildren(n, i, items) && k < |items|
    ensures ItemFromNode(n.children[i + k]) == Ok(items[k])
    decreases k
  {
    if k > 0 {
      ItemsOfChildrenAt(n, i + 1, items[1..], k - 1);
      assert items[1..][k - 1] == items[k];
    }
  }

  /** A successful run holds every child's item, in order. */
  lemma {:induction false} ItemsFromChildrenItems(n: RsxNode, i: nat)
    requires i <= |n.children|
    ensures var r := ItemsFromChildren(n, i);
      r.Ok? ==> |r.value| == |n.children| - i && ItemsOfChildren(n, i, r.value)
    decreases |n.children| - i
  {
    var r := ItemsFromChildren(n, i);
    if i < |n.children| && r.Ok? {
      ItemsFromChildrenItems(n, i + 1);
      ItemsFromChildrenStep(n, i);
      var head := ItemFromNode(n.children[i]);
      var cs := ItemsFromChildren(n, i + 1).value;
      assert r.value == [head.value] + cs;
      assert r.value[1..] == cs;
    }
  }

  /** When every child from `i` on converts, so does the run. */
  lemma {:induction false} ItemsFromChildrenAllOk(n: RsxNode, i: nat)
    requires i <= |n.children|
    ensures (forall k :: i <= k < |n.children| ==> ItemFromNode(n.children[k]).Ok?) ==> ItemsFromChildren(n, i).Ok?
    decreases |n.children| - i
  {
    if i < |n.children| {
      ItemsFromChildrenAllOk(n, i + 1);
      ItemsFromChildrenStep(n, i);
    }
  }

  /** A failure of the children from `i` on is the first failing child's. */
  lemma {:induction false} ItemsFromChildrenErr(n: RsxNode, i: nat)
    requires i <= |n.children|
    ensures var r := ItemsFromChildren(n, i);
      r.Err? ==> exists k :: ChildFailsFirst(n, i, k, r.failure)
    decreases |n.children| - i
  {
    if i < |n.children| {
      ItemsFromChildrenErr(n, i + 1);
      ItemsFromChildrenStep(n, i);
      var head := ItemFromNode(n.children[i]);
      var tail := ItemsFromChildren(n, i + 1);
      if head.Err? {
        FirstFailHere(n, i);
      } else if tail.Err? {
        var k :| ChildFailsFirst(n, i + 1, k, tail.failure);
        FirstFailLater(n, i, k, tail.failure);
      }
    }
  }

  lemma {:induction false} FirstFailHere(n: RsxNode, i: nat)
    requires i < |n.children| && ItemFromNode(n.children[i]).Err?
    ensures ChildFailsFirst(n, i, i, ItemFromNode(n.children[i]).failure)
  {
  }

  lemma {:induction false} FirstFailLater(n: RsxNode, i: nat, k: int, f: Failure)
    requires i < |n.children| && ItemFromNode(n.children[i]).Ok?
    requires ChildFailsFirst(n, i + 1, k, f)
    ensures ChildFailsFirst(n, i, k, f)
  {
  }

  /** A tag converts exactly when its node is an element with a name,
      the name validates, and every attribute and child converts; it
      then holds the validated name, the attributes and the child items,
      each in source order. */
  lemma {:induction false} TagFromNodeFacts(n: RsxNode)
    ensures var r := TagFromNode(n);
      && (r.Ok? <==>
            && n.nodeType == Element && n.name.Some? && ValidateTagName(n.name.value).Ok?
            && (forall k :: 0 <= k < |n.attributes| ==> AttrFromNode(n.attributes[k]).Ok?)
            && (forall k :: 0 <= k < |n.children| ==> ItemFromNode(n.children[k]).Ok?))
      && (r.Ok? ==>
            && r.value.path == ValidateTagName(n.name.value).value
            && |r.value.attributes| == |n.attributes|
            && (forall k :: 0 <= k < |n.attributes| ==> r.value.attributes[k] == AttrFromNode(n.attributes[k]).value)
            && |r.value.children| == |n.children|
            && (forall k :: 0 <= k < |n.children| ==> r.value.children[k] == ItemFromNode(n.children[k]).value))
  {
    ItemsFromChildrenFacts(n, 0);
  }

  // --------------------------------------------------------- emission

  /** A path as tokens: an optional leading `::`, then the segments, each
      an identifier followed by its generic arguments, separated by `::`. */
  function PathTokens(p: ExprPath): seq<Tok> {
    (if p.leadingColon then [Sym("::")] else []) + SegmentsTokens(p.segments)
  }

  function SegmentsTokens(ss: seq<Segment>): seq<Tok>
    decreases |ss|
  {
    if |ss| == 0 then []
    else if |ss| == 1 then [Ident(ss[0].ident)] + ss[0].arguments
    else [Ident(ss[0].ident)] + ss[0].arguments + [Sym("::")] + SegmentsTokens(ss[1..])
  }

  /** A call `.name(args)` on the builder. */
  function MethodCall(name: string, args: seq<Tok>): seq<Tok> {
    [Sym("."), Ident(name), Open('(')] + args + [Close(')')]
  }

  /** `UiAttr::to_tokens`: `.name(value)`, or `.name(name)` when the
      attribute has no value. */
  function AttrTokens(a: UiAttr): (ts: seq<Tok>)
    ensures |ts| >= 4
    ensures ts[..3] == [Sym("."), Ident(a.name), Open('(')] && ts[|ts| - 1] == Close(')')
    ensures ts[3..|ts| - 1] == (if a.value.Some? then a.value.value else [Ident(a.name)])
  {
    MethodCall(a.name, if a.value.Some? then a.value.value else [Ident(a.name)])
  }

  /** A valueless attribute is shorthand for the attribute whose value is
      the variable of the same name. */
  lemma {:induction false} AttrShorthand(name: string)
    ensures AttrTokens(UiAttr(name, None)) == AttrTokens(UiAttr(name, Some([Ident(name)])))
  {
  }

  function AttrsTokens(attrs: seq<UiAttr>): seq<Tok>
    decreases |attrs|
  {
    if |attrs| == 0 then [] else AttrTokens(attrs[0]) + AttrsTokens(attrs[1..])
  }

  /** `#[allow(unused_braces)]`, put before every embedded expression. */
  const AllowUnusedBraces: seq<Tok> :=
    [Sym("#"), Open('['), Ident("allow"), Open('('), Ident("unused_braces"), Close(')'), Close(']')]

  /** `UiItem::to_tokens`: a tag becomes the call `name()` followed by its
      attributes, then one `.child(..)` per child that is not dropped; an
      expression is emitted as it was written; a dropped node emits
      nothing. */
  function ItemTokens(it: UiItem): seq<Tok>
    decreases it, 1
  {
    match it
    case Tag(path, attrs, _) =>
      PathTokens(path) + [Open('('), Close(')')] + AttrsTokens(attrs) + ChildrenTokens(it, 0)
    case ExprItem(e) => AllowUnusedBraces + e
    case NoItem => []
  }

  function ChildrenTokens(it: UiItem, i: nat): seq<Tok>
    requires it.Tag? && i <= |it.children|
    decreases it, 0, |it.children| - i
  {
    if i == |it.children| then []
    else
      (if it.children[i].NoItem? then [] else MethodCall("child", ItemTokens(it.children[i])))
      + ChildrenTokens(it, i + 1)
  }

  // ------------------------------------------- the reference emission

  /** The children that emit something, in order. */
  function Kept(cs: seq<UiItem>): (ks: seq<UiItem>)
    ensures |ks| <= |cs|
    ensures forall k :: 0 <= k < |ks| ==> !ks[k].NoItem?
    ensures forall k :: 0 <= k < |ks| ==> ks[k] in cs
    ensures forall x :: x in cs && !x.NoItem? ==> x in ks
    decreases |cs|
  {
    if |cs| == 0 then []
    else if cs[0].NoItem? then Kept(cs[1..])
    else [cs[0]] + Kept(cs[1..])
  }

  lemma {:induction false} KeptKeepsAll(cs: seq<UiItem>)
    requires forall k :: 0 <= k < |cs| ==> !cs[k].NoItem?
    ensures Kept(cs) == cs
    decreases |cs|
  {
    if |cs| > 0 {
      KeptKeepsAll(cs[1..]);
    }
  }

  /** The reference for a tag's children: one `.child(..)` call per kept
      child, in order. */
  function ChildCalls(cs: seq<UiItem>): seq<Tok> {
    CallsOf(Kept(cs))
  }

  function CallsOf(ks: seq<UiItem>): seq<Tok>
    decreases |ks|
  {
    if |ks| == 0 then [] else MethodCall("child", ItemTokens(ks[0])) + CallsOf(ks[1..])
  }

  /** The emission loop over a tag's children agrees with the reference:
      dropped children emit nothing, and every other child one `.child`
      call, in source order. */
  lemma {:induction false} ChildrenTokensAreChildCalls(it: UiItem, i: nat)
    requires it.Tag? && i <= |it.children|
    ensures ChildrenTokens(it, i) == ChildCalls(it.children[i..])
    decreases |it.children| - i
  {
    var cs := it.children[i..];
    if i < |it.children| {
      ChildrenTokensAreChildCalls(it, i + 1);
      assert cs[1..] == it.children[i + 1..];
      if !cs[0].NoItem? {
        var ks := Kept(cs);
        assert ks == [cs[0]] + Kept(cs[1..]);
        assert ks[1..] == Kept(cs[1..]);
      }
    } else {
      assert cs == [];
    }
  }

  /** Hence dropping the children that emit nothing does not change a
      tag's tokens: comments and doctypes leave no trace. */
  lemma {:induction false} DroppedChildrenLeaveNoTrace(path: ExprPath, attrs: seq<UiAttr>, cs: seq<UiItem>)
    ensures ItemTokens(Tag(path, attrs, cs)) == ItemTokens(Tag(path, attrs, Kept(cs)))
  {
    var a, b := Tag(path, attrs, cs), Tag(path, attrs, Kept(cs));
    ChildrenTokensAreChildCalls(a, 0);
    ChildrenTokensAreChildCalls(b, 0);
    assert a.children[0..] == cs;
    assert b.children[0..] == Kept(cs);
    KeptKeepsAll(Kept(cs));
  }

  // ------------------------------------------------------- the macro

  /** `parse_ui_view`: the first parsed node, lowered and wrapped as the
      block `{ item .build() }`. An empty input panics on `remove(0)`. */
  function ParseUiView(nodes: seq<RsxNode>): (r: Result<seq<Tok>>)
    ensures r.Err? <==> |nodes| == 0 || ItemFromNode(nodes[0]).Err?
    ensures |nodes| == 0 ==> r.Err? && r.failure.Panic?
    ensures r.Ok? ==>
      var body := ItemTokens(ItemFromNode(nodes[0]).value);
      && |r.value| == |body| + 6
      && r.value[0] == Open('{') && r.value[1..|body| + 1] == body
      && r.value[|body| + 1..] == MethodCall("build", []) + [Close('}')]
  {
    if |nodes| == 0 then Err(Panic("removal index (is 0) should be < len (is 0)"))
    else
      match ItemFromNode(nodes[0])
      case Err(f) => Err(f)
      case Ok(item) =>
        Braced(ItemTokens(item), MethodCall("build", []));
        Ok([Open('{')] + ItemTokens(item) + MethodCall("build", []) + [Close('}')])
  }

  /** A body and a tail inside braces: the brace, the body, the tail, the
      closing brace. */
  lemma {:induction false} Braced(body: seq<Tok>, tail: seq<Tok>)
    ensures var w := [Open('{')] + body + tail + [Close('}')];
      && |w| == |body| + |tail| + 2
      && w[0] == Open('{') && w[1..|body| + 1] == body
      && w[|body| + 1..] == tail + [Close('}')]
  {
    var w := [Open('{')] + body + tail + [Close('}')];
    assert w == [Open('{')] + (body + (tail + [Close('}')]));
  }

  /** Only the first top-level node counts: whatever follows it is
      ignored. */
  lemma {:induction false} ParseUsesFirstNode(n: RsxNode, rest: seq<RsxNode>)
    ensures ParseUiView([n] + rest) == ParseUiView([n])
  {
    assert ([n] + rest)[0] == n;
  }
}
