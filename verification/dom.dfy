/** Style values and the `DomElement` of `xinghuo-core` (its `lib.rs`).

    The layout driver also calls members that the `DomElement` in
    `xinghuo-core/src/lib.rs` does not declare: `border`/`set_border`, the available box (`ava_box`,
    `area`, `set_ava_box`, `set_area`), `node_id`, `layout()`,
    `set_style`, `edge_width`, `left_top` and `box_height`. They are
    fields and functions here. The edge and box totals follow the box
    model sum written in the `Style` comment (section 8.1 of CSS 2.1). */
module Dom {
  import opened Wrappers
  import opened Strings
  import opened Geom
  import Numbers
  import Colors

  // ---------------------------------------------------------------- Size

  /** `Size(f32)`: a length already reduced to a number; a percentage is
      stored as its fraction. */
  datatype Size = Size(n: real)

  /** The number `str::parse::<f32>()` yields, or 0.0 when it fails
      (`unwrap_or(0.0)`). */
  function NumberOr0(s: string): real {
    Numbers.ParseF32(s).GetOr(0.0)
  }

  /** `From<&str> for Size`: a trailing `%` divides the number before it
      by 100; any other string is read as a plain number; text that is
      not a number gives 0. */
  function SizeFromStr(s: string): (r: Size)
    ensures EndsWith(s, '%') ==> r.n * 100.0 == NumberOr0(s[..|s| - 1])
    ensures !EndsWith(s, '%') ==> r.n == NumberOr0(s)
  {
    if EndsWith(s, '%') then Size(NumberOr0(s[..|s| - 1]) / 100.0)
    else Size(NumberOr0(s))
  }

  /** A whole number of percent is that number divided by 100, and the
      same number without `%` is read as itself. */
  lemma {:induction false} SizeOfWholeNumbers(n: nat)
    ensures SizeFromStr(Numbers.DecimalString(n) + "%") == Size(n as real / 100.0)
    ensures SizeFromStr(Numbers.DecimalString(n)) == Size(n as real)
  {
    var d := Numbers.DecimalString(n);
    Numbers.ParseDecimalString(n);
    assert (d + "%")[..|d + "%"| - 1] == d;
    assert !EndsWith(d, '%') by {
      assert '0' <= d[|d| - 1] <= '9';
    }
  }

  /** A decimal fraction `w.f` reads as itself. */
  lemma {:induction false} FractionSize(a: string, b: string)
    requires Numbers.AllDigits(a, 10) && Numbers.AllDigits(b, 10) && |a| > 0
    ensures SizeFromStr(a + "." + b) == Size(Numbers.PointedValue(a, b))
  {
    Numbers.ParsePointed(a, b);
    SizeOfPointed(a, b, Numbers.PointedValue(a, b));
  }

  /** Digits after a point that parse as a number are that size. */
  lemma {:induction false} SizeOfPointed(a: string, b: string, v: real)
    requires Numbers.AllDigits(b, 10) && Numbers.ParseF32(a + "." + b) == Some(v)
    ensures SizeFromStr(a + "." + b) == Size(v)
  {
    PointedIsNotPercent(a, b);
    SizeOfNumber(a + "." + b, v);
  }

  /** Digits after a point never end in `%`. */
  lemma {:induction false} PointedIsNotPercent(a: string, b: string)
    requires Numbers.AllDigits(b, 10)
    ensures !EndsWith(a + "." + b, '%')
  {
    var s := a + "." + b;
    if |b| > 0 {
      assert s[|s| - 1] == b[|b| - 1];
      Numbers.DecimalDigitRange(b[|b| - 1]);
    } else {
      assert s[|s| - 1] == '.';
    }
  }

  /** Text without `%` that parses as a number is that size. */
  lemma {:induction false} SizeOfNumber(s: string, v: real)
    requires !EndsWith(s, '%') && Numbers.ParseF32(s) == Some(v)
    ensures SizeFromStr(s) == Size(v)
  {
  }

  /** After parsing a percentage cannot be told from the fraction it
      stands for: `"50%"` and `"0.5"` give the same `Size`, and so does
      every `"d0%"` and `"0.d"`. */
  lemma {:induction false} PercentIsFraction(d: nat)
    requires d < 10
    ensures SizeFromStr(Numbers.DecimalString(10 * d) + "%")
         == SizeFromStr("0." + [Numbers.HexDigits[d]])
  {
    TensPercent(d);
    Tenths(d);
  }

  lemma {:induction false} TensPercent(d: nat)
    requires d < 10
    ensures SizeFromStr(Numbers.DecimalString(10 * d) + "%") == Size(d as real / 10.0)
  {
    var n := 10 * d;
    SizeOfWholeNumbers(n);
    assert n as real / 100.0 == d as real / 10.0;
  }

  /** `"0.d"` reads as d tenths. */
  lemma {:induction false} Tenths(d: nat)
    requires d < 10
    ensures SizeFromStr("0." + [Numbers.HexDigits[d]]) == Size(d as real / 10.0)
  {
    var a, b := "0", [Numbers.HexDigits[d]];
    assert "0." + b == a + "." + b;
    Numbers.SingleDigit(0);
    Numbers.SingleDigit(d);
    FractionSize(a, b);
    var p := Numbers.Pow10(|b|);
    assert p == 10.0 by {
      assert Numbers.Pow10(1) == 10.0 * Numbers.Pow10(0);
    }
    assert SizeFromStr(a + "." + b) == Size(0 as real + d as real / p);
  }

  /** Text that is not a number reads as zero, with or without `%`. */
  lemma {:induction false} UnparsableSizeIsZero(s: string)
    requires Numbers.ParseF32(s).None?
    requires !EndsWith(s, '%')
    ensures SizeFromStr(s) == Size(0.0)
    ensures SizeFromStr(s + "%") == Size(0.0)
  {
    assert (s + "%")[..|s + "%"| - 1] == s;
  }

  // ---------------------------------------------------------- Quaternion

  type Four = s: seq<real> | |s| == 4 witness [0.0, 0.0, 0.0, 0.0]

  /** `Quaternion([f32; 4])`: top, right, bottom, left. */
  datatype Quaternion = Quaternion(sides: Four)

  const Top := 0
  const Right := 1
  const Bottom := 2
  const Left := 3

  const ZeroQuaternion := Quaternion([0.0, 0.0, 0.0, 0.0])

  /** `From<f32> for Quaternion`: the same number on all four sides. */
  function QuaternionFromNumber(n: real): (q: Quaternion)
    ensures forall k :: 0 <= k < 4 ==> q.sides[k] == n
  {
    Quaternion([n, n, n, n])
  }

  /** The numbers of a whitespace-separated list, 0.0 for each word that
      does not parse. */
  function Numbers0(words: seq<string>): (vs: seq<real>)
    ensures |vs| == |words|
    ensures forall k :: 0 <= k < |words| ==> vs[k] == NumberOr0(words[k])
  {
    if |words| == 0 then [] else [NumberOr0(words[0])] + Numbers0(words[1..])
  }

  /** `From<&str> for Quaternion` as written. One number: all sides;
      two: top/bottom then right/left; three: `[a, b, b, c]`; four or
      more: the first four in order. No number at all indexes an empty
      vector and panics. */
  function QuaternionFromStr(s: string): (r: Result<Quaternion>)
    ensures r.Err? <==> |SplitWhitespace(s)| == 0
  {
    var vs := Numbers0(SplitWhitespace(s));
    if |vs| == 1 then Ok(Quaternion([vs[0], vs[0], vs[0], vs[0]]))
    else if |vs| == 2 then Ok(Quaternion([vs[0], vs[1], vs[0], vs[1]]))
    else if |vs| == 3 then Ok(Quaternion([vs[0], vs[1], vs[1], vs[2]]))
    else if |vs| == 0 then Err(Panic("index out of bounds: the len is 0 but the index is 0"))
    else Ok(Quaternion([vs[0], vs[1], vs[2], vs[3]]))
  }

  /** The margin shorthand of section 8.3 of CSS 2.1 for one to four
      values: one sets all sides, two set top/bottom and right/left, three
      set top, right/left and bottom, four set top, right, bottom, left. */
  function CssShorthand(vs: seq<real>): (q: Quaternion)
    requires 1 <= |vs| <= 4
    ensures q.sides[Right] == (if |vs| == 4 then vs[1] else q.sides[Left])
  {
    if |vs| == 1 then Quaternion([vs[0], vs[0], vs[0], vs[0]])
    else if |vs| == 2 then Quaternion([vs[0], vs[1], vs[0], vs[1]])
    else if |vs| == 3 then Quaternion([vs[0], vs[1], vs[2], vs[1]])
    else Quaternion([vs[0], vs[1], vs[2], vs[3]])
  }

  /** As written, the parser follows CSS for one, two and four numbers,
      but with three numbers it puts the second number at the bottom and
      the third on the left, so it parts from CSS whenever the second and
      third numbers differ. */
  lemma {:induction false} QuaternionFromStrVersusCss(s: string)
    requires 1 <= |SplitWhitespace(s)|
    ensures var vs := Numbers0(SplitWhitespace(s));
            (|vs| != 3 ==> QuaternionFromStr(s) == Ok(CssShorthand(vs[..Min4(|vs|)])))
            && (|vs| == 3 ==> (QuaternionFromStr(s) == Ok(CssShorthand(vs)) <==> vs[1] == vs[2]))
  {
    var vs := Numbers0(SplitWhitespace(s));
    if |vs| > 4 {
      assert vs[..4][3] == vs[3];
    } else {
      assert vs[..|vs|] == vs;
    }
    if |vs| == 3 && QuaternionFromStr(s) == Ok(CssShorthand(vs)) {
      assert QuaternionFromStr(s).value.sides[Bottom] == vs[1];
      assert CssShorthand(vs).sides[Bottom] == vs[2];
    }
  }

  function Min4(n: nat): nat {
    if n < 4 then n else 4
  }

  /** `"1 2 3"` comes out as top 1, right 2, bottom 2, left 3, where CSS
      (and the comment beside the branch, which reads top, left/right,
      bottom) has bottom 3, left 2. */
  lemma {:induction false} ThreeTokenExample()
    ensures QuaternionFromStr("1 2 3") == Ok(Quaternion([1.0, 2.0, 2.0, 3.0]))
  {
    ThreeTokenWords();
    ThreeTokenNumbers();
  }

  lemma {:induction false} ThreeTokenWords()
    ensures SplitWhitespace("1 2 3") == ["1", "2", "3"]
  {
    assert "1 2 3" == Join(["1", "2", "3"], ' ');
    SplitWhitespaceJoin(["1", "2", "3"]);
  }

  lemma {:induction false} ThreeTokenNumbers()
    ensures Numbers0(["1", "2", "3"]) == [1.0, 2.0, 3.0]
  {
    OneDigitNumber('1');
    OneDigitNumber('2');
    OneDigitNumber('3');
  }

  /** A single decimal digit reads as its own value. */
  lemma {:induction false} OneDigitNumber(c: char)
    requires '0' <= c <= '9'
    ensures NumberOr0([c]) == (c as int - '0' as int) as real
  {
    assert Numbers.AllDigits([c], 10);
    assert [c][..0] == [];
  }

  /** `split_whitespace` splits at every Unicode space, so two numbers
      separated by a no-break space (U+00A0) are two numbers: top/bottom
      1 and right/left 2. */
  lemma {:induction false} NoBreakSpaceSeparates()
    ensures QuaternionFromStr("1\U{00A0}2") == Ok(Quaternion([1.0, 2.0, 1.0, 2.0]))
  {
    NoBreakSpaceWords();
    TwoTokenNumbers();
  }

  lemma {:induction false} NoBreakSpaceWords()
    ensures SplitWhitespace("1\U{00A0}2") == ["1", "2"]
  {
    assert "1\U{00A0}2" == "1" + "\U{00A0}2";
    SplitWhitespaceWord("1", "\U{00A0}2");
    assert "\U{00A0}2"[1..] == "2" + "";
    SplitWhitespaceWord("2", "");
  }

  lemma {:induction false} TwoTokenNumbers()
    ensures Numbers0(["1", "2"]) == [1.0, 2.0]
  {
    OneDigitNumber('1');
    OneDigitNumber('2');
  }

  /** `From<&str> for Quaternion` with the three-number case in the CSS
      order its comment describes; every other case is unchanged. */
  function QuaternionFromStrCss(s: string): (r: Result<Quaternion>)
    ensures r.Err? <==> |SplitWhitespace(s)| == 0
    ensures 1 <= |SplitWhitespace(s)| ==>
      r == Ok(CssShorthand(Numbers0(SplitWhitespace(s))[..Min4(|SplitWhitespace(s)|)]))
    ensures |SplitWhitespace(s)| == 3 ==> r.value.sides[Left] == r.value.sides[Right]
  {
    var vs := Numbers0(SplitWhitespace(s));
    assert |vs| <= 4 ==> vs[..|vs|] == vs;
    if |vs| == 1 then Ok(Quaternion([vs[0], vs[0], vs[0], vs[0]]))
    else if |vs| == 2 then Ok(Quaternion([vs[0], vs[1], vs[0], vs[1]]))
    else if |vs| == 3 then Ok(Quaternion([vs[0], vs[1], vs[2], vs[1]]))
    else if |vs| == 0 then Err(Panic("index out of bounds: the len is 0 but the index is 0"))
    else Ok(Quaternion([vs[0], vs[1], vs[2], vs[3]]))
  }

  // -------------------------------------------------------------- Layout

  /** How an element lays out its children. */
  datatype Layout = Inline | InlineBlock | Block | RowFlex | ColFlex

  // --------------------------------------------------------------- Style

  /** `Style`, with the `border` the layout driver reads. */
  datatype Style = Style(
    width: Size,
    height: Size,
    padding: Quaternion,
    margin: Quaternion,
    border: Quaternion,
    borderRadius: Quaternion,
    borderColor: Colors.Color,
    backgroundColor: Colors.Color)

  /** `Style::default()`: zero sizes and edges, white colours. */
  const DefaultStyle := Style(Size(0.0), Size(0.0), ZeroQuaternion, ZeroQuaternion,
                              ZeroQuaternion, ZeroQuaternion, Colors.Default, Colors.Default)

  // ---------------------------------------------------------- DomElement

  datatype DomElement = DomElement(
    tag: string,
    id: Option<string>,
    className: Option<string>,
    layout: Option<Layout>,
    style: Style,
    dirty: bool,
    area: Box2,
    nodeId: nat)

  /** The fields a setter may write. */
  datatype Field =
    | LayoutField | WidthField | HeightField | PaddingField | MarginField
    | BorderField | BorderRadiusField | BorderColorField | BackgroundColorField | AreaField

  datatype FieldValue =
    | LayoutValue(layout: Option<Layout>)
    | SizeValue(size: Size)
    | EdgesValue(edges: Quaternion)
    | ColorValue(color: Colors.Color)
    | BoxValue(box: Box2)

  /** The getter of each field. */
  function Get(d: DomElement, f: Field): FieldValue {
    match f
    case LayoutField => LayoutValue(d.layout)
    case WidthField => SizeValue(d.style.width)
    case HeightField => SizeValue(d.style.height)
    case PaddingField => EdgesValue(d.style.padding)
    case MarginField => EdgesValue(d.style.margin)
    case BorderField => EdgesValue(d.style.border)
    case BorderRadiusField => EdgesValue(d.style.borderRadius)
    case BorderColorField => ColorValue(d.style.borderColor)
    case BackgroundColorField => ColorValue(d.style.backgroundColor)
    case AreaField => BoxValue(d.area)
  }

  /** `r` agrees with `d` on identity and on every field but `f`. */
  predicate OnlyChanged(d: DomElement, r: DomElement, f: Field) {
    && r.tag == d.tag && r.id == d.id && r.className == d.className && r.nodeId == d.nodeId
    && forall g: Field :: g != f ==> Get(r, g) == Get(d, g)
  }

  /** `r` agrees with `d` everywhere except possibly the dirty flag. */
  predicate SameButDirty(d: DomElement, r: DomElement) {
    r == d.(dirty := r.dirty)
  }

  /** `DomElement::new`: no id or class, no layout (so `Block`), the
      default style, and dirty. */
  function NewDom(tag: string): (d: DomElement)
    ensures d.tag == tag && d.dirty
    ensures d.layout.None? && d.style == DefaultStyle
    ensures d.id.None? && d.className.None?
  {
    DomElement(tag, None, None, None, DefaultStyle, true, Box2(Zero, Zero), 0)
  }

  /** `layout()`: the layout set on the element, `Block` when none is,
      since the demo sets `Inline` explicitly on its inline elements. */
  function LayoutOf(d: DomElement): Layout {
    d.layout.GetOr(Block)
  }

  function SetLayout(d: DomElement, l: Layout): (r: DomElement)
    ensures Get(r, LayoutField) == LayoutValue(Some(l)) && LayoutOf(r) == l
    ensures OnlyChanged(d, r, LayoutField) && r.dirty
  {
    d.(layout := Some(l), dirty := true)
  }

  function SetWidth(d: DomElement, w: Size): (r: DomElement)
    ensures Get(r, WidthField) == SizeValue(w)
    ensures OnlyChanged(d, r, WidthField) && r.dirty
  {
    d.(style := d.style.(width := w), dirty := true)
  }

  function SetHeight(d: DomElement, h: Size): (r: DomElement)
    ensures Get(r, HeightField) == SizeValue(h)
    ensures OnlyChanged(d, r, HeightField) && r.dirty
  {
    d.(style := d.style.(height := h), dirty := true)
  }

  function SetPadding(d: DomElement, q: Quaternion): (r: DomElement)
    ensures Get(r, PaddingField) == EdgesValue(q)
    ensures OnlyChanged(d, r, PaddingField) && r.dirty
  {
    d.(style := d.style.(padding := q), dirty := true)
  }

  function SetMargin(d: DomElement, q: Quaternion): (r: DomElement)
    ensures Get(r, MarginField) == EdgesValue(q)
    ensures OnlyChanged(d, r, MarginField) && r.dirty
  {
    d.(style := d.style.(margin := q), dirty := true)
  }

  function SetBorder(d: DomElement, q: Quaternion): (r: DomElement)
    ensures Get(r, BorderField) == EdgesValue(q)
    ensures OnlyChanged(d, r, BorderField) && r.dirty
  {
    d.(style := d.style.(border := q), dirty := true)
  }

  function SetBorderRadius(d: DomElement, q: Quaternion): (r: DomElement)
    ensures Get(r, BorderRadiusField) == EdgesValue(q)
    ensures OnlyChanged(d, r, BorderRadiusField) && r.dirty
  {
    d.(style := d.style.(borderRadius := q), dirty := true)
  }

  function SetBorderColor(d: DomElement, c: Colors.Color): (r: DomElement)
    ensures Get(r, BorderColorField) == ColorValue(c)
    ensures OnlyChanged(d, r, BorderColorField) && r.dirty
  {
    d.(style := d.style.(borderColor := c), dirty := true)
  }

  function SetBackgroundColor(d: DomElement, c: Colors.Color): (r: DomElement)
    ensures Get(r, BackgroundColorField) == ColorValue(c)
    ensures OnlyChanged(d, r, BackgroundColorField) && r.dirty
  {
    d.(style := d.style.(backgroundColor := c), dirty := true)
  }

  /** `set_area` / `set_ava_box`: the available box. */
  function SetArea(d: DomElement, b: Box2): (r: DomElement)
    ensures Get(r, AreaField) == BoxValue(b)
    ensures OnlyChanged(d, r, AreaField) && r.dirty
  {
    d.(area := b, dirty := true)
  }

  /** `set_style`: replaces the whole style; layout and area stay. */
  function SetStyle(d: DomElement, s: Style): (r: DomElement)
    ensures r.style == s && r.dirty
    ensures r.layout == d.layout && r.area == d.area
    ensures r.tag == d.tag && r.id == d.id && r.className == d.className && r.nodeId == d.nodeId
  {
    d.(style := s, dirty := true)
  }

  /** `set_dirty`: only the flag changes. */
  function SetDirty(d: DomElement, dirty: bool): (r: DomElement)
    ensures r.dirty == dirty
    ensures SameButDirty(d, r)
    ensures forall g: Field :: Get(r, g) == Get(d, g)
  {
    d.(dirty := dirty)
  }

  /** Horizontal edges: margin, border and padding on the left and right. */
  function EdgeWidth(d: DomElement): real {
    var s := d.style;
    s.margin.sides[Left] + s.border.sides[Left] + s.padding.sides[Left]
    + s.padding.sides[Right] + s.border.sides[Right] + s.margin.sides[Right]
  }

  /** Vertical edges: margin, border and padding at the top and bottom. */
  function EdgeHeight(d: DomElement): real {
    var s := d.style;
    s.margin.sides[Top] + s.border.sides[Top] + s.padding.sides[Top]
    + s.padding.sides[Bottom] + s.border.sides[Bottom] + s.margin.sides[Bottom]
  }

  /** The total height of the element's box: its height plus the
      vertical edges. */
  function BoxHeight(d: DomElement): real {
    d.style.height.n + EdgeHeight(d)
  }

  /** Offset of the available box from the element's outer corner: the
      left and top margins. */
  function LeftTop(d: DomElement): Vec2 {
    Vec2(d.style.margin.sides[Left], d.style.margin.sides[Top])
  }
}
