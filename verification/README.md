# xinghuo-ui core, modelled in Dafny

This project models the retained-mode UI core of xinghuo-ui. It covers the
following pieces:

- **Style values.** `Size` and `Quaternion` parsing, and the `Value`
  shorthand in both crates that declare it.
- **`DomElement`.** Its setters and their dirty flag.
- **The declarative `Element` builder.** `Element::build` turns it into a
  render tree plus two sparse overlay trees, one for event listeners and
  one for data payloads.
- **The default render hooks.** `layout` and `paint`.
- **The block layout driver of the example application.** It forces the
  root to the window size. Then it walks the tree in pre-order, stacks
  the children of every block element, and lays out and paints every
  other node. Its helpers are `Map`, `Cx` and `merge_option_node`.
- **Supporting state.** Event listeners, the id counter, the
  type-and-id keyed memory map and the attribute DOM node.
- **Geometry and colour primitives.** `Box2`, `Rect`, `Quad` and `Color`.
- **The `ui_view!` macro front end.** It classifies nodes, mangles
  names, and lowers markup to builder calls.

Modelling conventions:

- `f32` is `real`. NaN and rounding to the nearest `f32` are not
  modelled.
- Strings are `seq<char>`.
- A Rust panic (`unwrap` on `None`, `todo!()`, an out-of-bounds index)
  and a `syn::Error` are the two `Failure`s of a `Result`.
- Reference-counted tree handles are paths from the render root.
- The painter is a trace of `rect` calls.

The modules, in dependency order:

| module | file | models |
|---|---|---|
| `Wrappers` | wrappers.dfy | `Option`, `Result`, panics and compile errors |
| `Strings` | strings.dfy | `split`, `split_whitespace`, joining, whitespace removal |
| `Numbers` | numbers.dfy | `str::parse::<f32>` over exact numbers, `u8::from_str_radix` |
| `Geom` | geom.dfy | `Box2`, `Rect` |
| `Colors` | color.dfy | `Color` |
| `Quads` | quad.dfy | `Quad::new` |
| `Values` | value.dfy | `Value` (core and ui crates) |
| `Dom` | dom.dfy | `Size`, `Quaternion`, `Style`, `DomElement` |
| `Events` | event.dfy | `EventListener`, `GlobalEventHandler`, event names |
| `Ids` | id.dfy | `Counter`, `Id::next` |
| `Memory` | memory.dfy | `IdTypeMap` |
| `Nodes` | node.dfy | `CachedNode` |
| `Trees` | tree.dfy | ordered trees, pre-order, `merge_option_node` |
| `Elements` | element.dfy | `Element` builder, `build`, default hooks, `RenderTree::child` |
| `Layouts` | driver.dfy | root initialisation and the block layout walk |
| `DriverState` | driver_state.dfy | `Map` and `Cx` of the example driver |
| `UiDom` | ui_dom.dfy | the `xinghuo-ui` `DomElement` |
| `UiView` | ui_view.dfy | the `ui_view!` front end |

## Model

| member | source | states |
|---|---|---|
| Strings.SplitWhitespace | crates/xinghuo-core/src/lib.rs:292-295 | `split_whitespace` gives non-empty words free of whitespace, whitespace being every Unicode `White_Space` code point; a string that starts with a non-space starts its first word with that character |
| Strings.SplitWhitespaceKeepsCharacters | crates/xinghuo-core/src/lib.rs:292-295 | the words together hold exactly the non-whitespace characters of the input, in order |
| Strings.SplitWhitespaceJoin | crates/xinghuo-core/src/lib.rs:292-295 | words joined by single spaces split back into the same words |
| Strings.RemoveWhitespace | crates/xinghuo-geom/src/color.rs:59 | the filtered string holds no whitespace and is no longer than the input |
| Strings.RemoveWhitespaceOfChar | crates/xinghuo-geom/src/color.rs:59 | a single character is dropped iff it is whitespace and kept otherwise; with `RemoveWhitespaceAppend` this pins the filter on every string |
| Strings.RemoveWhitespaceAppend | crates/xinghuo-geom/src/color.rs:59 | filtering out whitespace commutes with concatenation |
| Numbers.ParseF32 | crates/xinghuo-core/src/lib.rs:270-273 | every accepted string holds a digit, and a plain digit string is read as the integer it writes |
| Numbers.ParsePointed | crates/xinghuo-core/src/lib.rs:270-273 | digits, a point and digits are read as the whole part plus the fraction digits scaled down by their count |
| Numbers.ParseNegated | crates/xinghuo-core/src/lib.rs:270-273 | a leading minus sign negates the value read and changes nothing else |
| Numbers.ParseByte | crates/xinghuo-geom/src/color.rs:53-56 | an accepted value fits in a byte; the empty string and a lone `+` are rejected |
| Numbers.ParseHexByte | crates/xinghuo-geom/src/color.rs:53-56 | every byte printed as two hex digits parses back to itself in base 16 |
| Numbers.ParseDecimalByte | crates/xinghuo-geom/src/color.rs:66-69 | every byte printed in decimal parses back to itself in base 10 |
| Numbers.DecimalByteInHex | crates/xinghuo-geom/src/color.rs:66-69 | a byte printed in decimal and read in base 16 is the same byte iff it is below 10; 255 is rejected |
| Numbers.DecimalStringInHex | crates/xinghuo-geom/src/color.rs:66-69 | decimal digits read in base 16 write the same number when there is one digit and a larger one when there are more |
| Numbers.ParseDecimalString | crates/xinghuo-core/src/lib.rs:270-273 | every natural number printed in decimal is read back as itself |
| Dom.SizeFromStr | crates/xinghuo-core/src/lib.rs:269-278 | a string ending in `%` gives its prefix's number divided by 100; any other string gives its own number; an unparsable number counts as 0 |
| Dom.SizeOfWholeNumbers | crates/xinghuo-core/src/lib.rs:269-278 | `"n%"` is n/100 and `"n"` is n, for every natural n |
| Dom.FractionSize | crates/xinghuo-core/src/lib.rs:269-278 | digits, a point and digits read as the whole part plus the fraction digits scaled down by their count |
| Dom.PercentIsFraction | crates/xinghuo-core/src/lib.rs:269-278 | percent and absolute sizes are indistinguishable once parsed: for a digit d, `"d0%"` (the decimal form of 10·d, then `%`) and `"0.d"` give the same `Size` |
| Dom.TensPercent | crates/xinghuo-core/src/lib.rs:269-278 | for a digit d, `"d0%"` (the decimal form of 10·d, then `%`) is d/10 |
| Dom.Tenths | crates/xinghuo-core/src/lib.rs:269-278 | `"0.d"` is d/10 for a digit d |
| Dom.UnparsableSizeIsZero | crates/xinghuo-core/src/lib.rs:269-278 | a string that is no number gives size 0, with or without `%` |
| Dom.QuaternionFromNumber | crates/xinghuo-core/src/lib.rs:327-330 | a single number sets all four sides |
| Dom.Numbers0 | crates/xinghuo-core/src/lib.rs:293-296 | each whitespace-separated word becomes its number, or 0 when it is not one, in order |
| Dom.QuaternionFromStr | crates/xinghuo-core/src/lib.rs:289-325 | the parse panics exactly when the string has no words |
| Dom.NoBreakSpaceSeparates | crates/xinghuo-core/src/lib.rs:292-305 | words are split at every Unicode space: `"1\u{A0}2"`, with a no-break space between the numbers, gives top/bottom 1 and right/left 2 |
| Dom.CssShorthand | crates/xinghuo-core/src/lib.rs:291-321 | the reference shorthand of section 8.3 of CSS 2.1: the right side equals the left side unless four values are given |
| Dom.QuaternionFromStrVersusCss | crates/xinghuo-core/src/lib.rs:297-321 | with 1, 2 or 4+ words the parse equals the CSS shorthand of the first four numbers; with 3 words it equals CSS iff the 2nd and 3rd numbers are equal |
| Dom.ThreeTokenExample | crates/xinghuo-core/src/lib.rs:309-314 | `"1 2 3"` parses to top 1, right 2, bottom 2, left 3 |
| Dom.QuaternionFromStrCss | crates/xinghuo-core/src/lib.rs:289-325 | the corrected parse: equals the CSS shorthand of the first four numbers, so three numbers give equal left and right |
| Dom.NewDom | crates/xinghuo-core/src/lib.rs:118-128 | a new element has the tag, no id, class or layout, the default style, and is dirty |
| Dom.SetLayout | crates/xinghuo-core/src/lib.rs:130-134 | the layout reads back as set, no other field changes, and the element is dirty |
| Dom.SetWidth | crates/xinghuo-core/src/lib.rs:136-140 | the width reads back as set, no other field changes, and the element is dirty |
| Dom.SetHeight | crates/xinghuo-core/src/lib.rs:142-146 | the height reads back as set, no other field changes, and the element is dirty |
| Dom.SetPadding | crates/xinghuo-core/src/lib.rs:148-152 | the padding reads back as set, no other field changes, and the element is dirty |
| Dom.SetMargin | crates/xinghuo-core/src/lib.rs:154-158 | the margin reads back as set, no other field changes, and the element is dirty |
| Dom.SetBorderRadius | crates/xinghuo-core/src/lib.rs:160-164 | the border radius reads back as set, no other field changes, and the element is dirty |
| Dom.SetBorderColor | crates/xinghuo-core/src/lib.rs:166-170 | the border colour reads back as set, no other field changes, and the element is dirty |
| Dom.SetBackgroundColor | crates/xinghuo-core/src/lib.rs:172-176 | the background colour reads back as set, no other field changes, and the element is dirty |
| Dom.SetBorder | examples/test.rs:199 | the border (called by the driver) reads back as set, no other field changes, and the element is dirty |
| Dom.SetArea | examples/test.rs:209 | the area (called by the driver) reads back as set, no other field changes, and the element is dirty |
| Dom.SetStyle | examples/test.rs:164 | the whole style is replaced and the element is dirty; layout, area and identity are kept |
| Dom.SetDirty | crates/xinghuo-core/src/lib.rs:213-221 | only the flag changes: every field reads back as before |
| Values.SidesOf | crates/xinghuo-core/src/lib.rs:237-252 | only a `Quaternion` can give opposite sides different values; it returns its own fields, `Binary` gives top/bottom and left/right, `Single` gives one number everywhere |
| Values.DefaultIsZero | crates/xinghuo-core/src/lib.rs:231-235 | the default value is zero on every side |
| Values.FromTuple4 | crates/xinghuo-core/src/lib.rs:254-258 | a 4-tuple converts to the value whose sides are the tuple |
| Values.FromPair | crates/xinghuo-core/src/lib.rs:260-264 | a pair `(a, b)` gives sides `(a, a, b, b)` |
| Values.FromPairDiffersFromBinary | crates/xinghuo-ui/src/lib.rs:156-160 | the pair conversion agrees with `Binary(a, b)` iff a = b |
| Values.FromPairIntended | crates/xinghuo-ui/src/lib.rs:137-139 | the corrected pair conversion has the sides of `Binary(a, b)`: equal top and bottom, equal left and right |
| UiDom.NewUiDom | crates/xinghuo-ui/src/lib.rs:107-118 | a new ui element has the tag, an empty id, node id 0, zero sizes and colours, zero edges and no event handler |
| UiDom.NewElementsDifferOnlyByTag | crates/xinghuo-ui/src/lib.rs:107-118 | every new element has node id 0, so two new elements are equal iff their tags are |
| Events.NamesAreDistinct | crates/xinghuo-core/src/event.rs:97-141 | each event's `NAME` leads back to its own event type, so no two event types share a name |
| Events.WithSlot | crates/xinghuo-core/src/event.rs:3-12 | writing one slot sets it and leaves the six others alone |
| Events.IsEmpty | crates/xinghuo-core/src/event.rs:14-32 | a listener is empty iff every slot is empty |
| Events.EmptinessOfSlots | crates/xinghuo-core/src/event.rs:3-32 | the default listener has all slots empty and is empty; setting any one slot makes a listener non-empty |
| Events.DefaultHandler | crates/xinghuo-core/src/event.rs:73-95 | a default handler method returns its receiver unchanged |
| Ids.FetchAdd | crates/xinghuo-core/src/id.rs:12-14 | returns the old value and advances the counter by one modulo 2^64; it wraps to 0 exactly from the maximum |
| Ids.NewUnchecked | crates/xinghuo-core/src/id.rs:13 | a non-zero id holding the given value, callable only with a non-zero value |
| Ids.NextNonzeroAsWritten | crates/xinghuo-core/src/id.rs:9-14 | the value handed out is the counter's old value, and the counter advances as `fetch_add` does |
| Ids.FirstIdBreaksNonZero | crates/xinghuo-core/src/id.rs:9-14 | a new counter hands out 0, which the non-zero constructor forbids; so does the counter after wrap-around |
| Ids.NextNonzero | crates/xinghuo-core/src/id.rs:12-14 | with the counter starting at 1: a non-zero id equal to the old value, and the counter advances |
| Ids.IssueIds | crates/xinghuo-core/src/id.rs:20-24 | n successive `Id::next` calls give n ids |
| Ids.IssuedIdsIncrease | crates/xinghuo-core/src/id.rs:20-24 | successive ids are consecutive values from the counter's start and strictly increase, so none repeats before wrap-around |
| Ids.IntendedIdsStartAtOne | crates/xinghuo-core/src/id.rs:9-11 | from the corrected start the i-th id is i + 1 |
| Memory.XorSymmetric | crates/xinghuo-core/src/memory.rs:50-53 | XOR is symmetric |
| Memory.XorTwice | crates/xinghuo-core/src/memory.rs:50-53 | XOR with the same number twice is the identity |
| Memory.XorBound | crates/xinghuo-core/src/memory.rs:50-53 | XOR of two k-bit numbers is a k-bit number, so the key fits in 64 bits |
| Memory.Hash | crates/xinghuo-core/src/memory.rs:50-53 | the slot key is the XOR of the type id and the id |
| Memory.HashProperties | crates/xinghuo-core/src/memory.rs:50-53 | for one type, two ids share a key iff they are equal; key(t, a) = key(a, t) |
| Memory.GetMutOrInsertWith | crates/xinghuo-core/src/memory.rs:76-84 | a slot of the same type is returned unchanged; one of another type is replaced by the fallback; the result is the slot's value |
| Memory.InsertMemory | crates/xinghuo-core/src/memory.rs:94-98 | the slot of (type, id) holds the new value and every other slot is unchanged |
| Memory.GetMemory | crates/xinghuo-core/src/memory.rs:100-107 | None iff the slot is empty or holds another type; otherwise the stored value |
| Memory.GetMemoryMutOr | crates/xinghuo-core/src/memory.rs:109-124 | afterwards the slot reads back as the returned value; a same-type slot is kept, otherwise the fallback is stored |
| Memory.InsertThenGet | crates/xinghuo-core/src/memory.rs:94-107 | a read after an insert gives the inserted value, and other ids of the type read as before |
| Memory.CollidingKeysEvict | crates/xinghuo-core/src/memory.rs:50-53 | (type 1, id 2) and (type 2, id 1) share slot 3, so inserting the second evicts the first |
| Nodes.NewNode | crates/xinghuo-core/src/node.rs:13-31 | a new node is an element with the tag, no attributes and no children |
| Nodes.SetAttribute | crates/xinghuo-core/src/node.rs:37-49 | panics iff the node is text; otherwise the attribute names gain `name`, and tag and children are kept |
| Nodes.RemoveAttribute | crates/xinghuo-core/src/node.rs:51-58 | panics iff the node is text; otherwise the attribute names lose `name`, and tag and children are kept |
| Nodes.GetAttribute | crates/xinghuo-core/src/node.rs:60-73 | Some iff the node is an element holding the name, with the stored value |
| Nodes.AttributeLaws | crates/xinghuo-core/src/node.rs:37-73 | get after set gives the value; get after remove gives None; other names are untouched by both |
| Nodes.TextNodeLaws | crates/xinghuo-core/src/node.rs:37-73 | on a text node get gives None and set and remove panic |
| Nodes.AppendChild | crates/xinghuo-core/src/node.rs:75-77 | the new child becomes the last child, after the old children in order |
| Nodes.FirstChild | crates/xinghuo-core/src/node.rs:79-81 | None iff there are no children, else the first |
| Nodes.AppendAllOrder | crates/xinghuo-core/src/node.rs:75-77 | appending children one by one gives them in order after the old ones |
| Nodes.FirstAppendedIsFirstChild | crates/xinghuo-core/src/node.rs:75-81 | on a new node the first child is the first one appended |
| Colors.FromU32 | crates/xinghuo-geom/src/color.rs:76-87 | the bytes of the colour, big-endian, recombine to the 32-bit number |
| Colors.FromU32ToU32 | crates/xinghuo-geom/src/color.rs:76-87 | packing then splitting returns the colour: r, g, b, a are bytes 0 to 3 |
| Colors.FromStr | crates/xinghuo-geom/src/color.rs:50-74 | any string that is not 9 characters starting with `#` gives the default white |
| Colors.BracketGuardNeverHolds | crates/xinghuo-geom/src/color.rs:60 | no string starts with both `(` and `)`, or with both `[` and `]` |
| Colors.BracketExampleIsWhite | crates/xinghuo-geom/src/color.rs:46-49 | `"[255,0,0,255]"` gives white |
| Colors.FromStrIntended | crates/xinghuo-geom/src/color.rs:46-74 | the corrected parse (guard fixed, bracketed channels read as decimal bytes) agrees with the written one on the `#` form |
| Colors.Hex | crates/xinghuo-geom/src/color.rs:53-56 | a byte as two hex digits |
| Colors.ParseHex | crates/xinghuo-geom/src/color.rs:53-56 | two hex digits parse back to their byte |
| Colors.HexFormChannels | crates/xinghuo-geom/src/color.rs:52-57 | a 9-character `#` string yields its four hex pairs as r, g, b, a |
| Colors.HexFormRoundTrip | crates/xinghuo-geom/src/color.rs:52-57 | every colour written as `#rrggbbaa` parses back to itself |
| Colors.BadHexPairIsOpaque | crates/xinghuo-geom/src/color.rs:53-57 | in any of the four positions, any two characters that are no hex byte yield 0xff for that channel only, and the other channels keep the colour's bytes |
| Colors.BracketedIntended | crates/xinghuo-geom/src/color.rs:59-71 | with the guard corrected, a bracketed list is read channel by channel in decimal |
| Colors.BracketFormIntended | crates/xinghuo-geom/src/color.rs:46-71 | with the corrected parse, every colour written as a bracketed, comma-separated list of decimal bytes parses back to itself |
| Colors.DocFormIntended | crates/xinghuo-geom/src/color.rs:46-71 | with the corrected parse, every colour written as the doc comment shows, `[r, g, b, a]` in decimal with a space after each comma, parses back to itself |
| Colors.DocExampleIntended | crates/xinghuo-geom/src/color.rs:46-48 | the doc comment's example `"[255, 0, 0, 255]"` is red under the corrected parse |
| Colors.HexChannelOfDecimal | crates/xinghuo-geom/src/color.rs:66-69 | a channel written in decimal and read in base 16, as the source reads it, comes back as itself iff it is a single digit or 255 (which overflows to the 0xff fallback) |
| Colors.HexBracketOfDecimal | crates/xinghuo-geom/src/color.rs:61-70 | a colour's bracketed, comma-separated decimal form read channel by channel in base 16 gives the colour back iff every channel is a single digit or 255 |
| Quads.NewQuad | crates/xinghuo-geom/src/quad.rs:16-25 | the rect and fill colour are kept, the border colour is white, border radius and width are 0 |
| Quads.NewQuadImage | crates/xinghuo-geom/src/quad.rs:16-25 | the quads `Quad::new` builds are exactly those with a white, square, zero-width border |
| Geom.FromOriginAndSize | crates/xinghuo-geom/src/box2.rs:18-24 | the box starts at the origin and has the size |
| Geom.FromSize | crates/xinghuo-geom/src/box2.rs:26-32 | the box starts at zero and has the size |
| Geom.SetSize | crates/xinghuo-geom/src/box2.rs:41-47 | the min corner is kept and the size becomes the argument |
| Geom.Translate | crates/xinghuo-geom/src/box2.rs:69-75 | the min corner moves by the offset and the size is kept |
| Geom.ToNonEmpty | crates/xinghuo-geom/src/box2.rs:125-132 | Some iff the box is not empty, holding the box |
| Geom.IntersectionUnchecked | crates/xinghuo-geom/src/box2.rs:152-158 | a point is in the result iff it is in both boxes |
| Geom.Intersection | crates/xinghuo-geom/src/box2.rs:134-144 | None iff the unchecked intersection is empty; otherwise both boxes contain it and it holds exactly their common points |
| Geom.Union | crates/xinghuo-geom/src/box2.rs:160-176 | an empty argument returns the other box; otherwise the result contains both boxes and all their points; every box containing both contains the union, so it is the least such box |
| Geom.Inflate | crates/xinghuo-geom/src/box2.rs:179-188 | the size grows by twice the amounts and the centre stays |
| Geom.ContainsIsHalfOpen | crates/xinghuo-geom/src/box2.rs:103-109 | the min corner is inside iff the box is not empty; the max corner is never inside |
| Geom.ContainsBoxEmptyCases | crates/xinghuo-geom/src/box2.rs:111-121 | an empty box is contained in any box; a non-empty one is in no empty box; a box contains itself |
| Geom.ContainsBoxPoints | crates/xinghuo-geom/src/box2.rs:111-121 | a contained non-empty box has its points inside the container |
| Geom.IntersectsSymmetric | crates/xinghuo-geom/src/box2.rs:94-101 | `intersects` is symmetric |
| Geom.IntersectsAndIntersection | crates/xinghuo-geom/src/box2.rs:94-144 | a Some intersection implies `intersects`; for non-empty boxes the two agree |
| Geom.FlatBoxIntersectsWithoutIntersection | crates/xinghuo-geom/src/box2.rs:94-144 | a zero-width box can intersect a box while their intersection is None |
| Geom.RectBoxRoundTrip | crates/xinghuo-geom/src/rect.rs:93-99 | rect to box to rect, and box to rect to box, are identities |
| Geom.RectTranslate | crates/xinghuo-geom/src/rect.rs:86-91 | only the origin moves; as a box it is the translated box |
| Geom.RectIsEmptyAgrees | crates/xinghuo-geom/src/rect.rs:196-201 | a rect is empty iff its box is |
| Geom.RectIntersection | crates/xinghuo-geom/src/rect.rs:117-128 | None iff the box intersection is empty; otherwise that box as a rect, holding exactly the common points |
| Geom.RectInflate | crates/xinghuo-geom/src/rect.rs:130-139 | equals inflating the rect's box and converting back |
| Geom.ContainsRectCases | crates/xinghuo-geom/src/rect.rs:141-153 | an empty rect is contained in any rect; a non-empty one is in no empty rect; otherwise it agrees with the boxes |
| Geom.RectUnion | crates/xinghuo-geom/src/rect.rs:172-177 | the union contains both rects, and every rect containing both contains the union |
| Geom.Scale | crates/xinghuo-geom/src/rect.rs:179-187 | the corners of the box are scaled by the factors |
| Trees.PreOrderSize | examples/test.rs:175 | the pre-order has as many entries as the tree has nodes |
| Trees.PreOrderListsEachNodeOnce | examples/test.rs:175 | the pre-order lists every node exactly once: the node at each path sits at that path's position, no two paths share a position, and every position is some node's |
| Trees.PreOrderOfAppend | examples/test.rs:175 | the pre-order of a forest is the concatenation of its parts' |
| Trees.Append | examples/test.rs:122-133 | `append` adds the last child, and the pre-order of the subtree follows the old one |
| Trees.MergeOption | examples/test.rs:122-133 | `merge_option_node`: None iff both are None; `(Some a, Some b)` appends b as a's last child; `(Some a, None)` gives a; `(None, x)` gives x |
| Trees.MergeOptionPreOrder | examples/test.rs:122-133 | merging loses and adds no node: the pre-order of the result is the first tree's followed by the second's |
| Trees.FoldMerge | crates/xinghuo-core/src/element.rs:165-184 | merging a run of overlays is None iff the start and all of them are None |
| Trees.FoldMergePreOrder | crates/xinghuo-core/src/element.rs:165-184 | merging a run of overlays keeps every node: the pre-order is the start's followed by each overlay's, in order |
| Trees.FoldMergeOntoTree | crates/xinghuo-core/src/element.rs:170-174 | merging onto a node appends every present overlay as a child, in order |
| Trees.FoldMergeFromNone | crates/xinghuo-core/src/element.rs:175-176 | without a node of its own, the first present overlay becomes the root and the later ones hang under it |
| Elements.NewElement | crates/xinghuo-core/src/element.rs:72-81 | a new element has a new dirty DOM element, no listener, no data and no children |
| Elements.OnClick | crates/xinghuo-core/src/element.rs:83-91 | a listener exists afterwards, with the callback in the click slot only; other slots, DOM, data and children are kept |
| Elements.WithWidth | crates/xinghuo-core/src/element.rs:93-96 | sets the DOM width only |
| Elements.WithHeight | crates/xinghuo-core/src/element.rs:98-101 | sets the DOM height only |
| Elements.WithBackgroundColor | crates/xinghuo-core/src/element.rs:103-106 | sets the DOM background colour only |
| Elements.WithData | crates/xinghuo-core/src/element.rs:108-112 | sets the payload only |
| Elements.WithChild | crates/xinghuo-core/src/element.rs:114-117 | the child is appended last, the other children keep their order |
| Elements.WithChildren | crates/xinghuo-core/src/element.rs:119-122 | the new children follow the old ones, in order |
| Elements.RenderMirrorsElements | crates/xinghuo-core/src/element.rs:141-168 | a path is valid in the render tree iff it is in the element tree, and it leads to the render node of that element |
| Elements.RenderSize | crates/xinghuo-core/src/element.rs:141-168 | the render tree has exactly one node per declared element |
| Elements.OverlayPreOrder | crates/xinghuo-core/src/element.rs:145-183 | the pre-order of an overlay tree is the list of attachments in declaration order |
| Elements.AttachmentsSound | crates/xinghuo-core/src/element.rs:145-162 | every attachment points to an element that declared that listener or payload |
| Elements.AttachmentsComplete | crates/xinghuo-core/src/element.rs:145-183 | every declared listener or payload appears in the overlay |
| Elements.OverlayFacts | crates/xinghuo-core/src/element.rs:141-183 | an overlay is Some iff some element declared one; each entry's handle is the render node built for that same element |
| Elements.Build | crates/xinghuo-core/src/element.rs:124-187 | the render root holds the element's DOM and has one child per declared child, each that child's build; the event tree and the data tree hold exactly the declared listeners and payloads in declaration order, exist iff one is declared, and each entry's handle reaches the render node of the element that declared it |
| Elements.OverlayMergeRule | crates/xinghuo-core/src/element.rs:170-183 | with a listener the children's overlays hang under it in child order; without one the first present child overlay becomes the result and later ones nest under it |
| Elements.LayoutHook | crates/xinghuo-core/src/element.rs:36-49 | a clean node is unchanged; a dirty node under an inline, inline-block or block parent becomes clean and nothing else changes; under a flex parent it panics |
| Elements.PaintHook | crates/xinghuo-core/src/element.rs:51-56 | exactly one `rect` call holding one quad over the available box in the background colour, with default border |
| Elements.RenderTreeChild | crates/xinghuo-core/src/element.rs:225-232 | with a root the node is appended as its last child; without one it is dropped |
| Layouts.PlaceChildIsSetterChain | examples/test.rs:192-209 | one placed child is the loop body's setter calls in order |
| Layouts.PlaceChildFacts | examples/test.rs:192-209 | a placed child has its edges resolved against the parent's size, width = parent width − its edge width, height resolved against the parent height, area from the cursor plus its left/top margins spanning its width and height; it is dirty and nothing else changes |
| Layouts.PlaceChildren | examples/test.rs:185-216 | every child is placed, one for one |
| Layouts.StackClosedForm | examples/test.rs:184-214 | whatever the loop body, child i is placed at the starting cursor moved down by the box heights of the placed children before it, so siblings stack top to bottom in order |
| Layouts.PlacementClosedForm | examples/test.rs:185-216 | child i is placed at the cursor moved down by the box heights of the children before it |
| Layouts.PlacementKeepsLayout | examples/test.rs:192-216 | placement keeps every child's layout |
| Layouts.PlacedArea | examples/test.rs:185-216 | children share the parent corner's x; child i's top is the parent corner's y plus the box heights above it plus its top margin |
| Layouts.Arranged | examples/test.rs:187-220 | under a block node the children are exactly `PlaceChildren` of their values against the node's width, height and available-box corner; under any other layout they are untouched; layouts are kept either way |
| Layouts.VisitFails | examples/test.rs:175-239 | a walk panics iff some flex element below the start has a dirty child |
| Layouts.VisitChildrenFail | examples/test.rs:174-239 | the children's walk from child i on panics iff some such child is dirty under a flex parent or has a flex element with a dirty child below it |
| Layouts.VisitShape | examples/test.rs:175-239 | a walk returns the node (laid out unless it is the root) with its children arranged and made clean, every node below it clean, and no node lost or added |
| Layouts.VisitPaints | examples/test.rs:222-238 | the paint calls are those of the returned nodes in pre-order, the root excepted |
| Layouts.RunFacts | examples/test.rs:175-246 | a run panics iff some flex element has a dirty child; otherwise the root is unchanged, every other node is clean, and there is one `rect` call per non-root node in pre-order |
| Layouts.RootInit | examples/test.rs:161-169 | the root's style is reset to the default with the window's width and height, its layout is block, and its area runs from (0,0) to (width, width) |
| Layouts.RootInitIntended | examples/test.rs:161-169 | the same default style, width, height and block layout, with the corrected root area, the whole window (0,0) to (width, height) |
| Layouts.RootBoxUsesWidth | examples/test.rs:168 | the written root area has size (width, width); it equals the corrected one iff the window is square |
| Layouts.HookReadsParentLayout | crates/xinghuo-core/src/element.rs:36-49 | the layout hook reads nothing of the parent but its layout |
| Layouts.RootBoxSlipIsHarmless | examples/test.rs:161-239 | the written and corrected root areas give the same children and the same paint calls |
| DriverState.Get | examples/test.rs:35-39 | Some iff the type has a stored value, and then that value |
| DriverState.Set | examples/test.rs:47-52 | the type's value reads back as set, other types are unchanged, and the map becomes dirty iff it was dirty or the type already had a value |
| DriverState.Begin | examples/test.rs:26-28 | clears the dirty flag and keeps the values |
| DriverState.DirtyIffReplaced | examples/test.rs:26-52 | after `begin`, the map is dirty iff some later `set` replaced a stored value |
| DriverState.SetAllLastWriteWins | examples/test.rs:47-52 | after a run of sets each type holds its last written value; unwritten types keep theirs |
| DriverState.Push | examples/test.rs:76-79 | the id is added innermost and the path before it is kept |
| DriverState.Pop | examples/test.rs:81-84 | drops the innermost id; an empty path stays empty |
| DriverState.PopPush | examples/test.rs:76-84 | pop undoes push |
| DriverState.WithIdRestoresPath | examples/test.rs:91-96 | with a balanced body, `with_id` leaves the path as it was and returns the body's result, computed with the id pushed |
| DriverState.WithIdIsBalanced | examples/test.rs:91-96 | `with_id` around a balanced body is itself balanced, so scopes nest |
| UiView.MangleIdent | crates/xinghuo-macro/src/ui_view.rs:261-267 | exactly `async`, `for`, `loop` and `type` get a trailing `_`; the result is never one of them |
| UiView.MangleLaws | crates/xinghuo-macro/src/ui_view.rs:261-267 | mangling is idempotent but not injective |
| UiView.ManglePath | crates/xinghuo-macro/src/ui_view.rs:255-259 | every segment's identifier is mangled and nothing else changes |
| UiView.DashesToUnderscores | crates/xinghuo-macro/src/ui_view.rs:277-294 | panics iff there are no words; a trailing dash gives a trailing `_`; splitting the result at `_` gives back the words, plus an empty piece for a trailing dash, when no word holds `_` |
| UiView.ValidateTagName | crates/xinghuo-macro/src/ui_view.rs:20-50 | paths are accepted and mangled segment-wise; dashed names become one plain segment; colon and block names are compile errors |
| UiView.ValidateAttrName | crates/xinghuo-macro/src/ui_view.rs:134-171 | accepted iff a plain identifier (then mangled) or a dashed name with words; other names are compile errors |
| UiView.AttrFromNode | crates/xinghuo-macro/src/ui_view.rs:114-132 | only attribute nodes with a valid name convert, keeping their value; other node types are conversion errors |
| UiView.AttrsFromNodes | crates/xinghuo-macro/src/ui_view.rs:62-66 | all attributes convert, in order, or the result is the failure of the first that does not |
| UiView.ExprFromNode | crates/xinghuo-macro/src/ui_view.rs:187-202 | text and block nodes give their expression; other node types are conversion errors |
| UiView.ItemFromNode | crates/xinghuo-macro/src/ui_view.rs:217-228 | comments and doctypes become nothing; text and blocks become their expression; attributes and fragments are errors; only elements become tags |
| UiView.ItemsFromChildrenFacts | crates/xinghuo-macro/src/ui_view.rs:67-71 | all children convert, in order, or the result is the failure of the first that does not |
| UiView.TagFromNodeFacts | crates/xinghuo-macro/src/ui_view.rs:53-82 | a tag converts iff it is an element whose name validates and whose attributes and children all convert; it holds them in source order |
| UiView.AttrTokens | crates/xinghuo-macro/src/ui_view.rs:173-181 | emits `.name(value)`, or `.name(name)` without a value |
| UiView.AttrShorthand | crates/xinghuo-macro/src/ui_view.rs:173-181 | a valueless attribute emits what an attribute whose value is its own name does |
| UiView.Kept | crates/xinghuo-macro/src/ui_view.rs:98-103 | the kept children are drawn from the children, none is empty, and every non-empty child is kept |
| UiView.ChildrenTokensAreChildCalls | crates/xinghuo-macro/src/ui_view.rs:84-107 | the emission loop gives one `.child(..)` call per non-empty child, in order, as the filter-then-map reference does |
| UiView.DroppedChildrenLeaveNoTrace | crates/xinghuo-macro/src/ui_view.rs:98-103 | removing the empty children of a tag does not change its tokens |
| UiView.ParseUiView | crates/xinghuo-macro/src/ui_view.rs:6-11 | fails iff there is no node or the first node does not convert; otherwise emits `{`, the item, `.build()` and `}` |
| UiView.ParseUsesFirstNode | crates/xinghuo-macro/src/ui_view.rs:6-11 | nodes after the first are ignored |

## Left out

- GPU, windowing and event-loop code, and the concurrency wrapper around the memory map. Nothing there is pure logic to state.
- `Painter` and the draw stubs: the painter is a trace of `rect` calls.
- `Size::update` and `Quaternion::update`. These resolve declared sizes against the parent. They are not defined in `xinghuo-core/src/lib.rs`, which declares `Size` and `Quaternion`, and `xinghuo-core/src/layer.rs` is not part of this model. `Layouts.Resolver` makes them a parameter of the walk.
- `Layouts.PlaceChildFacts` and `Layouts.RunFacts` hold for every resolver. They state nothing about a particular resolution rule, such as percentages of the parent.
- The `DomElement` members the driver calls but the `DomElement` of `xinghuo-core/src/lib.rs` does not declare are modelled as fields and functions: `border`, `area`/`ava_box` (one field), `node_id`, `edge_width`, `left_top`, `box_height`, `set_area`, `set_style`, `set_border`, and `layout()`. The edge sums follow the box-model comment of the `Style` in the same file. `Dom.LeftTop` (`left_top`) is the offset of the available box from the element's outer corner, taken as the left and top margins, `Vec2(margin.left, margin.top)`; `Layouts.PlacedArea` depends on that choice. `Dom.LayoutOf` (`layout()`) reads an unset layout as `Block`: the demo's `span()` sets `Inline` explicitly (examples/test.rs:59-63) while `div()` sets nothing, so a plain element is taken to be a block; `Layouts.Arranged`, `Layouts.VisitFails` and `Layouts.RunFacts` depend on that choice.
- `Dom.BoxHeight`: the box-model comment repeats `width` in its height formula. The model reads it as `height`.
- The `println!` and `eprintln!` output, `Debug` formatting and `Id::short_debug_format`.
- `Numbers.ParseF32`: `str::parse::<f32>` is modelled over exact reals. The `inf`, `infinity` and `nan` spellings are rejected, and rounding to the nearest `f32` is not modelled.
- `Memory.Hash`: `TypeId::of` hashes through `DefaultHasher`, so type ids are opaque 64-bit numbers.
- The values stored in `Map` and `IdTypeMap` are one generic type. A per-type `downcast` therefore cannot fail, which is what the source's key scheme guarantees.
- `UiView.ParseUiView`: the tokenising and parsing done by `syn_rsx::parse` is not modelled. Input is the parsed node list.
- Spans, the exact text of `std::any::type_name` in conversion errors, and the `Display` form of node types.
- Outer attributes and qualified-self prefixes on tag paths are carried but not emitted.
- The `#[allow(unused_braces)]` attribute is emitted as a token list.
- `Colors.FromStr`: strings are ASCII; slicing non-ASCII input by bytes is not modelled.
- Float-only operations: `Color::to_value`, `lerp`, `center`, `area`, scaling operators and `is_finite`.
- Declarative macros, the dead derive-builder generator and the demo programs.

## Findings

| source | as written | input that shows it | evidently intended | confidence | as-written member | corrected member |
|---|---|---|---|---|---|---|
| crates/xinghuo-core/src/lib.rs:309-314 | three numbers give top a, right b, bottom b, left c | `"1 2 3"` gives `[1, 2, 2, 3]` | top a, right/left b, bottom c, as the comment beside the branch and section 8.3 of CSS 2.1 say: `[1, 2, 3, 2]` | not executed; high | Dom.ThreeTokenExample | Dom.QuaternionFromStrCss |
| crates/xinghuo-core/src/lib.rs:260-264 | `From<(a, b)>` builds `Quaternion(a, a, b, b)` | `(1, 2)` gives top 1, right 1, bottom 2, left 2, while `Binary(1, 2)` gives `(1, 2, 1, 2)` | the pair means `Binary(a, b)`: top/bottom a, left/right b | not executed; medium | Values.FromPairDiffersFromBinary | Values.FromPairIntended |
| crates/xinghuo-core/src/id.rs:9-14 | the counter starts at 0, and the first value goes to `NonZeroU64::new_unchecked` | the first `Id::next()` call | the counter starts at 1, so every id handed out is non-zero | not executed; high | Ids.FirstIdBreaksNonZero | Ids.NextNonzero |
| crates/xinghuo-geom/src/color.rs:60 | the guard asks for a string starting with `(` and with `)` (or `[` and `]`) | `"[255,0,0,255]"` gives white | test for the opening bracket at the start and the closing one at the end | not executed; high | Colors.BracketExampleIsWhite | Colors.BracketFormIntended |
| crates/xinghuo-geom/src/color.rs:66-69 | the bracketed channels are read with `u8::from_str_radix(_, 16)` | with the guard at line 60 corrected, `"[128, 0, 0, 255]"` does not give `[128, 0, 0, 255]`: `"128"` read in base 16 is 0x128, no byte, so the red channel falls back to 0xff | base 10, as the doc comment's decimal example `"[255, 0, 0, 255]"` shows | not executed; medium | Colors.HexBracketOfDecimal | Colors.DocFormIntended |
| examples/test.rs:168 | the root's available box is `(0,0)`–`(w, w)` | an 800×600 window gives a box 800 high | `(0,0)`–`(w, h)` | not executed; medium | Layouts.RootBoxUsesWidth | Layouts.RootInitIntended |
