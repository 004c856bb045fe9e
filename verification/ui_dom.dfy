/** The element record of the `xinghuo-ui` crate: a simpler sibling of the
    core `DomElement`, with plain numbers for width and height, `Value`
    shorthands for the edges, colours as packed numbers and the seven
    mouse-event slots held directly. */
module UiDom {
  import opened Wrappers
  import opened Values
  import opened Events

  datatype UiStyle = UiStyle(
    width: real,
    height: real,
    padding: Value,
    margin: Value,
    border: Value,
    borderColor: nat,
    backgroundColor: nat)

  /** `Style::default()`: every number zero, every edge `Value::default()`. */
  const DefaultUiStyle := UiStyle(0.0, 0.0, Values.Default, Values.Default, Values.Default, 0, 0)

  datatype UiDomElement = UiDomElement(
    id: string,
    nodeId: nat,
    tag: string,
    style: UiStyle,
    events: EventListener)

  /** `DomElement::new(tag)`: the tag, an empty id, node id 0, the default
      style and no event handler. */
  function NewUiDom(tag: string): (d: UiDomElement)
    ensures d.tag == tag && d.id == "" && d.nodeId == 0
    ensures d.style.width == 0.0 && d.style.height == 0.0
    ensures d.style.borderColor == 0 && d.style.backgroundColor == 0
    ensures SidesOf(d.style.padding) == Sides(0.0, 0.0, 0.0, 0.0)
    ensures SidesOf(d.style.margin) == Sides(0.0, 0.0, 0.0, 0.0)
    ensures SidesOf(d.style.border) == Sides(0.0, 0.0, 0.0, 0.0)
    ensures IsEmpty(d.events)
  {
    EmptinessOfSlots(DefaultListener, Click, Callback(0));
    UiDomElement("", 0, tag, DefaultUiStyle, DefaultListener)
  }

  /** Every new element gets node id 0, so the node id does not tell two
      elements apart: new elements differ only by their tag. */
  lemma {:induction false} NewElementsDifferOnlyByTag(t1: string, t2: string)
    ensures NewUiDom(t1).nodeId == NewUiDom(t2).nodeId
    ensures NewUiDom(t1) == NewUiDom(t2) <==> t1 == t2
    ensures NewUiDom(t1).(tag := t2) == NewUiDom(t2)
  {
  }
}
