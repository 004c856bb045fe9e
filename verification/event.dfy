/** Event listeners of `xinghuo-core` (its `event.rs`): the seven listener
    slots an element can carry, their emptiness test, the inert default
    handler methods, and the event names. */
module Events {
  import opened Wrappers

  /** The seven event types an element can listen to. */
  datatype EventKind = Click | MouseEnter | MouseLeave | MouseMove | MouseOut | MouseOver | MouseUp

  /** An opaque user callback; only its identity is observable. */
  datatype Callback = Callback(id: nat)

  /** The `NAME` constant of each event type. */
  function Name(k: EventKind): string {
    match k
    case Click => "Click"
    case MouseEnter => "MouseEnter"
    case MouseLeave => "MouseLeave"
    case MouseMove => "MouseMove"
    case MouseOut => "MouseOut"
    case MouseOver => "MouseOver"
    case MouseUp => "MouseUp"
  }

  /** The event type a `NAME` belongs to, if any. */
  function NameKind(s: string): Option<EventKind> {
    if s == "Click" then Some(Click)
    else if s == "MouseEnter" then Some(MouseEnter)
    else if s == "MouseLeave" then Some(MouseLeave)
    else if s == "MouseMove" then Some(MouseMove)
    else if s == "MouseOut" then Some(MouseOut)
    else if s == "MouseOver" then Some(MouseOver)
    else if s == "MouseUp" then Some(MouseUp)
    else None
  }

  /** Each name leads back to its own event type, so distinct event types
      have distinct names. */
  lemma {:induction false} NamesAreDistinct(k: EventKind)
    ensures NameKind(Name(k)) == Some(k)
    ensures forall j: EventKind :: Name(j) == Name(k) ==> j == k
  {
    forall j: EventKind | Name(j) == Name(k) ensures j == k {
      assert NameKind(Name(j)) == Some(j);
    }
  }

  /** `EventListener`: one optional callback per event type. */
  datatype EventListener = EventListener(
    onclick: Option<Callback>,
    onmouseenter: Option<Callback>,
    onmouseleave: Option<Callback>,
    onmousemove: Option<Callback>,
    onmouseout: Option<Callback>,
    onmouseover: Option<Callback>,
    onmouseup: Option<Callback>)

  /** `EventListener::default()`. */
  const DefaultListener := EventListener(None, None, None, None, None, None, None)

  /** The slot for event type `k`. */
  function Slot(l: EventListener, k: EventKind): Option<Callback> {
    match k
    case Click => l.onclick
    case MouseEnter => l.onmouseenter
    case MouseLeave => l.onmouseleave
    case MouseMove => l.onmousemove
    case MouseOut => l.onmouseout
    case MouseOver => l.onmouseover
    case MouseUp => l.onmouseup
  }

  /** `l` with the slot for `k` replaced and every other slot kept. */
  function WithSlot(l: EventListener, k: EventKind, cb: Option<Callback>): (r: EventListener)
    ensures Slot(r, k) == cb
    ensures forall j: EventKind :: j != k ==> Slot(r, j) == Slot(l, j)
  {
    match k
    case Click => l.(onclick := cb)
    case MouseEnter => l.(onmouseenter := cb)
    case MouseLeave => l.(onmouseleave := cb)
    case MouseMove => l.(onmousemove := cb)
    case MouseOut => l.(onmouseout := cb)
    case MouseOver => l.(onmouseover := cb)
    case MouseUp => l.(onmouseup := cb)
  }

  /** `is_empty`: true iff no slot holds a callback. */
  function IsEmpty(l: EventListener): (b: bool)
    ensures b <==> forall k: EventKind :: Slot(l, k).None?
  {
    assert Slot(l, Click) == l.onclick && Slot(l, MouseEnter) == l.onmouseenter;
    assert Slot(l, MouseLeave) == l.onmouseleave && Slot(l, MouseMove) == l.onmousemove;
    assert Slot(l, MouseOut) == l.onmouseout && Slot(l, MouseOver) == l.onmouseover;
    assert Slot(l, MouseUp) == l.onmouseup;
    l.onclick.None? && l.onmouseenter.None? && l.onmouseleave.None?
    && l.onmousemove.None? && l.onmouseout.None? && l.onmouseover.None?
    && l.onmouseup.None?
  }

  /** The default listener is empty, and filling any one slot of any
      listener makes it non-empty. */
  lemma {:induction false} EmptinessOfSlots(l: EventListener, k: EventKind, cb: Callback)
    ensures IsEmpty(DefaultListener)
    ensures forall j: EventKind :: Slot(DefaultListener, j).None?
    ensures !IsEmpty(WithSlot(l, k, Some(cb)))
  {
    assert Slot(WithSlot(l, k, Some(cb)), k).Some?;
  }

  /** A default `GlobalEventHandler` method: the receiver comes back as it
      was and the callback is dropped. */
  function DefaultHandler<T>(receiver: T, k: EventKind, cb: Callback): (r: T)
    ensures r == receiver
  {
    receiver
  }
}
