/** `Value`, the four-sided shorthand value. The same enum, with the same
    `value()`, `Default` and `From` conversions, is declared both in
    `xinghuo-core` and in `xinghuo-ui`; it is modelled once here. */
module Values {

  datatype Value =
    | Quaternion(top: real, right: real, bottom: real, left: real)
    | Binary(topBottom: real, leftRight: real)
    | Single(all: real)

  datatype Sides = Sides(top: real, right: real, bottom: real, left: real)

  /** `Value::default()`. */
  const Default := Single(0.0)

  /** `Value::value()`: the (top, right, bottom, left) the value stands
      for. Only a `Quaternion` can give opposite sides different values,
      and it gives back exactly its own fields. */
  function SidesOf(v: Value): (s: Sides)
    ensures !v.Quaternion? ==> s.top == s.bottom && s.right == s.left
    ensures v.Single? ==> s.top == s.right
    ensures v.Quaternion? ==> s == Sides(v.top, v.right, v.bottom, v.left)
    ensures v.Binary? ==> s.top == v.topBottom && s.right == v.leftRight
    ensures v.Single? ==> s.top == v.all
  {
    match v
    case Quaternion(t, r, b, l) => Sides(t, r, b, l)
    case Binary(tb, lr) => Sides(tb, lr, tb, lr)
    case Single(x) => Sides(x, x, x, x)
  }

  /** The default is zero on every side. */
  lemma {:induction false} DefaultIsZero()
    ensures SidesOf(Default) == Sides(0.0, 0.0, 0.0, 0.0)
  {
  }

  /** `From<(f32, f32, f32, f32)>`: the tuple is read as top, right,
      bottom, left, so `value()` returns it unchanged. */
  function FromTuple4(t: Sides): (v: Value)
    ensures SidesOf(v) == t
  {
    Quaternion(t.top, t.right, t.bottom, t.left)
  }

  /** `From<(f32, f32)>` as written: `Quaternion(a, a, b, b)`, i.e. top
      and right take the first number, bottom and left the second. */
  function FromPair(a: real, b: real): (v: Value)
    ensures SidesOf(v) == Sides(a, a, b, b)
  {
    Quaternion(a, a, b, b)
  }

  /** The pair conversion disagrees with `Binary(a, b)` exactly when the
      two numbers differ. */
  lemma {:induction false} FromPairDiffersFromBinary(a: real, b: real)
    ensures SidesOf(FromPair(a, b)) == SidesOf(Binary(a, b)) <==> a == b
  {
  }

  /** The pair conversion the `Binary(top_bottom, left_right)` variant
      calls for: the first number on top and bottom, the second on the
      left and right. */
  function FromPairIntended(a: real, b: real): (v: Value)
    ensures SidesOf(v) == SidesOf(Binary(a, b))
    ensures SidesOf(v).top == SidesOf(v).bottom && SidesOf(v).left == SidesOf(v).right
  {
    Binary(a, b)
  }
}
