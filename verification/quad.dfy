/** `Quad` of the `xinghuo-geom` crate: a filled rectangle with a border,
    the unit the painter draws. */
module Quads {
  import opened Geom
  import Colors

  datatype Quad = Quad(
    rect: Rect,
    color: Colors.Color,
    borderColor: Colors.Color,
    borderRadius: real,
    borderWidth: real)

  /** `Quad::new`: keeps the rectangle and fill colour it is given; the
      border is white, square and zero wide. */
  function NewQuad(rect: Rect, color: Colors.Color): (q: Quad)
    ensures q.rect == rect && q.color == color
    ensures q.borderColor == Colors.Default
    ensures q.borderRadius == 0.0 && q.borderWidth == 0.0
  {
    Quad(rect, color, Colors.Default, 0.0, 0.0)
  }

  /** A quad is one that `Quad::new` builds exactly when its border is
      white, square and zero wide; `Quad::new` is then determined by the
      rectangle and fill colour alone. */
  lemma {:induction false} NewQuadImage(q: Quad)
    ensures q == NewQuad(q.rect, q.color)
        <==> q.borderColor == Colors.Default && q.borderRadius == 0.0 && q.borderWidth == 0.0
  {
  }
}
