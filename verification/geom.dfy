/** Planar geometry of the `xinghuo-geom` crate: `Vec2`, the min/max box
    `Box2` and the origin/size rectangle `Rect`. Coordinates are `real`;
    NaN and infinities are outside the model. */
module Geom {
  import opened Wrappers

  datatype Vec2 = Vec2(x: real, y: real)

  const Zero := Vec2(0.0, 0.0)

  function Add(a: Vec2, b: Vec2): Vec2 {
    Vec2(a.x + b.x, a.y + b.y)
  }

  function Sub(a: Vec2, b: Vec2): Vec2 {
    Vec2(a.x - b.x, a.y - b.y)
  }

  function Min(a: real, b: real): real {
    if a <= b then a else b
  }

  function Max(a: real, b: real): real {
    if a >= b then a else b
  }

  // ---------------------------------------------------------------- Box2

  datatype Box2 = Box2(min: Vec2, max: Vec2)

  function Size(b: Box2): Vec2 {
    Sub(b.max, b.min)
  }

  function Width(b: Box2): real {
    b.max.x - b.min.x
  }

  function Height(b: Box2): real {
    b.max.y - b.min.y
  }

  /** `Box2::from_origin_and_size`: the box whose min corner is `origin`
      and whose size is `size`. */
  function FromOriginAndSize(origin: Vec2, size: Vec2): (b: Box2)
    ensures b.min == origin && Size(b) == size
  {
    Box2(origin, Vec2(origin.x + size.x, origin.y + size.y))
  }

  /** `Box2::from_size`: a box of the given size at the origin. */
  function FromSize(size: Vec2): (b: Box2)
    ensures b.min == Zero && Size(b) == size
  {
    Box2(Zero, Vec2(size.x, size.y))
  }

  /** `Box2::set_size`: moves the max corner by the difference between the
      current and the wanted size. */
  function SetSize(b: Box2, size: Vec2): (r: Box2)
    ensures r.min == b.min
    ensures Size(r) == size
  {
    var diff := Sub(Size(b), size);
    Box2(b.min, Sub(b.max, diff))
  }

  /** `Box2::translate`: both corners move by `offset`. */
  function Translate(b: Box2, offset: Vec2): (r: Box2)
    ensures r.min == Add(b.min, offset)
    ensures Size(r) == Size(b)
  {
    Box2(Add(b.min, offset), Add(b.max, offset))
  }

  predicate IsNegative(b: Box2) {
    b.max.x < b.min.x || b.max.y < b.min.y
  }

  /** `Box2::is_empty`: the size is zero or negative on some axis. */
  predicate IsEmpty(b: Box2) {
    !(b.max.x > b.min.x && b.max.y > b.min.y)
  }

  predicate Intersects(a: Box2, b: Box2) {
    a.min.x < b.max.x && a.max.x > b.min.x && a.min.y < b.max.y && a.max.y > b.min.y
  }

  /** `Box2::contains`: half-open on both axes. */
  predicate Contains(b: Box2, p: Vec2) {
    b.min.x <= p.x && p.x < b.max.x && b.min.y <= p.y && p.y < b.max.y
  }

  /** `Box2::contains_box`: an empty box is contained in every box. */
  predicate ContainsBox(b: Box2, other: Box2) {
    IsEmpty(other)
    || (b.min.x <= other.min.x && other.max.x <= b.max.x
        && b.min.y <= other.min.y && other.max.y <= b.max.y)
  }

  /** `Box2::to_non_empty`. */
  function ToNonEmpty(b: Box2): (r: Option<Box2>)
    ensures r.Some? <==> !IsEmpty(b)
    ensures r.Some? ==> r.value == b
  {
    if IsEmpty(b) then None else Some(b)
  }

  /** `Box2::intersection_unchecked`: exactly the points in both boxes. */
  function IntersectionUnchecked(a: Box2, b: Box2): (r: Box2)
    ensures forall p :: Contains(r, p) <==> Contains(a, p) && Contains(b, p)
  {
    Box2(Vec2(Max(a.min.x, b.min.x), Max(a.min.y, b.min.y)),
         Vec2(Min(a.max.x, b.max.x), Min(a.max.y, b.max.y)))
  }

  /** `Box2::intersection`: `None` when the overlap is empty, otherwise a
      box inside both inputs that holds every point they share. */
  function Intersection(a: Box2, b: Box2): (r: Option<Box2>)
    ensures r.None? <==> IsEmpty(IntersectionUnchecked(a, b))
    ensures r.Some? ==> ContainsBox(a, r.value) && ContainsBox(b, r.value)
    ensures r.Some? ==> forall p :: Contains(r.value, p) <==> Contains(a, p) && Contains(b, p)
  {
    var i := IntersectionUnchecked(a, b);
    if IsEmpty(i) then None else Some(i)
  }

  /** `Box2::union`: the other box when one of them is empty, otherwise
      the smallest box holding both. Either way every box holding both
      holds the union. */
  function Union(a: Box2, b: Box2): (r: Box2)
    ensures IsEmpty(b) ==> r == a
    ensures !IsEmpty(b) && IsEmpty(a) ==> r == b
    ensures ContainsBox(r, a) && ContainsBox(r, b)
    ensures forall p :: Contains(a, p) || Contains(b, p) ==> Contains(r, p)
    ensures forall c :: ContainsBox(c, a) && ContainsBox(c, b) ==> ContainsBox(c, r)
  {
    if IsEmpty(b) then a
    else if IsEmpty(a) then b
    else Box2(Vec2(Min(a.min.x, b.min.x), Min(a.min.y, b.min.y)),
              Vec2(Max(a.max.x, b.max.x), Max(a.max.y, b.max.y)))
  }

  /** `Box2::inflate`: each side moves outwards, so the size grows by
      twice the amounts and the centre stays put. */
  function Inflate(b: Box2, width: real, height: real): (r: Box2)
    ensures Size(r) == Vec2(Size(b).x + 2.0 * width, Size(b).y + 2.0 * height)
    ensures Add(r.min, r.max) == Add(b.min, b.max)
  {
    Box2(Vec2(b.min.x - width, b.min.y - height), Vec2(b.max.x + width, b.max.y + height))
  }

  /** The min corner of a non-empty box is inside it; the max corner is
      not, whatever the box. */
  lemma {:induction false} ContainsIsHalfOpen(b: Box2)
    ensures !IsEmpty(b) <==> Contains(b, b.min)
    ensures !Contains(b, b.max)
  {
  }

  /** The documented promises of `contains_box`: true for every empty
      argument, false for a non-empty argument when the receiver is
      empty, and true of a box and itself. */
  lemma {:induction false} ContainsBoxEmptyCases(b: Box2, other: Box2)
    ensures IsEmpty(other) ==> ContainsBox(b, other)
    ensures !IsEmpty(other) && IsEmpty(b) ==> !ContainsBox(b, other)
    ensures ContainsBox(b, b)
  {
  }

  /** `contains_box` is sound for points: a point of the inner box is a
      point of the outer one. */
  lemma {:induction false} ContainsBoxPoints(b: Box2, other: Box2, p: Vec2)
    requires ContainsBox(b, other) && Contains(other, p)
    ensures Contains(b, p)
  {
  }

  lemma {:induction false} IntersectsSymmetric(a: Box2, b: Box2)
    ensures Intersects(a, b) <==> Intersects(b, a)
  {
  }

  /** A box from `intersection` means the boxes intersect; for two
      non-empty boxes the converse holds too. A flat box (zero width or
      height) lying across another one `intersects` it, yet their
      `intersection` is `None`. */
  lemma {:induction false} IntersectsAndIntersection(a: Box2, b: Box2)
    ensures Intersection(a, b).Some? ==> Intersects(a, b)
    ensures !IsEmpty(a) && !IsEmpty(b) ==> (Intersects(a, b) <==> Intersection(a, b).Some?)
  {
  }

  lemma {:induction false} FlatBoxIntersectsWithoutIntersection()
    ensures var flat := Box2(Vec2(3.0, 0.0), Vec2(3.0, 10.0));
            var wide := Box2(Vec2(0.0, 0.0), Vec2(10.0, 10.0));
            Intersects(flat, wide) && Intersection(flat, wide).None?
  {
  }

  // ---------------------------------------------------------------- Rect

  datatype Rect = Rect(origin: Vec2, size: Vec2)

  function RectMax(r: Rect): Vec2 {
    Add(r.origin, r.size)
  }

  /** `Box2::to_rect`. */
  function ToRect(b: Box2): Rect {
    Rect(b.min, Size(b))
  }

  /** `Rect::to_box2d`. */
  function ToBox2d(r: Rect): Box2 {
    Box2(r.origin, RectMax(r))
  }

  /** Over exact numbers the two representations convert back and forth
      without loss. */
  lemma {:induction false} RectBoxRoundTrip(r: Rect, b: Box2)
    ensures ToRect(ToBox2d(r)) == r
    ensures ToBox2d(ToRect(b)) == b
  {
  }

  /** `Rect::translate`: only the origin moves. */
  function RectTranslate(r: Rect, offset: Vec2): (t: Rect)
    ensures t.size == r.size
    ensures t.origin == Add(r.origin, offset)
    ensures ToBox2d(t) == Translate(ToBox2d(r), offset)
  {
    Rect(Add(r.origin, offset), r.size)
  }

  /** `Rect::is_empty`: a width or height that is not positive. */
  predicate RectIsEmpty(r: Rect) {
    !(r.size.x > 0.0 && r.size.y > 0.0)
  }

  lemma {:induction false} RectIsEmptyAgrees(r: Rect)
    ensures RectIsEmpty(r) <==> IsEmpty(ToBox2d(r))
  {
  }

  predicate RectContains(r: Rect, p: Vec2) {
    Contains(ToBox2d(r), p)
  }

  predicate RectIntersects(a: Rect, b: Rect) {
    Intersects(ToBox2d(a), ToBox2d(b))
  }

  /** `Rect::intersection`: the box intersection, converted back. */
  function RectIntersection(a: Rect, b: Rect): (r: Option<Rect>)
    ensures r.None? <==> IsEmpty(IntersectionUnchecked(ToBox2d(a), ToBox2d(b)))
    ensures r.Some? ==> r.value == ToRect(IntersectionUnchecked(ToBox2d(a), ToBox2d(b)))
    ensures r.Some? ==> forall p :: RectContains(r.value, p) <==> RectContains(a, p) && RectContains(b, p)
  {
    var box := IntersectionUnchecked(ToBox2d(a), ToBox2d(b));
    if IsEmpty(box) then None else Some(ToRect(box))
  }

  /** `Rect::inflate`: written on origin and size, it agrees with
      inflating the corresponding box. */
  function RectInflate(r: Rect, width: real, height: real): (t: Rect)
    ensures t == ToRect(Inflate(ToBox2d(r), width, height))
  {
    Rect(Vec2(r.origin.x - width, r.origin.y - height),
         Vec2(r.size.x + width + width, r.size.y + height + height))
  }

  /** `Rect::contains_rect`, written on the min/max edges. */
  predicate ContainsRect(r: Rect, other: Rect) {
    RectIsEmpty(other)
    || (r.origin.x <= other.origin.x && RectMax(other).x <= RectMax(r).x
        && r.origin.y <= other.origin.y && RectMax(other).y <= RectMax(r).y)
  }

  /** The documented promises of `contains_rect`, and its agreement with
      `contains_box` on the converted boxes. */
  lemma {:induction false} ContainsRectCases(r: Rect, other: Rect)
    ensures RectIsEmpty(other) ==> ContainsRect(r, other)
    ensures !RectIsEmpty(other) && RectIsEmpty(r) ==> !ContainsRect(r, other)
    ensures ContainsRect(r, other) <==> ContainsBox(ToBox2d(r), ToBox2d(other))
  {
  }

  /** `Rect::union`, through the boxes: the least rect holding both. */
  function RectUnion(a: Rect, b: Rect): (r: Rect)
    ensures ContainsRect(r, a) && ContainsRect(r, b)
    ensures forall c :: ContainsRect(c, a) && ContainsRect(c, b) ==> ContainsRect(c, r)
  {
    var u := Union(ToBox2d(a), ToBox2d(b));
    RectBoxRoundTrip(a, u);
    ToRect(u)
  }

  /** `Rect::scale`: origin and size are both scaled per axis. */
  function Scale(r: Rect, sx: real, sy: real): (t: Rect)
    ensures ToBox2d(t).min == Vec2(ToBox2d(r).min.x * sx, ToBox2d(r).min.y * sy)
    ensures ToBox2d(t).max == Vec2(ToBox2d(r).max.x * sx, ToBox2d(r).max.y * sy)
  {
    Rect(Vec2(r.origin.x * sx, r.origin.y * sy), Vec2(r.size.x * sx, r.size.y * sy))
  }
}
