// Pixel geometry of the range slider: rectangles and points as SkiaSharp
// gives them, the per-thumb drawing record, and the rules that place a
// thumb on the track, keep it inside the canvas and place its value label.
module Geometry {
  import opened ValueDomain

  datatype Point = Point(x: real, y: real)

  /** An axis-aligned rectangle given by its four edges (SKRect). */
  datatype Rect = Rect(left: real, top: real, right: real, bottom: real) {
    function Width(): real { right - left }
    function MidX(): real { (left + right) / 2.0 }
    function MidY(): real { (top + bottom) / 2.0 }

    /** SKRect.Contains: the left and top edges belong to the rectangle,
        the right and bottom edges do not. */
    predicate Contains(p: Point) {
      left <= p.x < right && top <= p.y < bottom
    }
  }

  /** The size a paint pass reports for one canvas layer; its rectangle
      spans (0, 0) to (width, height). */
  datatype CanvasInfo = CanvasInfo(width: nat, height: nat) {
    function ImageRect(): Rect {
      Rect(0.0, 0.0, width as real, height as real)
    }

    /** The vertical middle of the image rectangle as the integer rectangle
        (SKRectI) reports it: half the height, rounded down. */
    function MidY(): (m: nat)
      ensures 2 * m == height || 2 * m + 1 == height
    {
      height / 2
    }
  }

  /** The part of a thumb's drawing record that the slider's logic reads:
      the hit-box computed on press, the circle's centre and its radius. */
  datatype ThumbDraw = ThumbDraw(bounds: Rect, point: Point, radius: real)

  /** A drawing record as the field's default value leaves it. */
  const EmptyDraw: ThumbDraw := ThumbDraw(Rect(0.0, 0.0, 0.0, 0.0), Point(0.0, 0.0), 0.0)

  /** The thumb's circle lies horizontally within `rect`. */
  predicate Fits(d: ThumbDraw, rect: Rect) {
    rect.left <= d.point.x - d.radius && d.point.x + d.radius <= rect.right
  }

  /** The press hit-box of a thumb: its centre plus or minus its radius on
      both axes. */
  function HitBox(d: ThumbDraw): (b: Rect)
    ensures b.MidX() == d.point.x && b.MidY() == d.point.y
    ensures b.Width() == 2.0 * d.radius && b.bottom - b.top == 2.0 * d.radius
    ensures d.radius <= 0.0 ==> forall p: Point :: !b.Contains(p)
  {
    Rect(d.point.x - d.radius, d.point.y - d.radius, d.point.x + d.radius, d.point.y + d.radius)
  }

  /** CheckThumbBounds: moves the thumb's centre horizontally so that its
      circle does not leave `rect`, testing the left edge first. Only the
      centre's x changes. */
  function CheckThumbBounds(d: ThumbDraw, rect: Rect): (r: ThumbDraw)
    ensures r.point.y == d.point.y && r.radius == d.radius && r.bounds == d.bounds
    ensures Fits(d, rect) ==> r == d
    ensures d.point.x - d.radius < rect.left ==> r.point.x == rect.left + d.radius
    ensures rect.left <= d.point.x - d.radius && rect.right < d.point.x + d.radius ==>
              r.point.x == rect.right - d.radius
    ensures 2.0 * d.radius <= rect.Width() ==> Fits(r, rect)
  {
    if d.point.x - d.radius < rect.left then
      d.(point := d.point.(x := rect.left + d.radius))
    else if d.point.x + d.radius > rect.right then
      d.(point := d.point.(x := rect.right - d.radius))
    else
      d
  }

  /** A thumb's radius: the canvas's integer midline less half of it, that
      is half the midline. This is a quarter of the height for an even
      height and a quarter of one pixel less for an odd one. */
  function ThumbRadius(canvas: CanvasInfo): (r: real)
    ensures 2.0 * r == canvas.MidY() as real
    ensures canvas.height % 2 == 0 ==> r == canvas.height as real / 4.0
    ensures canvas.height % 2 == 1 ==> r == (canvas.height - 1) as real / 4.0
    ensures 0.0 <= r <= canvas.height as real / 4.0
  {
    var mid := canvas.MidY() as real;
    mid - mid * 0.5
  }

  /** The geometry part of DrawThumb: radius from the canvas's integer
      midline, centre at `percentage` of the canvas width on that midline,
      then clamped into the canvas rectangle. The hit-box is left as it was. */
  function PlaceThumb(percentage: real, canvas: CanvasInfo, d: ThumbDraw): (r: ThumbDraw)
    ensures 2.0 * r.radius == canvas.MidY() as real
    ensures r.point.y == canvas.MidY() as real
    ensures r.bounds == d.bounds
    ensures canvas.MidY() <= canvas.width ==> Fits(r, canvas.ImageRect())
    ensures var c := AtFraction(percentage, canvas.width as real);
            r.radius <= c <= canvas.width as real - r.radius ==> r.point.x == c
  {
    CheckThumbBounds(PositionThumb(percentage, canvas, d), canvas.ImageRect())
  }

  /** DrawThumb's radius and centre before clamping: the centre lies at
      `percentage` of the canvas width, on its integer midline. */
  function PositionThumb(percentage: real, canvas: CanvasInfo, d: ThumbDraw): (r: ThumbDraw)
    ensures 2.0 * r.radius == canvas.MidY() as real
    ensures r.point == Point(AtFraction(percentage, canvas.width as real), canvas.MidY() as real)
    ensures r.bounds == d.bounds
  {
    d.(radius := ThumbRadius(canvas), point := Point(AtFraction(percentage, canvas.width as real), canvas.MidY() as real))
  }

  /** GetThumbValueXPosition: where the value label of a thumb starts, given
      the label's measured bounds and the rectangle of the values canvas.
      The label is centred on the thumb unless that would cross the left edge
      (then it starts at the left edge) or, failing that, the right edge (then
      it ends at the right edge). */
  function GetThumbValueXPosition(d: ThumbDraw, text: Rect, rect: Rect): (x: real)
    ensures d.point.x - text.MidX() < rect.left ==> x == rect.left
    ensures rect.left <= d.point.x - text.MidX() && rect.right < d.point.x + text.MidX() ==>
              x == rect.right - text.Width()
    ensures rect.left <= d.point.x - text.MidX() && d.point.x + text.MidX() <= rect.right ==>
              x == d.point.x - text.MidX()
    ensures text.left == 0.0 && text.Width() <= rect.Width() ==>
              rect.left <= x && x + text.Width() <= rect.right
  {
    if d.point.x - text.MidX() < rect.left then rect.left
    else if d.point.x + text.MidX() > rect.right then rect.right - text.Width()
    else d.point.x - text.MidX()
  }
}
