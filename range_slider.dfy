// The range slider control itself (Component/Content/RangeSlider.xaml.cs):
// its private fields, the touch handler and the paint and property-change
// handlers, each updating those fields in place as the source does. Every
// method is proved to leave the control in exactly the state the
// corresponding transition of SliderTransitions gives, so the lemmas proved
// there about whole gestures hold of the control.
module Content {
  import opened Models
  import opened Geometry
  import opened ValueDomain
  import T = SliderTransitions

  class RangeSlider<V(==)> {
    // Bindable properties.
    var values: seq<V>
    var leftThumb: ThumbOptions<V>
    var rightThumb: ThumbOptions<V>
    var from: Option<V>
    var to: Option<V>
    var isMoving: Option<bool>
    /** Every (From, To) pair handed to the release command, in order. */
    var released: seq<RangeValue<V>>

    // Private drawing and touch state.
    var activeThumb: T.ActiveThumb
    var lastActiveThumb: T.ActiveThumb
    var lastPercentage: real
    var touch: T.Touch
    var leftDraw: ThumbDraw
    var rightDraw: ThumbDraw
    var thumbsCanvas: CanvasInfo
    var segmentsCanvas: CanvasInfo

    /** The control's fields as one value of the transition model. */
    function State(): T.Slider<V>
      reads this
    {
      T.Slider(values, leftThumb, rightThumb, from, to, isMoving, released,
               activeThumb, lastActiveThumb, lastPercentage, touch,
               leftDraw, rightDraw, thumbsCanvas, segmentsCanvas)
    }

    /** A new control whose host has set Values and then Thumbs. */
    constructor(values: seq<V>, left: ThumbOptions<V>, right: ThumbOptions<V>)
      ensures State() == T.Initial(values, left, right)
    {
      this.values := values;
      leftThumb := left;
      rightThumb := right;
      from := Some(left.value);
      to := Some(right.value);
      isMoving := None;
      released := [];
      activeThumb := T.Left;
      lastActiveThumb := T.Left;
      lastPercentage := 0.0;
      touch := T.Touch(0, Point(0.0, 0.0), Point(0.0, 0.0));
      leftDraw := EmptyDraw;
      rightDraw := EmptyDraw;
      thumbsCanvas := CanvasInfo(0, 0);
      segmentsCanvas := CanvasInfo(0, 0);
    }

    /** The Pressed branch of OnTouch, at the already recorded current point. */
    method Press(id: int)
      modifies this
      ensures State() == T.Press(old(State()), id)
    {
      isMoving := Some(true);
      leftDraw := leftDraw.(bounds := HitBox(leftDraw));
      rightDraw := rightDraw.(bounds := HitBox(rightDraw));
      var p := touch.current;
      if leftDraw.bounds.Contains(p) && rightDraw.bounds.Contains(p) {
        touch := touch.(id := id, previous := p);
        activeThumb := lastActiveThumb;
      } else if leftDraw.bounds.Contains(p) {
        touch := touch.(id := id, previous := p);
        activeThumb := T.Left;
      } else if rightDraw.bounds.Contains(p) {
        touch := touch.(id := id, previous := p);
        activeThumb := T.Right;
      }
    }

    /** The Moved branch of OnTouch. `thrown` reports the case in which the
        source throws while reading the candidate (no candidates, or a
        zero-width segments canvas); the fields are then left as they were at
        that point, with the previous point already caught up. */
    method Move(id: int) returns (thrown: bool)
      modifies this
      ensures State() == T.Move(old(State()), id)
      ensures thrown <==> old(touch.id) == id && T.ValueUnderTouch(old(State())).None?
    {
      thrown := false;
      if touch.id == id {
        touch := touch.(previous := touch.current);
        var value := GetThumbValue(values, segmentsCanvas.width, touch.current.x);
        if value.None? {
          thrown := true;
          return;
        }
        if activeThumb == T.Left {
          leftThumb := leftThumb.(value := value.value);
          from := value;
        } else {
          rightThumb := rightThumb.(value := value.value);
          to := value;
        }
      }
    }

    /** The Released and Cancelled branch of OnTouch. */
    method Release()
      modifies this
      ensures State() == T.Release(old(State()))
    {
      touch := touch.(id := -1);
      lastActiveThumb := activeThumb;
      isMoving := Some(false);
      released := released + [RangeValue(from, to)];
    }

    /** OnTouch: record the point, return early when it lies outside the
        thumbs canvas horizontally, otherwise dispatch on the action. */
    method OnTouch(e: T.TouchEvent) returns (thrown: bool)
      modifies this
      ensures State() == T.OnTouch(old(State()), e)
      ensures thrown <==> T.Throws(old(State()), e)
    {
      thrown := false;
      touch := touch.(current := e.location);
      var rect := thumbsCanvas.ImageRect();
      if touch.current.x < rect.left || touch.current.x > rect.right {
        return;
      }
      match e.kind {
        case Pressed =>
          Press(e.id);
        case Moved =>
          thrown := Move(e.id);
        case Released =>
          Release();
        case Cancelled =>
          Release();
        case Entered =>
        case Exited =>
      }
    }

    /** CheckThumbBounds on one side's drawing record: only that record's
        centre may move, horizontally, into the thumbs canvas rectangle. */
    method CheckThumbBounds(side: T.ActiveThumb)
      modifies this
      ensures leftDraw == if side == T.Left then Geometry.CheckThumbBounds(old(leftDraw), thumbsCanvas.ImageRect()) else old(leftDraw)
      ensures rightDraw == if side == T.Right then Geometry.CheckThumbBounds(old(rightDraw), thumbsCanvas.ImageRect()) else old(rightDraw)
      ensures State() == old(State()).(leftDraw := leftDraw, rightDraw := rightDraw)
    {
      var d := Geometry.CheckThumbBounds(State().Draw(side), thumbsCanvas.ImageRect());
      if side == T.Left {
        leftDraw := d;
      } else {
        rightDraw := d;
      }
    }

    /** DrawThumb for one side: cache the percentage and, unless it is the
        sentinel, set that thumb's radius and centre and clamp it into the
        canvas. `drawn` tells whether the circle was drawn. */
    method DrawThumb(side: T.ActiveThumb) returns (drawn: bool)
      modifies this
      ensures State() == T.DrawThumb(old(State()), side)
      ensures drawn == T.Drawable(old(State()), side)
    {
      var thumb := if side == T.Left then leftThumb else rightThumb;
      var percentage := GetXPercentage(values, thumb.value);
      if |values| > 0 {
        lastPercentage := percentage;
      }
      if percentage == -1.0 {
        return false;
      }
      ghost var before := State();
      var mid := thumbsCanvas.MidY() as real;
      var radius := mid - mid * 0.5;
      var point := Point(AtFraction(percentage, thumbsCanvas.width as real), mid);
      assert radius == ThumbRadius(thumbsCanvas);
      if side == T.Left {
        leftDraw := leftDraw.(radius := radius, point := point);
      } else {
        rightDraw := rightDraw.(radius := radius, point := point);
      }
      assert State().Draw(side) == PositionThumb(percentage, thumbsCanvas, before.Draw(side));
      CheckThumbBounds(side);
      drawn := true;
    }

    /** ThumbsCanvas_OnPaintSurface: take the canvas size and draw the
        inactive thumb, then the active one. `drawn` lists the thumbs whose
        circles were drawn, in drawing order. */
    method PaintThumbs(canvas: CanvasInfo) returns (drawn: seq<T.ActiveThumb>)
      modifies this
      ensures State() == T.PaintThumbs(old(State()), canvas)
      ensures drawn == T.DrawnThumbs(old(State()))
    {
      thumbsCanvas := canvas;
      var first := activeThumb.Other();
      var second := activeThumb;
      var drewFirst := DrawThumb(first);
      var drewSecond := DrawThumb(second);
      drawn := (if drewFirst then [first] else []) + (if drewSecond then [second] else []);
    }

    /** SegmentsCanvas_OnPaintSurface, as far as the logic reads it: the
        segments canvas size that later moves measure against. */
    method PaintSegments(canvas: CanvasInfo)
      modifies this
      ensures State() == old(State()).(segmentsCanvas := canvas)
    {
      segmentsCanvas := canvas;
    }

    /** The Thumbs branch of OnPropertyChanged, with the new thumbs. */
    method SetThumbs(left: ThumbOptions<V>, right: ThumbOptions<V>)
      modifies this
      ensures State() == T.SetThumbs(old(State()), left, right)
    {
      leftThumb := left;
      rightThumb := right;
      from := Some(left.value);
      to := Some(right.value);
    }
  }
}
