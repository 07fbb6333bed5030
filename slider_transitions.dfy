// The range slider's behaviour as transitions of its whole state: the touch
// handler (press, move, release), the thumbs paint pass and the Thumbs
// property change. The class in module Content performs these same steps in
// place, field by field, and is proved to reach exactly the states given here;
// the lemmas at the end follow whole gestures through the handler.
module SliderTransitions {
  import opened Models
  import opened Geometry
  import opened ValueDomain

  /** Which thumb a drag moves. There is no "none": the default is Left. */
  datatype ActiveThumb = Left | Right {
    function Other(): (o: ActiveThumb)
      ensures o != this
    {
      if this == Left then Right else Left
    }
  }

  datatype TouchActionType = Entered | Pressed | Moved | Released | Cancelled | Exited

  /** One pointer event, its location already converted to canvas pixels. */
  datatype TouchEvent = TouchEvent(id: int, kind: TouchActionType, location: Point)

  /** The tracked pointer: its id and its current and previous pixel points. */
  datatype Touch = Touch(id: int, current: Point, previous: Point)

  /** Everything the slider's logic reads or writes. `from`, `to` and
      `isMoving` are the bindable outputs; `released` records, in order, every
      (From, To) pair handed to the release command. */
  datatype Slider<V> = Slider(
    values: seq<V>,
    leftThumb: ThumbOptions<V>,
    rightThumb: ThumbOptions<V>,
    from: Option<V>,
    to: Option<V>,
    isMoving: Option<bool>,
    released: seq<RangeValue<V>>,
    activeThumb: ActiveThumb,
    lastActiveThumb: ActiveThumb,
    lastPercentage: real,
    touch: Touch,
    leftDraw: ThumbDraw,
    rightDraw: ThumbDraw,
    thumbsCanvas: CanvasInfo,
    segmentsCanvas: CanvasInfo)
  {
    function Thumb(side: ActiveThumb): ThumbOptions<V> {
      if side == Left then leftThumb else rightThumb
    }

    function Draw(side: ActiveThumb): ThumbDraw {
      if side == Left then leftDraw else rightDraw
    }

    /** The output a thumb mirrors its value into: From for Left, To for Right. */
    function Bound(side: ActiveThumb): Option<V> {
      if side == Left then from else to
    }
  }

  /** The configuration and outputs agree: same candidates, thumbs, From,
      To and callback log. */
  ghost predicate SameBinding<V>(s: Slider<V>, t: Slider<V>) {
    t.values == s.values && t.leftThumb == s.leftThumb && t.rightThumb == s.rightThumb
    && t.from == s.from && t.to == s.to && t.released == s.released
  }

  /** A slider just constructed and given its candidates and thumbs: the
      Thumbs property change has seeded From and To, every other field holds
      its default (pointer id 0, Left active, empty drawing records, zero-size
      canvases). Before the first paint no press can hit a thumb. */
  function Initial<V>(values: seq<V>, left: ThumbOptions<V>, right: ThumbOptions<V>): (s: Slider<V>)
    ensures s.values == values && s.leftThumb == left && s.rightThumb == right
    ensures s.from == Some(left.value) && s.to == Some(right.value)
    ensures s.touch.id == 0 && s.activeThumb == Left && s.lastActiveThumb == Left
    ensures s.released == [] && s.isMoving == None
    ensures forall p: Point :: !HitBox(s.leftDraw).Contains(p) && !HitBox(s.rightDraw).Contains(p)
  {
    Slider(values, left, right, Some(left.value), Some(right.value), None, [],
           Left, Left, 0.0, Touch(0, Point(0.0, 0.0), Point(0.0, 0.0)),
           EmptyDraw, EmptyDraw, CanvasInfo(0, 0), CanvasInfo(0, 0))
  }

  /** The handler's bounds test: the event's x lies within the thumbs
      canvas rectangle, both edges included. It looks at x alone, and unlike
      the rectangle's own Contains it admits the right edge. */
  predicate InTrack(canvas: CanvasInfo, p: Point): (b: bool)
    ensures b <==> 0.0 <= p.x <= canvas.width as real
    ensures canvas.ImageRect().Contains(p) ==> b
    ensures p.x == canvas.width as real ==> b && !canvas.ImageRect().Contains(p)
  {
    canvas.ImageRect().left <= p.x <= canvas.ImageRect().right
  }

  /** Which thumb a press at `p` takes hold of: the last active one when it
      falls in both hit-boxes, otherwise the one whose hit-box holds it, and
      none when it falls in neither. */
  function ResolvePress(leftBox: Rect, rightBox: Rect, p: Point, last: ActiveThumb): (r: Option<ActiveThumb>)
    ensures r.None? <==> !leftBox.Contains(p) && !rightBox.Contains(p)
    ensures leftBox.Contains(p) && rightBox.Contains(p) ==> r == Some(last)
    ensures leftBox.Contains(p) && !rightBox.Contains(p) ==> r == Some(Left)
    ensures !leftBox.Contains(p) && rightBox.Contains(p) ==> r == Some(Right)
    ensures r.Some? ==> (if r.value == Left then leftBox else rightBox).Contains(p)
  {
    if leftBox.Contains(p) && rightBox.Contains(p) then Some(last)
    else if leftBox.Contains(p) then Some(Left)
    else if rightBox.Contains(p) then Some(Right)
    else None
  }

  /** Pressed: IsMoving becomes true and both hit-boxes are recomputed from
      the last painted geometry; a press that hits a thumb tracks the
      pointer and activates that thumb, a press that hits none leaves the
      tracked pointer and the active thumb as they were. */
  function Press<V>(s: Slider<V>, id: int): (t: Slider<V>)
    ensures SameBinding(s, t)
    ensures t.isMoving == Some(true)
    ensures t.leftDraw == s.leftDraw.(bounds := HitBox(s.leftDraw))
    ensures t.rightDraw == s.rightDraw.(bounds := HitBox(s.rightDraw))
    ensures t.lastActiveThumb == s.lastActiveThumb && t.lastPercentage == s.lastPercentage
    ensures t.thumbsCanvas == s.thumbsCanvas && t.segmentsCanvas == s.segmentsCanvas
    ensures var hit := ResolvePress(HitBox(s.leftDraw), HitBox(s.rightDraw), s.touch.current, s.lastActiveThumb);
            (hit.None? ==> t.touch == s.touch && t.activeThumb == s.activeThumb)
            && (hit.Some? ==> t.touch == Touch(id, s.touch.current, s.touch.current) && t.activeThumb == hit.value)
  {
    var lb := HitBox(s.leftDraw);
    var rb := HitBox(s.rightDraw);
    var s1 := s.(isMoving := Some(true), leftDraw := s.leftDraw.(bounds := lb), rightDraw := s.rightDraw.(bounds := rb));
    match ResolvePress(lb, rb, s.touch.current, s.lastActiveThumb)
    case None => s1
    case Some(a) => s1.(touch := s1.touch.(id := id, previous := s1.touch.current), activeThumb := a)
  }

  /** The candidate under the current touch point, read against the
      segments canvas width. */
  function ValueUnderTouch<V>(s: Slider<V>): Option<V> {
    GetThumbValue(s.values, s.segmentsCanvas.width, s.touch.current.x)
  }

  /** Moved: only for the tracked pointer. The previous point catches up
      with the current one, and the candidate under the pointer is written
      into the active thumb's value and mirrored into its output (From for
      Left, To for Right); the other thumb and the other output keep theirs.
      When no candidate can be read the source throws after the previous
      point was updated; see Throws. */
  function Move<V>(s: Slider<V>, id: int): (t: Slider<V>)
    ensures s.touch.id != id ==> t == s
    ensures s.touch.id == id ==> t.touch == s.touch.(previous := s.touch.current)
    ensures t.values == s.values && t.released == s.released && t.isMoving == s.isMoving
    ensures t.activeThumb == s.activeThumb && t.lastActiveThumb == s.lastActiveThumb
    ensures t.leftDraw == s.leftDraw && t.rightDraw == s.rightDraw && t.lastPercentage == s.lastPercentage
    ensures t.thumbsCanvas == s.thumbsCanvas && t.segmentsCanvas == s.segmentsCanvas
    ensures var a := s.activeThumb;
            t.Thumb(a.Other()) == s.Thumb(a.Other()) && t.Bound(a.Other()) == s.Bound(a.Other())
    ensures var a := s.activeThumb;
            s.touch.id == id && ValueUnderTouch(s).Some? ==>
              t.Thumb(a) == s.Thumb(a).(value := ValueUnderTouch(s).value)
              && t.Bound(a) == ValueUnderTouch(s)
    ensures ValueUnderTouch(s).None? ==> SameBinding(s, t)
  {
    if s.touch.id != id then s
    else
      var s1 := s.(touch := s.touch.(previous := s.touch.current));
      match ValueUnderTouch(s)
      case None => s1
      case Some(v) =>
        if s.activeThumb == Left then s1.(leftThumb := s.leftThumb.(value := v), from := Some(v))
        else s1.(rightThumb := s.rightThumb.(value := v), to := Some(v))
  }

  /** Released or Cancelled: the pointer is no longer tracked, the active
      thumb becomes the last active one, IsMoving becomes false and exactly
      one callback is recorded, carrying the current From and To. */
  function Release<V>(s: Slider<V>): (t: Slider<V>)
    ensures t.released == s.released + [RangeValue(s.from, s.to)]
    ensures t.touch == s.touch.(id := -1)
    ensures t.lastActiveThumb == s.activeThumb && t.activeThumb == s.activeThumb
    ensures t.isMoving == Some(false)
    ensures t.values == s.values && t.leftThumb == s.leftThumb && t.rightThumb == s.rightThumb
    ensures t.from == s.from && t.to == s.to
    ensures t.leftDraw == s.leftDraw && t.rightDraw == s.rightDraw && t.lastPercentage == s.lastPercentage
    ensures t.thumbsCanvas == s.thumbsCanvas && t.segmentsCanvas == s.segmentsCanvas
  {
    s.(touch := s.touch.(id := -1), lastActiveThumb := s.activeThumb, isMoving := Some(false),
       released := s.released + [RangeValue(s.from, s.to)])
  }

  /** A Released or Cancelled event that passes the bounds test. */
  predicate FiresCallback(canvas: CanvasInfo, e: TouchEvent) {
    InTrack(canvas, e.location) && (e.kind == Released || e.kind == Cancelled)
  }

  /** OnTouch: record the event's point as current; an event outside the
      track's horizontal bounds changes nothing else (a release there fires
      no callback); otherwise dispatch on the event's kind. Entered and
      Exited are not handled. Only a release appends to the callback log. */
  function OnTouch<V>(s: Slider<V>, e: TouchEvent): (t: Slider<V>)
    ensures !InTrack(s.thumbsCanvas, e.location) ==> t == s.(touch := s.touch.(current := e.location))
    ensures t.touch.current == e.location
    ensures t.values == s.values
    ensures t.thumbsCanvas == s.thumbsCanvas && t.segmentsCanvas == s.segmentsCanvas
    ensures t.released == s.released + (if FiresCallback(s.thumbsCanvas, e) then [RangeValue(s.from, s.to)] else [])
  {
    var s1 := s.(touch := s.touch.(current := e.location));
    if !InTrack(s.thumbsCanvas, e.location) then s1
    else
      match e.kind
      case Pressed => Press(s1, e.id)
      case Moved => Move(s1, e.id)
      case Released => Release(s1)
      case Cancelled => Release(s1)
      case Entered => s1
      case Exited => s1
  }

  /** The event makes the source throw: a move of the tracked pointer when no
      candidate can be read (no candidates, or a zero-width segments canvas). */
  predicate Throws<V>(s: Slider<V>, e: TouchEvent) {
    InTrack(s.thumbsCanvas, e.location) && e.kind == Moved && s.touch.id == e.id
    && GetThumbValue(s.values, s.segmentsCanvas.width, e.location.x).None?
  }

  /** Feed a sequence of events to the handler, in order. */
  function Run<V>(s: Slider<V>, events: seq<TouchEvent>): Slider<V>
    decreases |events|
  {
    if |events| == 0 then s else Run(OnTouch(s, events[0]), events[1..])
  }

  /** The order in which a paint pass draws the thumbs: the active thumb
      last, so that it lies on top. */
  function DrawOrder(active: ActiveThumb): (order: (ActiveThumb, ActiveThumb))
    ensures order.1 == active && order.0 != active
    ensures order.0 == active.Other()
  {
    (active.Other(), active)
  }

  /** A thumb is drawn when its percentage is not the -1 sentinel. */
  predicate Drawable<V(==)>(s: Slider<V>, side: ActiveThumb) {
    GetXPercentage(s.values, s.Thumb(side).value) != -1.0
  }

  /** DrawThumb's effect on the state: with candidates present the
      percentage is cached; unless it is the sentinel, the thumb's centre and
      radius are recomputed on the thumbs canvas and clamped into it. */
  function DrawThumb<V(==)>(s: Slider<V>, side: ActiveThumb): (t: Slider<V>)
    ensures var p := GetXPercentage(s.values, s.Thumb(side).value);
            t.lastPercentage == (if |s.values| > 0 then p else s.lastPercentage)
            && t.Draw(side) == (if p == -1.0 then s.Draw(side) else PlaceThumb(p, s.thumbsCanvas, s.Draw(side)))
    ensures t.Draw(side.Other()) == s.Draw(side.Other())
    ensures t == s.(lastPercentage := t.lastPercentage, leftDraw := t.leftDraw, rightDraw := t.rightDraw)
  {
    var p := GetXPercentage(s.values, s.Thumb(side).value);
    var s1 := if |s.values| > 0 then s.(lastPercentage := p) else s;
    if p == -1.0 then s1
    else
      var d := PlaceThumb(p, s.thumbsCanvas, s.Draw(side));
      if side == Left then s1.(leftDraw := d) else s1.(rightDraw := d)
  }

  /** The thumbs paint pass: take the new canvas size, then draw the
      inactive thumb and the active thumb, in that order. Every thumb drawn
      ends up placed for the new canvas (and inside it when the canvas's
      integer midline is at most its width); a thumb with no position keeps its old
      geometry. The cached percentage is the active thumb's, drawn last. */
  function PaintThumbs<V(==)>(s: Slider<V>, canvas: CanvasInfo): (t: Slider<V>)
    ensures t.thumbsCanvas == canvas
    ensures forall side :: Drawable(s, side) ==>
              t.Draw(side) == PlaceThumb(GetXPercentage(s.values, s.Thumb(side).value), canvas, s.Draw(side))
    ensures forall side :: Drawable(s, side) && canvas.MidY() <= canvas.width ==>
              Fits(t.Draw(side), canvas.ImageRect())
    ensures forall side :: !Drawable(s, side) ==> t.Draw(side) == s.Draw(side)
    ensures |s.values| > 0 ==> t.lastPercentage == GetXPercentage(s.values, s.Thumb(s.activeThumb).value)
    ensures |s.values| == 0 ==> t.lastPercentage == s.lastPercentage
    ensures t == s.(thumbsCanvas := canvas, lastPercentage := t.lastPercentage,
                    leftDraw := t.leftDraw, rightDraw := t.rightDraw)
  {
    var order := DrawOrder(s.activeThumb);
    DrawThumb(DrawThumb(s.(thumbsCanvas := canvas), order.0), order.1)
  }

  /** The thumbs whose circles a paint pass draws, in drawing order. */
  function DrawnThumbs<V(==)>(s: Slider<V>): (drawn: seq<ActiveThumb>)
    ensures forall side :: side in drawn <==> Drawable(s, side)
    ensures |drawn| <= 2 && (|drawn| == 2 ==> drawn[0] != drawn[1])
    ensures Drawable(s, s.activeThumb) ==> drawn[|drawn| - 1] == s.activeThumb
  {
    var order := DrawOrder(s.activeThumb);
    (if Drawable(s, order.0) then [order.0] else []) + (if Drawable(s, order.1) then [order.1] else [])
  }

  /** The Thumbs property change: new thumbs, and From and To seeded from
      their values. */
  function SetThumbs<V>(s: Slider<V>, left: ThumbOptions<V>, right: ThumbOptions<V>): (t: Slider<V>)
    ensures t.leftThumb == left && t.rightThumb == right
    ensures t.from == Some(left.value) && t.to == Some(right.value)
    ensures t == s.(leftThumb := left, rightThumb := right, from := t.from, to := t.to)
  {
    s.(leftThumb := left, rightThumb := right, from := Some(left.value), to := Some(right.value))
  }

  // ---------------------------------------------------------------------
  // Gestures: sequences of events through the handler.

  lemma {:induction false} RunAppend<V>(s: Slider<V>, a: seq<TouchEvent>, b: seq<TouchEvent>)
    ensures Run(s, a + b) == Run(Run(s, a), b)
    decreases |a|
  {
    if |a| == 0 {
      assert a + b == b;
    } else {
      assert (a + b)[1..] == a[1..] + b;
      RunAppend(OnTouch(s, a[0]), a[1..], b);
    }
  }

  /** How many events of a sequence fire the release callback. */
  function CallbackCount(canvas: CanvasInfo, events: seq<TouchEvent>): nat
    decreases |events|
  {
    if |events| == 0 then 0
    else (if FiresCallback(canvas, events[0]) then 1 else 0) + CallbackCount(canvas, events[1..])
  }

  /** The callback log only grows, by one entry per in-bounds Released or
      Cancelled event and by nothing else. */
  lemma {:induction false} RunCallbackCount<V>(s: Slider<V>, events: seq<TouchEvent>)
    ensures var t := Run(s, events);
            |t.released| == |s.released| + CallbackCount(s.thumbsCanvas, events)
            && t.released[..|s.released|] == s.released
            && t.thumbsCanvas == s.thumbsCanvas && t.values == s.values
    decreases |events|
  {
    if |events| > 0 {
      var s1 := OnTouch(s, events[0]);
      RunCallbackCount(s1, events[1..]);
      var t := Run(s1, events[1..]);
      assert t.released[..|s.released|] == t.released[..|s1.released|][..|s.released|];
    }
  }

  /** Every event of `moves` is a Moved event of the tracked pointer that
      passes the bounds test. */
  predicate IsDrag<V>(s: Slider<V>, id: int, moves: seq<TouchEvent>) {
    forall k :: 0 <= k < |moves| ==>
      moves[k].kind == Moved && moves[k].id == id && InTrack(s.thumbsCanvas, moves[k].location)
  }

  /** A drag by the tracked pointer leaves the active thumb, and its output,
      on the candidate under the drag's last point; the other thumb and its
      output, the active thumb and the callback log do not change. */
  lemma {:induction false} DragWritesLastMove<V>(s: Slider<V>, moves: seq<TouchEvent>)
    requires IsDrag(s, s.touch.id, moves) && |moves| > 0
    requires |s.values| > 0 && s.segmentsCanvas.width > 0
    ensures var t := Run(s, moves);
            var a := s.activeThumb;
            var v := GetThumbValue(s.values, s.segmentsCanvas.width, moves[|moves| - 1].location.x);
            v.Some?
            && t.Bound(a) == v && t.Thumb(a) == s.Thumb(a).(value := v.value)
            && t.Bound(a.Other()) == s.Bound(a.Other()) && t.Thumb(a.Other()) == s.Thumb(a.Other())
            && t.activeThumb == a && t.lastActiveThumb == s.lastActiveThumb
            && t.touch.id == s.touch.id && t.released == s.released && t.values == s.values
            && t.thumbsCanvas == s.thumbsCanvas && t.segmentsCanvas == s.segmentsCanvas
    decreases |moves|
  {
    var s1 := OnTouch(s, moves[0]);
    assert moves[0].kind == Moved && moves[0].id == s.touch.id && InTrack(s.thumbsCanvas, moves[0].location);
    if |moves| > 1 {
      var rest := moves[1..];
      assert IsDrag(s1, s1.touch.id, rest) by {
        forall k | 0 <= k < |rest|
          ensures rest[k].kind == Moved && rest[k].id == s1.touch.id && InTrack(s1.thumbsCanvas, rest[k].location)
        {
          assert rest[k] == moves[k + 1];
        }
      }
      DragWritesLastMove(s1, rest);
      assert rest[|rest| - 1] == moves[|moves| - 1];
    }
  }

  /** The release-callback rule for one whole gesture: a press that takes
      hold of a thumb, any number of moves of that pointer and a release, all
      within the track, append exactly one callback. It carries the
      candidate under the last move in the active thumb's output, or the
      outputs as they were when there was no move. */
  lemma GestureFiresOnce<V>(s: Slider<V>, press: TouchEvent, moves: seq<TouchEvent>, release: TouchEvent)
    requires press.kind == Pressed && InTrack(s.thumbsCanvas, press.location)
    requires ResolvePress(HitBox(s.leftDraw), HitBox(s.rightDraw), press.location, s.lastActiveThumb).Some?
    requires IsDrag(s, press.id, moves)
    requires FiresCallback(s.thumbsCanvas, release)
    requires |s.values| > 0 && s.segmentsCanvas.width > 0
    ensures var a := ResolvePress(HitBox(s.leftDraw), HitBox(s.rightDraw), press.location, s.lastActiveThumb).value;
            var t := Run(s, [press] + moves + [release]);
            t.lastActiveThumb == a && t.touch.id == -1 && t.isMoving == Some(false)
            && (|moves| == 0 ==> t.released == s.released + [RangeValue(s.from, s.to)])
            && (|moves| > 0 ==>
                  var v := GetThumbValue(s.values, s.segmentsCanvas.width, moves[|moves| - 1].location.x);
                  t.released == s.released
                    + [if a == Left then RangeValue(v, s.to) else RangeValue(s.from, v)])
  {
    var a := ResolvePress(HitBox(s.leftDraw), HitBox(s.rightDraw), press.location, s.lastActiveThumb).value;
    var s1 := OnTouch(s, press);
    assert s1 == Press(s.(touch := s.touch.(current := press.location)), press.id);
    assert s1.activeThumb == a && s1.touch.id == press.id && SameBinding(s, s1);
    RunAppend(s, [press] + moves, [release]);
    RunAppend(s, [press], moves);
    assert Run(s, [press]) == s1;
    var s2 := Run(s1, moves);
    assert Run(s, [press] + moves + [release]) == Run(s2, [release]);
    assert Run(s2, [release]) == OnTouch(s2, release);
    if |moves| > 0 {
      assert IsDrag(s1, s1.touch.id, moves);
      DragWritesLastMove(s1, moves);
    } else {
      assert s2 == s1;
    }
  }

  /** A press that misses both thumbs does not stop the next move: a move
      whose pointer id equals the id still tracked from before writes the
      active thumb. A slider that has not yet seen a release tracks id 0,
      so the pointer numbered 0 drags the Left thumb even from a missed press. */
  lemma MissedPressStillDrags<V>(s: Slider<V>, p: Point, q: Point)
    requires InTrack(s.thumbsCanvas, p) && InTrack(s.thumbsCanvas, q)
    requires ResolvePress(HitBox(s.leftDraw), HitBox(s.rightDraw), p, s.lastActiveThumb).None?
    requires |s.values| > 0 && s.segmentsCanvas.width > 0
    ensures var id := s.touch.id;
            var t := Run(s, [TouchEvent(id, Pressed, p), TouchEvent(id, Moved, q)]);
            t.activeThumb == s.activeThumb
            && t.Bound(s.activeThumb) == GetThumbValue(s.values, s.segmentsCanvas.width, q.x)
  {
    var id := s.touch.id;
    var s1 := OnTouch(s, TouchEvent(id, Pressed, p));
    assert s1.touch.id == id && s1.activeThumb == s.activeThumb;
    var s2 := OnTouch(s1, TouchEvent(id, Moved, q));
    assert Run(s, [TouchEvent(id, Pressed, p), TouchEvent(id, Moved, q)]) == s2 by {
      var evs := [TouchEvent(id, Pressed, p), TouchEvent(id, Moved, q)];
      assert evs[1..] == [TouchEvent(id, Moved, q)];
      assert Run(s1, evs[1..]) == Run(s2, []);
    }
  }

  /** Clamping and reading back do not commute at the right end: pressing
      the centre of the thumb drawn for the first candidate reads the first
      candidate, but pressing the centre of the thumb drawn for the last one
      reads the candidate before it (when the radius is positive, so the
      canvas is at least two pixels high, and below one step). */
  lemma ClampedEndsReadBack<V>(values: seq<V>, canvas: CanvasInfo, d: ThumbDraw)
    requires |values| >= 2 && canvas.height >= 2
    requires canvas.MidY() * (|values| - 1) < 2 * canvas.width
    ensures GetThumbValue(values, canvas.width, PlaceThumb(0.0, canvas, d).point.x) == Some(values[0])
    ensures GetThumbValue(values, canvas.width, PlaceThumb(1.0, canvas, d).point.x) == Some(values[|values| - 2])
  {
    var w := canvas.width as real;
    var r := ThumbRadius(canvas);
    RadiusBelowStep(canvas, |values| - 1);
    PlaceThumbAtEnds(canvas, d);
    assert PlaceThumb(0.0, canvas, d).point.x == r;
    assert PlaceThumb(1.0, canvas, d).point.x == w - r;
    NearStartReadsFirst(values, canvas.width, r);
    NearEndReadsPenultimate(values, canvas.width, r);
  }

  /** On a canvas less than two pixels high the midline is 0, so the radius
      is 0 and nothing is clamped: the thumbs at 0 and at 1 stand on the two
      ends of the track and read back the first and the last candidate. */
  lemma FlatCanvasEndsReadBack<V>(values: seq<V>, canvas: CanvasInfo, d: ThumbDraw)
    requires |values| >= 1 && canvas.height <= 1 && canvas.width > 0
    ensures PlaceThumb(0.0, canvas, d).point.x == 0.0
    ensures PlaceThumb(1.0, canvas, d).point.x == canvas.width as real
    ensures GetThumbValue(values, canvas.width, PlaceThumb(0.0, canvas, d).point.x) == Some(values[0])
    ensures GetThumbValue(values, canvas.width, PlaceThumb(1.0, canvas, d).point.x) == Some(values[|values| - 1])
  {
    var w := canvas.width as real;
    var n := |values|;
    assert ThumbRadius(canvas) == 0.0;
    assert PlaceThumb(1.0, canvas, d).point.x == AtFraction(1.0, w);
    ScaledCentre(1.0, w, n);
    ScaledCentre(0.0, w, n);
    assert PixelIndex(AtFraction(1.0, w), w, n) == n - 1;
    assert PixelIndex(AtFraction(0.0, w), w, n) == 0;
    ReadsAtIndex(values, canvas.width, AtFraction(1.0, w), n - 1);
    ReadsAtIndex(values, canvas.width, AtFraction(0.0, w), 0);
  }

  /** Pressed at 0 and at 1, a thumb is clamped one radius inside the
      canvas whenever its radius is at most the canvas width. */
  lemma PlaceThumbAtEnds(canvas: CanvasInfo, d: ThumbDraw)
    requires canvas.MidY() <= 2 * canvas.width
    ensures PlaceThumb(0.0, canvas, d).point.x == ThumbRadius(canvas)
    ensures PlaceThumb(1.0, canvas, d).point.x == canvas.width as real - ThumbRadius(canvas)
  {
  }

  /** The integer condition of ClampedEndsReadBack, read on the radius. */
  lemma RadiusBelowStep(canvas: CanvasInfo, m: nat)
    requires canvas.height >= 2 && canvas.MidY() * m < 2 * canvas.width
    ensures 0.0 < ThumbRadius(canvas)
    ensures ThumbRadius(canvas) * m as real < canvas.width as real
    ensures 0 < canvas.width
  {
    var mid := canvas.MidY();
    assert (mid * m) as real == mid as real * m as real;
    assert ThumbRadius(canvas) == mid as real / 2.0;
  }
}

module SliderScenarios {
  import opened Models
  import opened Geometry
  import opened ValueDomain
  import opened SliderTransitions

  /** The candidates 0, 10, ..., 100. */
  function Tens(): (s: seq<int>)
    ensures |s| == 11 && Distinct(s)
    ensures forall i :: 0 <= i < 11 ==> s[i] == 10 * i
  {
    seq(11, i => 10 * i)
  }

  /** A slider on 0..100 in steps of ten, thumbs on 0 and 100, after both
      canvases were painted 220 pixels wide and 40 high. */
  function Painted(): Slider<int> {
    var canvas := CanvasInfo(220, 40);
    PaintThumbs(Initial(Tens(), NewThumbOptions(0), NewThumbOptions(100)), canvas).(segmentsCanvas := canvas)
  }

  /** Pressing the left end takes hold of the Left thumb (clamped to x = 10),
      dragging to the middle pixel 110 reads index 5, and releasing there
      hands (50, 100) to the release command. */
  lemma DragLeftThumbToMiddle()
    ensures var t := Run(Painted(), [TouchEvent(1, Pressed, Point(0.0, 20.0)),
                                     TouchEvent(1, Moved, Point(110.0, 20.0)),
                                     TouchEvent(1, Released, Point(110.0, 20.0))]);
            t.released == [RangeValue(Some(50), Some(100))] && t.from == Some(50) && t.leftThumb.value == 50
  {
    PaintedGeometry();
    DragFromLeftEnd(Painted());
  }

  /** The same gesture on any slider whose thumbs and outputs are as
      Painted leaves them. */
  lemma DragFromLeftEnd(s: Slider<int>)
    requires s.leftDraw.point == Point(10.0, 20.0) && s.leftDraw.radius == 10.0
    requires s.rightDraw.point == Point(210.0, 20.0) && s.rightDraw.radius == 10.0
    requires s.thumbsCanvas == CanvasInfo(220, 40) && s.segmentsCanvas == CanvasInfo(220, 40)
    requires s.values == Tens() && s.to == Some(100) && s.released == []
    ensures var t := Run(s, [TouchEvent(1, Pressed, Point(0.0, 20.0)),
                             TouchEvent(1, Moved, Point(110.0, 20.0)),
                             TouchEvent(1, Released, Point(110.0, 20.0))]);
            t.released == [RangeValue(Some(50), Some(100))] && t.from == Some(50) && t.leftThumb.value == 50
  {
    var press := TouchEvent(1, Pressed, Point(0.0, 20.0));
    var move := TouchEvent(1, Moved, Point(110.0, 20.0));
    var release := TouchEvent(1, Released, Point(110.0, 20.0));
    var s1 := OnTouch(s, press);
    assert s1.activeThumb == Left && s1.touch.id == 1 && SameBinding(s, s1);
    MiddleReadsFifty();
    var s2 := OnTouch(s1, move);
    assert s2.from == Some(50) && s2.to == Some(100) && s2.released == [];
    var s3 := OnTouch(s2, release);
    var evs := [press, move, release];
    assert evs[1..] == [move, release] && [move, release][1..] == [release];
    assert Run(s2, [release]) == Run(s3, []) == s3;
    assert Run(s1, [move, release]) == Run(s2, [release]);
    assert Run(s, evs) == Run(s1, [move, release]);
  }

  /** After the paint pass the Left thumb sits at (10, 20) and the Right
      thumb at (210, 20), both of radius 10; nothing else was touched. */
  lemma PaintedGeometry()
    ensures var s := Painted();
            s.leftDraw.point == Point(10.0, 20.0) && s.leftDraw.radius == 10.0
            && s.rightDraw.point == Point(210.0, 20.0) && s.rightDraw.radius == 10.0
            && s.thumbsCanvas == CanvasInfo(220, 40) && s.segmentsCanvas == CanvasInfo(220, 40)
            && s.values == Tens() && s.from == Some(0) && s.to == Some(100) && s.released == []
            && s.touch.id == 0 && s.activeThumb == Left && s.lastActiveThumb == Left
            && s.leftThumb.value == 0 && s.rightThumb.value == 100
  {
    var c := CanvasInfo(220, 40);
    var s0 := Initial(Tens(), NewThumbOptions(0), NewThumbOptions(100));
    TensPercentages();
    assert s0.Thumb(Left).value == 0 && s0.Thumb(Right).value == 100;
    assert Drawable(s0, Left) && Drawable(s0, Right);
    PlaceThumbAtEnds(c, EmptyDraw);
    var t := PaintThumbs(s0, c);
    assert t.leftDraw == PlaceThumb(0.0, c, EmptyDraw);
    assert t.rightDraw == PlaceThumb(1.0, c, EmptyDraw);
  }

  /** The thumbs on 0 and on 100 stand at the two ends of the track. */
  lemma TensPercentages()
    ensures GetXPercentage(Tens(), 0) == 0.0 && GetXPercentage(Tens(), 100) == 1.0
  {
    var vs := Tens();
    IndexOfDistinct(vs, 0);
    IndexOfDistinct(vs, 10);
  }

  lemma MiddleReadsFifty()
    ensures GetThumbValue(Tens(), 220, 110.0) == Some(50)
  {
    assert Scaled(110.0, 220.0, 11) == 5.0;
    assert Trunc(5.0) == 5;
  }

  /** With no candidates no thumb is drawn, so their hit-boxes stay empty and
      a press anywhere on the track takes hold of neither thumb. */
  lemma EmptyValuesNeverActivate<V>(left: ThumbOptions<V>, right: ThumbOptions<V>, canvas: CanvasInfo, p: Point, id: int)
    requires InTrack(canvas, p)
    ensures var s := PaintThumbs(Initial([], left, right), canvas);
            var t := OnTouch(s, TouchEvent(id, Pressed, p));
            DrawnThumbs(Initial([], left, right)) == [] && t.activeThumb == Left && t.touch.id == 0
  {
    var s0 := Initial([], left, right);
    assert !Drawable(s0, Left) && !Drawable(s0, Right);
    var s := PaintThumbs(s0, canvas);
    assert s.leftDraw == EmptyDraw && s.rightDraw == EmptyDraw;
  }
}
