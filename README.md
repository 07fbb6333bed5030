# Range slider: a verified model

This project models the logic of the Xamarin.Forms range slider in
`Component/Content/RangeSlider.xaml.cs`. The control shows an ordered list
of candidate values as a horizontal track with two thumbs. The left thumb
sets `From` and the right thumb sets `To`. Dragging a thumb moves it from
candidate to candidate. Lifting the finger hands the pair `(From, To)` to a
release command.

The model has five modules:

- `Models` (`models.dfy`): the thumb options record, with its default icon
  scale of 0.75, and the `(From, To)` pair.
- `ValueDomain` (`value_domain.dfy`): the two mappings between candidates and
  the track.
  - `GetXPercentage` maps a candidate to `index / (n - 1)`, or to the
    sentinel -1.
  - `GetThumbValue` maps a pixel back to a candidate. It truncates toward
    zero, takes the absolute value, and falls back to the first candidate.
- `Geometry` (`geometry.dfy`): a thumb's radius and centre on the thumbs
  canvas, the clamp that keeps the circle inside the canvas
  (`CheckThumbBounds`), the press hit-box, and the value label's x position.
- `SliderTransitions` (`slider_transitions.dfy`): the control's whole state
  as a value (`Slider`).
  - The touch handler's Press, Move and Release, the paint pass and the
    Thumbs property change are written as functions from state to state.
  - The lemmas follow whole gestures through the handler.
  - `SliderScenarios`, in the same file, works two concrete cases.
- `Content` (`range_slider.dfy`): the class `RangeSlider`, whose fields are
  the control's private fields. Its methods update those fields in place,
  step by step, as the source does. Each method is proved to reach exactly
  the state that the matching `SliderTransitions` function gives. So every
  lemma about the transitions holds of the class.

Float pixel coordinates are `real`. C#'s `(int)` cast is `Trunc`, which
truncates toward zero. A C# `null` is `None`. The release command is
recorded as a log, `released`, that grows by one `(From, To)` pair per
callback. `SKRect.Contains` is taken with SkiaSharp's convention: the left
and top edges are inside, the right and bottom edges are not. The thumbs'
radius and centre height come from the vertical middle of the canvas's
integer rectangle (`SKRectI.MidY`), which is half the height rounded down
(`CanvasInfo.MidY`); the radius is half of that middle.

In two places the code behaves differently from what one would expect of
the control, and the model follows the code.
- One would expect moves after a press that missed both thumbs to be
  ignored. The code only compares pointer ids. The tracked id starts at 0
  and becomes -1 only on release, so pointer 0 can still drag the active
  thumb after a missed press. `SliderTransitions.MissedPressStillDrags`
  states this behaviour.
- One would expect an event outside the track to change nothing. The code
  records the event's point as the current touch point before it checks the
  bounds. `SliderTransitions.OnTouch` keeps that order: such an event
  changes the current point and nothing else.

## Model

| member | source | states |
|---|---|---|
| Models.NewThumbOptions | Component/Models/RangeSliderThumbOptions.cs:4-17 | a fresh options record has icon scale 0.75, no colours and no icon, and carries the value it was given |
| ValueDomain.IndexOf | Component/Content/RangeSlider.xaml.cs:303 | the result is -1 exactly when the value is absent; otherwise it is a position holding the value |
| ValueDomain.IndexOfFirst | Component/Content/RangeSlider.xaml.cs:303 | no position before the one IndexOf returns holds the value: it is the first occurrence, as List.IndexOf promises |
| ValueDomain.IndexRatio | Component/Content/RangeSlider.xaml.cs:306 | the ratio times (n - 1) gives back the index; it lies in [0, 1] for an index found, and it is negative for -1 (equal to -1 only when n = 2) |
| ValueDomain.GetXPercentage | Component/Content/RangeSlider.xaml.cs:297-309 | with no values (or one) the result is the sentinel -1; a present value gets a fraction in [0, 1] that times (n - 1) is its index; an absent value gets a negative result, which collides with the sentinel exactly when n = 2 |
| ValueDomain.Trunc | Component/Content/RangeSlider.xaml.cs:332 | the (int) cast rounds toward zero: down for non-negative inputs, up for negative ones |
| ValueDomain.PixelIndex | Component/Content/RangeSlider.xaml.cs:329-332 | the computed index is the floor of the magnitude of x / width * (n - 1), as Math.Abs over a truncating cast gives it |
| ValueDomain.GetThumbValue | Component/Content/RangeSlider.xaml.cs:326-340 | a candidate is returned exactly when there are candidates and the segments canvas has a width, and it is always one of the candidates |
| ValueDomain.IndexOfDistinct | Component/Content/RangeSlider.xaml.cs:303 | with distinct candidates, IndexOf finds each candidate at its own position |
| ValueDomain.PercentageMonotone | Component/Content/RangeSlider.xaml.cs:303-306 | for distinct candidates the thumb positions lie in [0, 1] and do not decrease along the list; position times (n - 1) is the index |
| ValueDomain.PixelOnTrackReadsFloor | Component/Content/RangeSlider.xaml.cs:328-339 | a pixel on the track reads the candidate at floor(x / width * (n - 1)), and that index is always in range |
| ValueDomain.PixelPastTrackReadsFirst | Component/Content/RangeSlider.xaml.cs:335-336 | a pixel whose computed index reaches n reads the first candidate, not the last |
| ValueDomain.MirroredPixelReadsSame | Component/Content/RangeSlider.xaml.cs:332 | because of Math.Abs, pixel -x reads the same candidate as pixel x |
| ValueDomain.NearStartReadsFirst | Component/Content/RangeSlider.xaml.cs:328-339 | a pixel less than one step from the track's left end reads the first candidate |
| ValueDomain.NearEndReadsPenultimate | Component/Content/RangeSlider.xaml.cs:328-339 | a pixel less than one step from the track's right end reads the second-to-last candidate |
| ValueDomain.CentreReadsBack | Component/Content/RangeSlider.xaml.cs:326-340 | the unclamped centre (i / (n - 1)) * width reads back candidate i |
| ValueDomain.PercentageRoundTrip | Component/Content/RangeSlider.xaml.cs:297-340 | a candidate placed at its percentage of the track width is read back as the same candidate |
| Geometry.HitBox | Component/Content/RangeSlider.xaml.cs:548-554 | a thumb's hit-box is centred on the thumb, 2 * radius wide and high; with radius 0 it contains no point |
| Geometry.CheckThumbBounds | Component/Content/RangeSlider.xaml.cs:342-348 | only the centre's x changes; a circle that fits is kept; overflow on the left gives left + radius, and overflow on the right only gives right - radius; when 2 * radius is at most the width the result fits |
| Geometry.CanvasInfo.MidY | Component/Content/RangeSlider.xaml.cs:416-417 | the integer rectangle's vertical middle is half the height rounded down: twice it is the height, or one less for an odd height |
| Geometry.ThumbRadius | Component/Content/RangeSlider.xaml.cs:416-417 | the radius is half the integer midline: a quarter of the height when it is even, a quarter of (height - 1) when it is odd; it is never negative and never above height / 4 |
| Geometry.PositionThumb | Component/Content/RangeSlider.xaml.cs:416-423 | before clamping, the centre is at the percentage of the canvas width on the integer midline, and twice the radius is that midline |
| Geometry.PlaceThumb | Component/Content/RangeSlider.xaml.cs:410-425 | the placed thumb's centre y is the integer midline and twice its radius is the midline; it fits the canvas whenever the midline is at most the width; an unclamped centre within [r, width - r] is kept |
| Geometry.GetThumbValueXPosition | Component/Content/RangeSlider.xaml.cs:454-462 | the label starts at the left edge, ends at the right edge, or is centred on the thumb, with the left test first; a label no wider than the canvas and measured from 0 stays inside it |
| SliderTransitions.ActiveThumb.Other | Component/Content/RangeSlider.xaml.cs:741-745 | there are exactly two thumbs, and Other gives the one that is not this one |
| SliderTransitions.Initial | Component/Content/RangeSlider.xaml.cs:17-42 | a fresh control tracks pointer id 0, has Left active and last active, IsMoving unset, no callbacks, and From/To seeded from the thumbs; no press can hit a thumb before the first paint |
| SliderTransitions.InTrack | Component/Content/RangeSlider.xaml.cs:534-536 | the bounds test admits exactly the x in [0, width], whatever y; every point of the canvas rectangle passes it, and so does the right edge, which the rectangle itself excludes |
| SliderTransitions.ResolvePress | Component/Content/RangeSlider.xaml.cs:557-578 | a press inside both hit-boxes picks the last active thumb, inside one picks that one, inside neither picks none; any thumb picked contains the point |
| SliderTransitions.Press | Component/Content/RangeSlider.xaml.cs:541-580 | IsMoving becomes true and both hit-boxes are recomputed; a hit tracks the pointer id and activates the thumb hit; a miss keeps the tracked pointer and the active thumb; From, To, thumbs and log are unchanged |
| SliderTransitions.Move | Component/Content/RangeSlider.xaml.cs:582-610 | with another pointer id nothing changes; with the tracked id the candidate under the pointer goes into exactly the active thumb's value and its output (From for Left, To for Right); the other thumb and output keep theirs |
| SliderTransitions.Release | Component/Content/RangeSlider.xaml.cs:612-627 | the tracked id becomes -1, the last active thumb becomes the active one, IsMoving becomes false, and exactly one callback with the current (From, To) is appended |
| SliderTransitions.OnTouch | Component/Content/RangeSlider.xaml.cs:527-629 | an event outside the track's x range only records its point; the callback log grows by one pair exactly for an in-track Released or Cancelled event |
| SliderTransitions.DrawOrder | Component/Content/RangeSlider.xaml.cs:673-692 | the active thumb is drawn second (on top) and the other thumb first |
| SliderTransitions.DrawThumb | Component/Content/RangeSlider.xaml.cs:403-428 | with candidates the percentage is cached; a thumb with a position is placed and clamped on the thumbs canvas; the sentinel leaves its geometry alone; the other thumb's geometry is unchanged |
| SliderTransitions.PaintThumbs | Component/Content/RangeSlider.xaml.cs:657-692 | the paint pass records the canvas; every drawable thumb is placed for it, and inside it when the integer midline is at most the width; undrawable thumbs keep their geometry; the cached percentage is the active thumb's |
| SliderTransitions.DrawnThumbs | Component/Content/RangeSlider.xaml.cs:673-692 | the circles drawn are exactly the drawable thumbs, each once, and a drawable active thumb is drawn last |
| SliderTransitions.SetThumbs | Component/Content/RangeSlider.xaml.cs:715-724 | the Thumbs property change stores the thumbs and seeds From and To from their values; nothing else changes |
| SliderTransitions.RunCallbackCount | Component/Content/RangeSlider.xaml.cs:612-627 | over any event sequence the log keeps its old entries as a prefix and grows by exactly the number of in-track Released or Cancelled events |
| SliderTransitions.DragWritesLastMove | Component/Content/RangeSlider.xaml.cs:582-610 | a drag by the tracked pointer leaves the active thumb and its output on the candidate under the last move; the other thumb, the active thumb and the log are unchanged |
| SliderTransitions.GestureFiresOnce | Component/Content/RangeSlider.xaml.cs:527-629 | press on a thumb, any moves, release: exactly one callback, carrying the candidate under the last move in the active thumb's output (or the old outputs when there was no move) |
| SliderTransitions.MissedPressStillDrags | Component/Content/RangeSlider.xaml.cs:582-583 | after a press that misses both thumbs, a move with the still-tracked pointer id writes the active thumb |
| SliderTransitions.ClampedEndsReadBack | Component/Content/RangeSlider.xaml.cs:326-348 | on a canvas at least two pixels high (so the radius is positive) whose radius is below one step, the clamped thumb at 0 reads the first candidate but the clamped thumb at 1 reads the second-to-last |
| SliderTransitions.FlatCanvasEndsReadBack | Component/Content/RangeSlider.xaml.cs:326-348 | on a canvas less than two pixels high the integer midline, and so the radius, is 0: nothing is clamped, the thumbs at 0 and 1 stand at x = 0 and x = width and read the first and the last candidate |
| SliderScenarios.PaintedGeometry | Component/Content/RangeSlider.xaml.cs:657-692 | on 0..100 in tens with a 220 x 40 canvas, the painted thumbs sit at x = 10 and x = 210 with radius 10 |
| SliderScenarios.DragLeftThumbToMiddle | Component/Content/RangeSlider.xaml.cs:527-629 | on that slider, press at x = 0, drag to x = 110 and release: From becomes 50 and the callback carries (50, 100) |
| SliderScenarios.MiddleReadsFifty | Component/Content/RangeSlider.xaml.cs:326-340 | pixel 110 of a 220-pixel track over 0..100 in tens reads 50 |
| SliderScenarios.EmptyValuesNeverActivate | Component/Content/RangeSlider.xaml.cs:294-301 | with no candidates no thumb is drawn, and a press anywhere on the track leaves Left active and the tracked pointer id at 0 |
| Content.RangeSlider.constructor | Component/Content/RangeSlider.xaml.cs:17-42 | the fields start in the state SliderTransitions.Initial describes |
| Content.RangeSlider.Press | Component/Content/RangeSlider.xaml.cs:541-580 | updating the fields in place reaches the state SliderTransitions.Press gives |
| Content.RangeSlider.Move | Component/Content/RangeSlider.xaml.cs:582-610 | the in-place update reaches SliderTransitions.Move's state; `thrown` is set exactly when the tracked pointer moves and no candidate can be read, the case the model treats as a throw |
| Content.RangeSlider.Release | Component/Content/RangeSlider.xaml.cs:612-627 | the in-place update reaches SliderTransitions.Release's state |
| Content.RangeSlider.OnTouch | Component/Content/RangeSlider.xaml.cs:527-629 | recording the point, testing the bounds and dispatching reaches SliderTransitions.OnTouch's state; `thrown` is set exactly when SliderTransitions.Throws holds, that is for an in-track move of the tracked pointer where no candidate can be read |
| Content.RangeSlider.CheckThumbBounds | Component/Content/RangeSlider.xaml.cs:342-348 | only the named side's drawing record changes, and it becomes Geometry.CheckThumbBounds of its old value |
| Content.RangeSlider.DrawThumb | Component/Content/RangeSlider.xaml.cs:403-428 | setting radius and centre, then clamping, reaches SliderTransitions.DrawThumb's state; it reports a drawn circle exactly for a drawable thumb |
| Content.RangeSlider.PaintThumbs | Component/Content/RangeSlider.xaml.cs:657-692 | the paint pass reaches SliderTransitions.PaintThumbs's state, and the circles it reports drawing are SliderTransitions.DrawnThumbs |
| Content.RangeSlider.PaintSegments | Component/Content/RangeSlider.xaml.cs:632-642 | only the segments canvas size changes |
| Content.RangeSlider.SetThumbs | Component/Content/RangeSlider.xaml.cs:715-724 | the in-place update reaches SliderTransitions.SetThumbs's state |

## Left out

- Drawing: circles, icons, segments, value labels, canvas clearing, paints, shadows and fonts are calls into SkiaSharp with no state the logic reads. `DrawSegments` and `DrawValues` are not modelled. Of the values canvas, only the label-position rule `GetThumbValueXPosition` is modelled.
- Colour parsing and the `#000000` fallback are library string parsing.
- Text metrics: `MeasureText` comes from the font library, so the label's measured bounds are a parameter of `GetThumbValueXPosition`.
- `ConvertValue` depends on locale-aware formatting and on casts that can throw.
- `Calculate` only scales strokes and margins by the canvas width.
- The repaint cascade (`InvalidateSurface`) and the Values and Segments branches of `OnPropertyChanged` only schedule repaints. A paint is modelled as an explicit call to `PaintThumbs` or `PaintSegments`.
- The host setting `From`, `To` or `Values` directly is not modelled. The thumbs are set through `SetThumbs` or the constructor.
- `SkiaSharpHelper.ToPixel` is not part of this model. Events arrive already converted to canvas pixels.
- The touch matrix is bookkeeping that no value computation reads.
- `ExecuteReleasedChangedCommand` and the command itself are replaced by the `released` log.
- `SKRect.Contains` is not shown in the source. It is modelled as half-open on the right and bottom edges, as SkiaSharp defines it.
- The null cases are left out.
  - Null `Values` is modelled as an empty list, which is what `HasValues` treats it as.
  - Null `Thumbs`, and thumbs with null values, are not modelled. The early returns that guard them are left out.
- Thumb options are held by value, so aliasing of a shared options object is not modelled.
- Floats are modelled as exact reals. Single-precision rounding, NaN and infinities are not modelled.
- ValueDomain.GetXPercentage: with exactly one candidate the source divides by zero and yields NaN or an infinity. The model returns the -1 sentinel instead, so such a thumb is not drawn.
- ValueDomain.GetThumbValue: where the source throws, the model returns `None`.
  - With no candidates, reading `Values[0]` throws.
  - On a zero-width segments canvas, the pixel ratio is not finite. C# leaves the unchecked `(int)` cast of such a value unspecified: on some platforms it gives `int.MinValue` and `Math.Abs` throws, on others it saturates and `Values[0]` or another candidate comes back. The model treats the case as a throw (`None`).
  - The overflow of `Math.Abs` at `int.MinValue` for huge pixel values is not modelled either.
- SliderTransitions.Move: when the source throws while reading a candidate, the model ends the move with the previous point already caught up and nothing else changed. `Content.RangeSlider.Move` and `OnTouch` report that case through `thrown`. Exception propagation itself is not modelled.
