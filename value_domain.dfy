// The value domain of the range slider: the ordered candidate list and the
// conversions between a candidate, its position as a fraction of the track,
// and a pixel on the track (RangeSlider.GetXPercentage and GetThumbValue).
module ValueDomain {
  import opened Models

  /** No candidate occurs twice. */
  predicate Distinct<V(==)>(s: seq<V>) {
    forall i, j :: 0 <= i < j < |s| ==> s[i] != s[j]
  }

  /** List.IndexOf: a position holding `v`, or -1 when there is none; that
      it is the first such position is IndexOfFirst. */
  function IndexOf<V(==)>(s: seq<V>, v: V): (i: int)
    ensures -1 <= i < |s|
    ensures i == -1 <==> v !in s
    ensures 0 <= i ==> s[i] == v
  {
    if |s| == 0 then -1
    else if s[0] == v then 0
    else
      var j := IndexOf(s[1..], v);
      if j == -1 then -1 else j + 1
  }

  /** No position before the one IndexOf returns holds `v`. */
  lemma {:induction false} IndexOfFirst<V>(s: seq<V>, v: V, k: int)
    requires 0 <= k < IndexOf(s, v)
    ensures s[k] != v
    decreases |s|
  {
    if s[0] != v && k > 0 {
      IndexOfFirst(s[1..], v, k - 1);
    }
  }

  /** The point at fraction `p` of a length `width`: a pixel along the
      track, or an index along the candidate list. */
  function AtFraction(p: real, width: real): real {
    p * width
  }

  /** Fraction of the track at which the thumb standing on `v` is drawn:
      index/(n-1), or the sentinel -1 when there are no values. A single
      value is also reported as -1 (there is no track position to give). */
  function GetXPercentage<V(==)>(values: seq<V>, v: V): (p: real)
    ensures |values| <= 1 ==> p == -1.0
    ensures |values| >= 2 && v in values ==>
              0.0 <= p <= 1.0 && AtFraction(p, (|values| - 1) as real) == IndexOf(values, v) as real
    ensures |values| >= 2 && v !in values ==> p < 0.0 && (p == -1.0 <==> |values| == 2)
  {
    if |values| <= 1 then -1.0
    else
      IndexRatio(IndexOf(values, v), |values| - 1)
  }

  /** index/(n-1) as a real, for an index in [-1, n-1] (n-1 = m). */
  function IndexRatio(i: int, m: int): (p: real)
    requires -1 <= i <= m && 0 < m
    ensures AtFraction(p, m as real) == i as real
    ensures 0 <= i ==> 0.0 <= p <= 1.0
    ensures i == -1 ==> p < 0.0 && (p == -1.0 <==> m == 1)
  {
    RatioFacts(i, m);
    i as real / m as real
  }

  lemma RatioFacts(i: int, m: int)
    requires -1 <= i <= m && 0 < m
    ensures AtFraction(i as real / m as real, m as real) == i as real
    ensures 0 <= i ==> 0.0 <= i as real / m as real <= 1.0
    ensures i == -1 ==> i as real / m as real < 0.0 && (i as real / m as real == -1.0 <==> m == 1)
  {
    var a := i as real;
    var r := m as real;
    assert a / r * r == a;
    if 0 <= i {
      assert 0.0 <= a / r <= 1.0;
    } else {
      assert -1.0 / r < 0.0;
      assert -1.0 / r == -1.0 <==> r == 1.0;
    }
  }

  // Arithmetic facts about the two mappings, each stated on numbers alone
  // (and, where possible, on Scaled and PixelIndex themselves) so that the
  // solver sees only the arithmetic.

  lemma RatioMonotone(a: real, b: real, m: real)
    requires a <= b && 0.0 < m
    ensures a / m <= b / m
  {
  }

  lemma DivBelowOne(a: real, w: real)
    requires a < w && 0.0 < w
    ensures a / w < 1.0
  {
  }

  lemma ComplementScaled(r: real, w: real, m: real)
    requires 0.0 < w
    ensures (w - r) / w * m == m - r / w * m
  {
    assert (w - r) / w == w / w - r / w;
    assert w / w == 1.0;
    assert (w - r) / w * m == (1.0 - r / w) * m;
    assert (1.0 - r / w) * m == m - r / w * m;
  }

  lemma FractionOnTrack(x: real, w: real, m: real)
    requires 0.0 <= x <= w && 0.0 < w && 0.0 <= m
    ensures 0.0 <= x / w * m <= m
  {
  }

  lemma ScaledOnTrack(x: real, w: real, n: nat)
    requires 0.0 <= x <= w && 0.0 < w && 1 <= n
    ensures 0.0 <= Scaled(x, w, n) <= (n - 1) as real
  {
    var m := (n - 1) as real;
    assert Scaled(x, w, n) == x / w * m;
    FractionOnTrack(x, w, m);
  }

  lemma ScaledPastTrack(x: real, w: real, n: nat)
    requires 0.0 < w && x * (n - 1) as real >= w * n as real
    ensures Scaled(x, w, n) >= n as real
  {
  }

  lemma ScaledNegate(x: real, w: real, n: nat)
    requires 0.0 < w
    ensures Scaled(-x, w, n) == -Scaled(x, w, n)
  {
  }

  /** A pixel less than one step from the left end scales below 1. */
  lemma ScaledNearStart(r: real, w: real, n: nat)
    requires 0.0 < r && 0.0 < w && 2 <= n && r * (n - 1) as real < w
    ensures 0.0 < Scaled(r, w, n) < 1.0
  {
    var m := (n - 1) as real;
    assert Scaled(r, w, n) == r / w * m;
    assert r / w * m == (r * m) / w;
    DivBelowOne(r * m, w);
  }

  /** A pixel less than one step from the right end scales into (n-2, n-1). */
  lemma ScaledNearEnd(r: real, w: real, n: nat)
    requires 0.0 < r && 0.0 < w && 2 <= n && r * (n - 1) as real < w
    ensures (n - 2) as real < Scaled(w - r, w, n) < (n - 1) as real
  {
    var m := (n - 1) as real;
    ScaledNearStart(r, w, n);
    assert Scaled(r, w, n) == r / w * m;
    assert Scaled(w - r, w, n) == (w - r) / w * m;
    ComplementScaled(r, w, m);
    assert 0.0 < r / w * m < 1.0;
  }

  lemma ScaledCentre(p: real, w: real, n: nat)
    requires 0.0 < w
    ensures Scaled(AtFraction(p, w), w, n) == AtFraction(p, (n - 1) as real)
  {
  }

  lemma TruncBelowOne(q: real)
    requires 0.0 <= q < 1.0
    ensures Trunc(q) == 0
  {
  }

  lemma TruncOdd(y: real)
    ensures Trunc(-y) == -Trunc(y)
  {
    if y > 0.0 {
      assert Trunc(-y) == -(y.Floor);
    } else if y < 0.0 {
      assert Trunc(y) == -((-y).Floor);
    }
  }

  /** On the track the computed index is the floor of the scaled pixel. */
  lemma OnTrackIndex(x: real, w: real, n: nat)
    requires 1 <= n && 0.0 < w && 0.0 <= x <= w
    ensures PixelIndex(x, w, n) == Scaled(x, w, n).Floor < n
  {
    ScaledOnTrack(x, w, n);
    var q := Scaled(x, w, n);
    assert Trunc(q) == q.Floor;
  }

  lemma PastTrackIndex(x: real, w: real, n: nat)
    requires 0.0 < w && x * (n - 1) as real >= w * n as real
    ensures PixelIndex(x, w, n) >= n
  {
    ScaledPastTrack(x, w, n);
  }

  lemma NearStartIndex(r: real, w: real, n: nat)
    requires 0.0 < r && 0.0 < w && 2 <= n && r * (n - 1) as real < w
    ensures PixelIndex(r, w, n) == 0
  {
    ScaledNearStart(r, w, n);
    TruncBelowOne(Scaled(r, w, n));
  }

  lemma NearEndIndex(r: real, w: real, n: nat)
    requires 0.0 < r && 0.0 < w && 2 <= n && r * (n - 1) as real < w
    ensures PixelIndex(w - r, w, n) == n - 2
  {
    ScaledNearEnd(r, w, n);
    var q := Scaled(w - r, w, n);
    assert Trunc(q) == n - 2;
  }

  lemma MirroredIndex(x: real, w: real, n: nat)
    requires 0.0 < w
    ensures PixelIndex(-x, w, n) == PixelIndex(x, w, n)
  {
    ScaledNegate(x, w, n);
    TruncOdd(Scaled(x, w, n));
  }

  /** The index arithmetic behind CentreReadsBack. */
  lemma CentreIndex(i: int, n: nat, w: real)
    requires 2 <= n && 0 <= i < n && 0.0 < w
    ensures PixelIndex(AtFraction(IndexRatio(i, n - 1), w), w, n) == i
  {
    var p := IndexRatio(i, n - 1);
    ScaledCentre(p, w, n);
    var q := Scaled(AtFraction(p, w), w, n);
    assert q == i as real;
    assert Trunc(q) == i;
  }

  /** C#'s (int) cast of a float: truncation toward zero. */
  function Trunc(x: real): (n: int)
    ensures 0.0 <= x ==> 0 <= n && n as real <= x < n as real + 1.0
    ensures x < 0.0 ==> n <= 0 && n as real - 1.0 < x <= n as real
  {
    if x >= 0.0 then x.Floor else -((-x).Floor)
  }

  function Abs(n: int): nat {
    if n < 0 then -n else n
  }

  /** The candidate index GetThumbValue computes for pixel `x` on a track
      `width` pixels wide holding `count` candidates:
      |(int)(x / width * (count - 1))|. */
  function PixelIndex(x: real, width: real, count: nat): (i: nat)
    requires 0.0 < width
    ensures var q := Scaled(x, width, count);
            i as real <= (if q < 0.0 then -q else q) < i as real + 1.0
  {
    Abs(Trunc(Scaled(x, width, count)))
  }

  /** x / width * (count - 1): the pixel's fraction of the track, scaled to
      the index range. */
  function Scaled(x: real, width: real, count: nat): real
    requires 0.0 < width
  {
    x / width * (count - 1) as real
  }

  /** The candidate under pixel `x` of a track `width` pixels wide. An index
      past the end falls back to the FIRST candidate, never the last. `None`
      stands for the cases where the source does not return a candidate: with
      no candidates, reading Values[0] throws; with a zero-width track the
      pixel ratio is not a finite number. */
  function GetThumbValue<V>(values: seq<V>, width: nat, x: real): (r: Option<V>)
    ensures r.None? <==> |values| == 0 || width == 0
    ensures r.Some? ==> r.value in values
  {
    if |values| == 0 || width == 0 then None
    else
      var index := PixelIndex(x, width as real, |values|);
      if index >= |values| then Some(values[0])
      else Some(values[index])
  }

  /** With distinct candidates, IndexOf finds each one at its own position. */
  lemma IndexOfDistinct<V>(s: seq<V>, i: int)
    requires Distinct(s) && 0 <= i < |s|
    ensures IndexOf(s, s[i]) == i
  {
  }

  /** The thumb positions of distinct candidates lie in [0, 1] and do not
      decrease along the list. */
  lemma PercentageMonotone<V>(values: seq<V>, i: int, j: int)
    requires Distinct(values) && |values| >= 2
    requires 0 <= i <= j < |values|
    ensures 0.0 <= GetXPercentage(values, values[i]) <= GetXPercentage(values, values[j]) <= 1.0
    ensures AtFraction(GetXPercentage(values, values[i]), (|values| - 1) as real) == i as real
  {
    IndexOfDistinct(values, i);
    IndexOfDistinct(values, j);
    RatioMonotone(i as real, j as real, (|values| - 1) as real);
  }

  /** A pixel on the track [0, width] reads the candidate at the floor of its
      fraction of the track times (n - 1); that index is always in range. */
  lemma PixelOnTrackReadsFloor<V>(values: seq<V>, width: nat, x: real)
    requires |values| >= 1 && width > 0
    requires 0.0 <= x <= width as real
    ensures 0 <= Scaled(x, width as real, |values|).Floor < |values|
    ensures GetThumbValue(values, width, x) == Some(values[Scaled(x, width as real, |values|).Floor])
  {
    OnTrackIndex(x, width as real, |values|);
    ReadsAtIndex(values, width, x, Scaled(x, width as real, |values|).Floor);
  }

  /** A pixel far enough past the right end of the track that the computed
      index reaches n reads the first candidate. */
  lemma PixelPastTrackReadsFirst<V>(values: seq<V>, width: nat, x: real)
    requires |values| >= 2 && width > 0
    requires x * (|values| - 1) as real >= width as real * |values| as real
    ensures GetThumbValue(values, width, x) == Some(values[0])
  {
    PastTrackIndex(x, width as real, |values|);
  }

  /** Math.Abs makes the mapping symmetric: a pixel left of the origin reads
      the same candidate as its mirror image. */
  lemma MirroredPixelReadsSame<V>(values: seq<V>, width: nat, x: real)
    ensures GetThumbValue(values, width, -x) == GetThumbValue(values, width, x)
  {
    if |values| > 0 && width > 0 {
      MirroredIndex(x, width as real, |values|);
    }
  }

  /** A pixel within one step of the track's left end reads the first
      candidate. */
  lemma NearStartReadsFirst<V>(values: seq<V>, width: nat, r: real)
    requires |values| >= 2 && width > 0
    requires 0.0 < r && r * (|values| - 1) as real < width as real
    ensures GetThumbValue(values, width, r) == Some(values[0])
  {
    NearStartIndex(r, width as real, |values|);
    ReadsAtIndex(values, width, r, 0);
  }

  /** A pixel within one step of the track's right end reads the candidate
      before the last one: the computed index is truncated down. */
  lemma NearEndReadsPenultimate<V>(values: seq<V>, width: nat, r: real)
    requires |values| >= 2 && width > 0
    requires 0.0 < r && r * (|values| - 1) as real < width as real
    ensures GetThumbValue(values, width, width as real - r) == Some(values[|values| - 2])
  {
    NearEndIndex(r, width as real, |values|);
    ReadsAtIndex(values, width, width as real - r, |values| - 2);
  }

  /** The forward and backward mappings agree: the unclamped centre of the
      thumb standing on index i, (i / (n-1)) * width, reads back Values[i]. */
  lemma CentreReadsBack<V>(values: seq<V>, width: nat, i: int)
    requires |values| >= 2 && width > 0 && 0 <= i < |values|
    ensures GetThumbValue(values, width, AtFraction(IndexRatio(i, |values| - 1), width as real)) == Some(values[i])
  {
    CentreIndex(i, |values|, width as real);
    ReadsAtIndex(values, width, AtFraction(IndexRatio(i, |values| - 1), width as real), i);
  }

  /** A pixel whose computed index is in range reads the candidate there. */
  lemma ReadsAtIndex<V>(values: seq<V>, width: nat, x: real, i: int)
    requires width > 0 && 0 <= i < |values|
    requires PixelIndex(x, width as real, |values|) == i
    ensures GetThumbValue(values, width, x) == Some(values[i])
  {
  }

  /** Round trip through both mappings: a candidate placed at its
      percentage of the track width is read back as that same candidate. */
  lemma PercentageRoundTrip<V>(values: seq<V>, width: nat, v: V)
    requires |values| >= 2 && width > 0 && v in values
    ensures GetThumbValue(values, width, AtFraction(GetXPercentage(values, v), width as real)) == Some(v)
  {
    var i := IndexOf(values, v);
    assert GetXPercentage(values, v) == IndexRatio(i, |values| - 1);
    CentreReadsBack(values, width, i);
    assert values[i] == v;
  }
}
