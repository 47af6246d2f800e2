/** `DotView`: a round coloured view that darkens while touched, answers
    hits in an area at least 44 points square, and two class functions that
    lay out the dots of a container at random or on a grid. */
module DotViews {
  import opened Options
  import opened Geometry
  import opened AEColor

  const MinimumDotRadius: int := 30
  const MaximumDotRadius: int := 100

  /** Half the side of the smallest hit area. */
  const HalfMinimumHitSide: real := 22.0

  const UInt32Max: int := 0xFFFF_FFFF

  /** A dot: `color` and `radius` are fixed at construction; `center` and
      `size` give its frame, `cornerRadius` is its layer's, `background` its
      background colour and `highlighted` the optional flag whose observer
      repaints it. */
  datatype Dot = Dot(color: Color, radius: real, center: Point, size: Size, cornerRadius: real,
                     background: Color, highlighted: Option<bool>)

  function Frame(d: Dot): Rect {
    Rect(Point(d.center.x - d.size.width / 2.0, d.center.y - d.size.height / 2.0), d.size)
  }

  function Bounds(d: Dot): Rect {
    Rect(Point(0.0, 0.0), d.size)
  }

  // ---------------------------------------------------------------------------
  // randomValueFrom(_:to:)
  // ---------------------------------------------------------------------------

  /** `arc4random_uniform(n)`: a value below `n`, or 0 when `n < 2`; the
      draw stands for the generator's choice. */
  function ArcRandomUniform(n: nat, draw: nat): (v: nat)
    ensures n >= 1 ==> v < n
    ensures n <= 1 ==> v == 0
  {
    if n < 2 then 0 else draw % n
  }

  /** `randomValueFrom(_:to:)`: `arc4random_uniform(UInt32(to - from)) +
      UInt32(from)`. The two conversions trap on a negative or too large
      value and the 32-bit addition traps on overflow; each trap is `None`. */
  function RandomValueFrom(from: int, to: int, draw: nat): (v: Option<int>)
    ensures v.Some? ==> 0 <= from <= to && from <= UInt32Max && to - from <= UInt32Max
    ensures v.Some? ==> from <= v.value && (v.value < to || v.value == from == to)
    ensures 0 <= from <= to <= UInt32Max ==> v.Some?
  {
    if from < 0 || from > UInt32Max || to - from < 0 || to - from > UInt32Max then None
    else
      var sum := ArcRandomUniform(to - from, draw) + from;
      if sum > UInt32Max then None else Some(sum)
  }

  /** Every value of the half-open range is a possible result. */
  lemma RandomValueFromCoversRange(from: int, to: int, v: int)
    requires 0 <= from <= v < to <= UInt32Max
    ensures RandomValueFrom(from, to, v - from) == Some(v)
  {
    if to - from >= 2 {
      DivModUnique(v - from, to - from, 0, v - from);
    }
  }

  // ---------------------------------------------------------------------------
  // Construction
  // ---------------------------------------------------------------------------

  /** `init(color:radius:)`: frame `radius` by `radius` at the origin, corner
      radius half the radius, background `color`, `highlighted` unset. */
  function MakeDot(color: Color, radius: real): (d: Dot)
    ensures d.color == color && d.radius == radius
    ensures Frame(d) == Rect(Point(0.0, 0.0), Size(radius, radius))
    ensures d.cornerRadius == radius / 2.0
    ensures d.background == color && d.highlighted == None
  {
    Dot(color, radius, Point(radius / 2.0, radius / 2.0), Size(radius, radius), radius / 2.0, color, None)
  }

  /** `init(frame:)`, the convenience initialiser behind `DotView()`: the
      frame argument is ignored; a vivid random colour and a whole random
      radius in [30, 100) are drawn. */
  function DefaultDot(frame: Rect, hueDraw: nat, saturationDraw: nat, brightnessDraw: nat, radiusDraw: nat): (d: Dot)
    ensures d.color == RandomVividColor(hueDraw, saturationDraw, brightnessDraw)
    ensures MinimumDotRadius as real <= d.radius < MaximumDotRadius as real
    ensures d.radius == d.radius.Floor as real
    ensures Frame(d) == Rect(Point(0.0, 0.0), Size(d.radius, d.radius))
    ensures d.cornerRadius == d.radius / 2.0
  {
    var radius := RandomValueFrom(MinimumDotRadius, MaximumDotRadius, radiusDraw);
    MakeDot(RandomVividColor(hueDraw, saturationDraw, brightnessDraw), radius.value as real)
  }

  // ---------------------------------------------------------------------------
  // Highlighting
  // ---------------------------------------------------------------------------

  /** What the `highlighted` observer keeps true: the background is the
      darker shade of the colour while highlighted, the colour otherwise. */
  predicate ShowsHighlight(d: Dot) {
    d.background == if d.highlighted == Some(true) then Darker(d.color, DefaultShadeFactor) else d.color
  }

  /** Assigning `highlighted`: the `willSet` observer repaints the
      background for the new value; nothing else changes. */
  function SetHighlighted(d: Dot, value: Option<bool>): (r: Dot)
    ensures r.highlighted == value && ShowsHighlight(r)
    ensures r == d.(highlighted := value, background := r.background)
  {
    var background := if value == Some(true) then Darker(d.color, DefaultShadeFactor) else d.color;
    d.(highlighted := value, background := background)
  }

  function TouchesBegan(d: Dot): (r: Dot)
    ensures r.highlighted == Some(true) && r.background == Darker(d.color, DefaultShadeFactor)
    ensures r == d.(highlighted := r.highlighted, background := r.background)
  {
    SetHighlighted(d, Some(true))
  }

  function TouchesEnded(d: Dot): (r: Dot)
    ensures r.highlighted == Some(false) && r.background == d.color
    ensures r == d.(highlighted := r.highlighted, background := r.background)
  {
    SetHighlighted(d, Some(false))
  }

  function TouchesCancelled(d: Dot): (r: Dot)
    ensures r.highlighted == Some(false) && r.background == d.color
    ensures r == d.(highlighted := r.highlighted, background := r.background)
  {
    SetHighlighted(d, Some(false))
  }

  /** A new dot shows its highlight state, every touch callback keeps it
      shown, and a touch that ends or is cancelled returns the dot to the
      state it had before the touch began, up to the flag being `false`
      rather than unset. */
  lemma HighlightLifecycle(color: Color, radius: real, d: Dot)
    requires ShowsHighlight(d)
    ensures ShowsHighlight(MakeDot(color, radius))
    ensures ShowsHighlight(TouchesBegan(d)) && ShowsHighlight(TouchesEnded(d)) && ShowsHighlight(TouchesCancelled(d))
    ensures d.highlighted != Some(true) ==>
              && TouchesEnded(TouchesBegan(d)) == d.(highlighted := Some(false))
              && TouchesCancelled(TouchesBegan(d)) == d.(highlighted := Some(false))
  {
  }

  // ---------------------------------------------------------------------------
  // Hit testing
  // ---------------------------------------------------------------------------

  /** The rectangle `point(inside:with:)` tests: the bounds, grown by
      22 minus the corner radius on every side when the corner radius is
      below 22. */
  function TouchBounds(d: Dot): (r: Option<Rect>)
    ensures d.cornerRadius >= HalfMinimumHitSide ==> r == Some(Bounds(d))
    ensures d.cornerRadius < HalfMinimumHitSide ==>
              && r.Some?
              && var e := HalfMinimumHitSide - d.cornerRadius;
                 && MinX(r.value) == MinX(Bounds(d)) - e && MaxX(r.value) == MaxX(Bounds(d)) + e
                 && MinY(r.value) == MinY(Bounds(d)) - e && MaxY(r.value) == MaxY(Bounds(d)) + e
  {
    if d.cornerRadius < HalfMinimumHitSide then
      var expansion := HalfMinimumHitSide - d.cornerRadius;
      InsetBy(Bounds(d), -expansion, -expansion)
    else Some(Bounds(d))
  }

  /** `point(inside:with:)`: every point of the bounds is a hit, and a dot
      whose corner radius is at least 22 is hit exactly in its bounds. */
  function PointInside(d: Dot, p: Point): (hit: bool)
    ensures Contains(Bounds(d), p) ==> hit
    ensures d.cornerRadius >= HalfMinimumHitSide ==> (hit <==> Contains(Bounds(d), p))
  {
    ContainsOpt(TouchBounds(d), p)
  }

  /** A dot built with a radius below 44 (corner radius below 22) has a hit
      area of exactly 44 by 44, centred on the dot; a larger dot is hit in
      its bounds. Either way the hit area is the square of side
      max(44, radius) round the dot's centre. */
  lemma HitAreaOfBuiltDot(color: Color, radius: real, p: Point)
    requires radius >= 0.0
    ensures var d := MakeDot(color, radius);
            radius < 2.0 * HalfMinimumHitSide ==>
              TouchBounds(d).Some? && TouchBounds(d).value.size == Size(44.0, 44.0)
    ensures var d := MakeDot(color, radius);
            var half := Max(HalfMinimumHitSide, radius / 2.0);
            PointInside(d, p) <==>
              (radius / 2.0 - half <= p.x < radius / 2.0 + half && radius / 2.0 - half <= p.y < radius / 2.0 + half)
  {
  }

  // ---------------------------------------------------------------------------
  // Arranging the dots of a container
  // ---------------------------------------------------------------------------

  /** A subview of the container: a dot, or any other view, of which only
      the centre matters here. */
  datatype Subview = DotSubview(dot: Dot) | OtherSubview(center: Point)

  /** The number of dots among the first `i` subviews. */
  function DotsBefore(views: seq<Subview>, i: nat): (k: nat)
    requires i <= |views|
    ensures k <= i
  {
    if i == 0 then 0 else (if views[0].DotSubview? then 1 else 0) + DotsBefore(views[1..], i - 1)
  }

  function MoveTo(v: Subview, c: Point): Subview {
    match v
    case DotSubview(d) => DotSubview(d.(center := c))
    case OtherSubview(_) => v
  }

  // --- arrangeDotsRandomlyInView --------------------------------------------

  /** `Int(x)` for a `CGFloat`: truncation toward zero. */
  function Trunc(x: real): (n: int)
    ensures x >= 0.0 ==> 0 <= n && n as real <= x < n as real + 1.0
    ensures x < 0.0 ==> n <= 0 && n as real - 1.0 < x <= n as real
  {
    if x >= 0.0 then x.Floor else -((-x).Floor)
  }

  /** One step of `arrangeDotsRandomlyInView`: a dot of diameter `d` (twice
      its corner radius) is centred at whole coordinates drawn by
      `randomValueFrom(Int(d), Int(side - d))` on each axis; other views are
      left alone. `None` is a trapping conversion. */
  function PlaceRandomly(v: Subview, size: Size, draw: (nat, nat)): (r: Option<Subview>)
    ensures v.OtherSubview? ==> r == Some(v)
    ensures r.Some? && v.DotSubview? ==> r.value.DotSubview?
    ensures r.Some? && v.DotSubview? ==>
              var dia := v.dot.cornerRadius * 2.0;
              var c := r.value.dot.center;
              && r.value == MoveTo(v, c)
              && c.x == c.x.Floor as real && c.y == c.y.Floor as real
              && Trunc(dia) as real <= c.x && (c.x < Trunc(size.width - dia) as real || Trunc(dia) == Trunc(size.width - dia))
              && Trunc(dia) as real <= c.y && (c.y < Trunc(size.height - dia) as real || Trunc(dia) == Trunc(size.height - dia))
  {
    match v
    case OtherSubview(_) => Some(v)
    case DotSubview(d) =>
      var dia := d.cornerRadius * 2.0;
      var x := RandomValueFrom(Trunc(dia), Trunc(size.width - dia), draw.0);
      var y := RandomValueFrom(Trunc(dia), Trunc(size.height - dia), draw.1);
      if x.None? || y.None? then None
      else Some(MoveTo(v, Point(x.value as real, y.value as real)))
  }

  /** `arrangeDotsRandomlyInView`: every subview is placed in turn, one pair
      of draws each; the whole call traps when one placement traps. */
  function ArrangeDotsRandomly(size: Size, views: seq<Subview>, draws: seq<(nat, nat)>): (r: Option<seq<Subview>>)
    requires |draws| == |views|
    ensures r.Some? <==> forall i :: 0 <= i < |views| ==> PlaceRandomly(views[i], size, draws[i]).Some?
    ensures r.Some? ==>
              && |r.value| == |views|
              && forall i :: 0 <= i < |views| ==> PlaceRandomly(views[i], size, draws[i]) == Some(r.value[i])
  {
    if |views| == 0 then Some([])
    else
      var init := ArrangeDotsRandomly(size, views[..|views| - 1], draws[..|draws| - 1]);
      var last := PlaceRandomly(views[|views| - 1], size, draws[|draws| - 1]);
      if init.None? || last.None? then None else Some(init.value + [last.value])
  }

  /** For a dot of whole diameter d >= 0 in a container more than 2d wide and
      high (and within 32-bit range), placement cannot trap and the centre
      lies in [d, side - d) on both axes. */
  lemma RandomCentreInRange(d: Dot, size: Size, draw: (nat, nat))
    requires var dia := d.cornerRadius * 2.0; dia >= 0.0 && dia == dia.Floor as real
    requires size.width > 4.0 * d.cornerRadius && size.height > 4.0 * d.cornerRadius
    requires size.width <= UInt32Max as real && size.height <= UInt32Max as real
    ensures var r := PlaceRandomly(DotSubview(d), size, draw);
            var dia := d.cornerRadius * 2.0;
            r.Some? && dia <= r.value.dot.center.x < size.width - dia && dia <= r.value.dot.center.y < size.height - dia
  {
  }

  // --- arrangeDotsNeatlyInView ----------------------------------------------

  /** Wider containers leave one or two slots empty. */
  function NeatFactor(width: real): int {
    if width < 600.0 then 0 else if width < 1024.0 then 1 else 2
  }

  /** `horizontalSlotCount`: floor(width / 100) less the neat factor. */
  function SlotCount(width: real): int {
    (width / MaximumDotRadius as real).Floor - NeatFactor(width)
  }

  /** `dotSlotSide`: 100 plus an equal share of the width left over by
      `SlotCount` slots of 100. */
  function SlotSide(width: real): real
    requires SlotCount(width) != 0
  {
    var n := SlotCount(width) as real;
    var totalSlotSpacing := width - n * MaximumDotRadius as real;
    MaximumDotRadius as real + totalSlotSpacing / n
  }

  /** A container at least 100 wide has at least one slot per row, and the
      slots are at least 100 (the largest dot) wide and exactly fill the
      width; a narrower one has no slot at all. */
  lemma SlotGeometry(width: real)
    requires width >= 0.0
    ensures width < 100.0 ==> SlotCount(width) == 0
    ensures width >= 100.0 ==> SlotCount(width) >= 1 && SlotCount(width) as real * SlotSide(width) == width
    ensures width >= 100.0 ==> SlotSide(width) >= MaximumDotRadius as real
  {
    var q := (width / 100.0).Floor;
    assert q as real <= width / 100.0 < q as real + 1.0;
    if width >= 100.0 {
      var n := SlotCount(width);
      assert n >= 1;
      var s := SlotSide(width);
      assert s == 100.0 + (width - n as real * 100.0) / n as real;
      assert n as real * ((width - n as real * 100.0) / n as real) == width - n as real * 100.0;
      assert n as real * 100.0 <= width;
    }
  }

  /** The centre of the `k`-th dot on a grid of `n` slots per row of side
      `s`: row-major, each at the middle of its slot. */
  function NeatCentre(k: nat, n: int, s: real): Point
    requires n >= 1
  {
    Point(SlotCentre(k % n, s), SlotCentre(k / n, s))
  }

  /** The middle of slot `i` along one axis. */
  function SlotCentre(i: int, s: real): real {
    (i as real + 0.5) * s
  }

  /** The subviews after a neat layout with `n` slots of side `s` per row:
      the k-th dot (counting only dots) moved to the k-th grid centre,
      every other view unchanged. */
  predicate NeatlyArranged(views: seq<Subview>, out: seq<Subview>, n: int, s: real)
    requires n >= 1
  {
    |out| == |views| &&
    forall i :: 0 <= i < |views| ==> out[i] == MoveTo(views[i], NeatCentre(DotsBefore(views, i), n, s))
  }

  lemma ScaleLess(p: real, q: real, s: real)
    requires s > 0.0 && p < q
    ensures p * s < q * s
  {
  }

  lemma MulAtLeast(m: int, n: int)
    requires m >= 1 && n >= 1
    ensures m * n >= n
  {
    assert m * n == (m - 1) * n + n;
    assert (m - 1) * n >= 0;
  }

  lemma DivModUnique(x: int, n: int, q: int, r: int)
    requires n >= 1 && 0 <= r < n && x == q * n + r
    ensures x / n == q && x % n == r
  {
    var q', r' := x / n, x % n;
    assert x == q' * n + r';
    assert (q - q') * n == r' - r by {
      assert q * n - q' * n == (q - q') * n;
    }
    if q' < q {
      MulAtLeast(q - q', n);
    } else if q' > q {
      assert (q' - q) * n == r - r';
      MulAtLeast(q' - q, n);
    }
  }

  /** Counting one more dot either moves to the next slot of the row or,
      from the last slot, to the first slot of the next row. */
  lemma DivModNext(k: nat, n: int)
    requires n >= 1
    ensures k % n + 1 == n ==> (k + 1) % n == 0 && (k + 1) / n == k / n + 1
    ensures k % n + 1 < n ==> (k + 1) % n == k % n + 1 && (k + 1) / n == k / n
  {
    var q, a := k / n, k % n;
    assert k == q * n + a;
    if a + 1 == n {
      DivModUnique(k + 1, n, q + 1, 0);
    } else {
      DivModUnique(k + 1, n, q, a + 1);
    }
  }

  /** One step of the layout loop: advancing the x coordinate by a slot and
      wrapping to the next row when it reaches the width keeps (x, y) at
      the grid centre of the next dot. */
  lemma NeatStep(k: nat, n: int, s: real, width: real)
    requires n >= 1 && s > 0.0 && width == n as real * s
    ensures var c := NeatCentre(k, n, s);
            var next := NeatCentre(k + 1, n, s);
            if c.x + s >= width then next == Point(s / 2.0, c.y + s) else next == Point(c.x + s, c.y)
  {
    DivModNext(k, n);
    if k % n + 1 == n {
      WrapToNextRow(k % n, k / n, n, s);
    } else {
      StayInRow(k % n, n, s);
    }
  }

  /** From the last slot of a row, one slot further reaches the width, and
      the next row starts half a slot in and one slot down. */
  lemma WrapToNextRow(a: int, q: int, n: int, s: real)
    requires a + 1 == n && s > 0.0
    ensures SlotCentre(a, s) + s >= n as real * s
    ensures SlotCentre(0, s) == s / 2.0
    ensures SlotCentre(q + 1, s) == SlotCentre(q, s) + s
  {
  }

  /** Before the last slot of a row, one slot further stays within the
      width and is the next slot's centre. */
  lemma StayInRow(a: int, n: int, s: real)
    requires a + 1 < n && s > 0.0
    ensures SlotCentre(a, s) + s < n as real * s
    ensures SlotCentre(a + 1, s) == SlotCentre(a, s) + s
  {
    ScaleLess(a as real + 1.5, n as real, s);
  }

  /** `arrangeDotsNeatlyInView`: the dots of a container at least 100 wide
      are centred row-major on the grid of `SlotCount` slots of side
      `SlotSide` per row; other subviews are not moved. In a narrower
      container the slot count is 0 and the source divides by it, giving
      non-finite centres: that outcome is `None`, and arises exactly when
      there is a dot to place. */
  function ArrangeDotsNeatly(width: real, views: seq<Subview>): (out: Option<seq<Subview>>)
    requires width >= 0.0
    ensures out.None? <==> width < 100.0 && DotsBefore(views, |views|) > 0
    ensures out.Some? && width < 100.0 ==> out.value == views
    ensures out.Some? && width >= 100.0 ==>
              SlotCount(width) >= 1 && NeatlyArranged(views, out.value, SlotCount(width), SlotSide(width))
  {
    if width < 100.0 then
      if DotsBefore(views, |views|) > 0 then None else Some(views)
    else
      NeatLayoutOnGrid(width, views);
      var s := SlotSide(width);
      Some(PlaceOnGrid(views, Point(s / 2.0, s / 2.0), s, width))
  }

  /** The loop started at the centre of the first slot lays the dots out on
      the grid of the container's width. */
  lemma NeatLayoutOnGrid(width: real, views: seq<Subview>)
    requires width >= 100.0
    ensures SlotCount(width) >= 1
    ensures var s := SlotSide(width);
            NeatlyArranged(views, PlaceOnGrid(views, Point(s / 2.0, s / 2.0), s, width), SlotCount(width), s)
  {
    SlotGeometry(width);
    var n, s := SlotCount(width), SlotSide(width);
    assert NeatCentre(0, n, s) == Point(s / 2.0, s / 2.0);
    PlaceOnGridIsNeat(views, 0, n, s, width);
  }

  /** The loop of `arrangeDotsNeatlyInView`, one subview at a time: a dot
      is centred at the cursor, which then advances one slot and, once its
      x reaches the width, returns to the first column of the next row;
      other subviews neither move nor advance the cursor. */
  function PlaceOnGrid(views: seq<Subview>, cursor: Point, s: real, width: real): (placed: seq<Subview>)
    ensures |placed| == |views|
    ensures forall i :: 0 <= i < |views| ==>
              && (views[i].OtherSubview? ==> placed[i] == views[i])
              && (views[i].DotSubview? ==> placed[i].DotSubview? && placed[i] == MoveTo(views[i], placed[i].dot.center))
  {
    if |views| == 0 then []
    else
      match views[0]
      case DotSubview(d) =>
        var x := cursor.x + s;
        var next := if x >= width then Point(s / 2.0, cursor.y + s) else Point(x, cursor.y);
        [DotSubview(d.(center := cursor))] + PlaceOnGrid(views[1..], next, s, width)
      case OtherSubview(_) =>
        [views[0]] + PlaceOnGrid(views[1..], cursor, s, width)
  }

  /** Started at the centre of grid slot `k0`, the loop puts the `i`-th
      subview, if it is a dot, at the centre of slot `k0` plus the number of
      dots before it: the closed form of the cursor's walk. */
  lemma {:induction false} PlaceOnGridIsNeat(views: seq<Subview>, k0: nat, n: int, s: real, width: real)
    requires n >= 1 && s > 0.0 && width == n as real * s
    ensures var placed := PlaceOnGrid(views, NeatCentre(k0, n, s), s, width);
            forall i :: 0 <= i < |views| ==> placed[i] == MoveTo(views[i], NeatCentre(k0 + DotsBefore(views, i), n, s))
  {
    if |views| > 0 {
      var placed := PlaceOnGrid(views, NeatCentre(k0, n, s), s, width);
      var k1 := if views[0].DotSubview? then k0 + 1 else k0;
      if views[0].DotSubview? {
        NeatStep(k0, n, s, width);
      }
      PlaceOnGridIsNeat(views[1..], k1, n, s, width);
      var rest := PlaceOnGrid(views[1..], NeatCentre(k1, n, s), s, width);
      assert placed == [placed[0]] + rest;
      forall i | 0 <= i < |views|
        ensures placed[i] == MoveTo(views[i], NeatCentre(k0 + DotsBefore(views, i), n, s))
      {
        if i > 0 {
          assert placed[i] == rest[i - 1];
          assert views[1..][i - 1] == views[i];
        }
      }
    }
  }

  lemma ScaleInjective(p: real, q: real, s: real)
    requires s > 0.0
    ensures p * s == q * s <==> p == q
  {
    if p < q {
      ScaleLess(p, q, s);
    } else if q < p {
      ScaleLess(q, p, s);
    }
  }

  /** A count is determined by its row and column. */
  lemma RowAndColumnDetermine(k: nat, k': nat, n: int)
    requires n >= 1 && k / n == k' / n && k % n == k' % n
    ensures k == k'
  {
    assert k == (k / n) * n + k % n;
    assert k' == (k' / n) * n + k' % n;
  }

  /** Grid centres are pairwise distinct, so no two dots share a slot, and
      dots `k` and `k'` are on the same row exactly when k div n = k' div n. */
  lemma NeatCentresDistinct(n: int, s: real, k: nat, k': nat)
    requires n >= 1 && s > 0.0
    ensures NeatCentre(k, n, s).y == NeatCentre(k', n, s).y <==> k / n == k' / n
    ensures NeatCentre(k, n, s).x == NeatCentre(k', n, s).x <==> k % n == k' % n
    ensures k != k' ==> NeatCentre(k, n, s) != NeatCentre(k', n, s)
  {
    ScaleInjective((k / n) as real + 0.5, (k' / n) as real + 0.5, s);
    ScaleInjective((k % n) as real + 0.5, (k' % n) as real + 0.5, s);
    if k / n == k' / n && k % n == k' % n {
      RowAndColumnDetermine(k, k', n);
    }
  }

  lemma GridCentreInside(n: int, s: real, k: nat)
    requires n >= 1 && s > 0.0
    ensures var c := NeatCentre(k, n, s);
            0.0 < c.x < n as real * s && c.y > 0.0
  {
    ScaleLess((k % n) as real + 0.5, n as real, s);
    ScaleLess(0.0, (k % n) as real + 0.5, s);
    ScaleLess(0.0, (k / n) as real + 0.5, s);
  }

  /** Every grid centre lies strictly inside the container's width and
      below its top edge. */
  lemma NeatCentreInside(width: real, k: nat)
    requires width >= 100.0
    ensures SlotCount(width) >= 1
    ensures var c := NeatCentre(k, SlotCount(width), SlotSide(width));
            0.0 < c.x < width && c.y > 0.0
  {
    SlotGeometry(width);
    GridCentreInside(SlotCount(width), SlotSide(width), k);
  }
}
