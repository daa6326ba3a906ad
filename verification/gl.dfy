/**
 `gl::line`: integer Bresenham line drawing. The loop steps one pixel along
 the major axis per iteration and advances the minor axis when the doubled
 error term passes `dx`. Every iteration issues one `Image::set`.
 */
module Gl {
  import opened Words
  import opened Images

  datatype Point = Point(x: int, y: int)

  /**
   The arguments after the two swaps at the top of `gl::line`: for a steep
   line the axes are exchanged, and the endpoints are ordered so that the
   major coordinate grows.
   */
  datatype Setup = Setup(steep: bool, x0: int, y0: int, x1: int, y1: int)

  function Normalize(x0: int, y0: int, x1: int, y1: int): (s: Setup)
    ensures s.x0 <= s.x1
    ensures Abs(s.y1 - s.y0) <= s.x1 - s.x0
    ensures s.x1 - s.x0 == Max(Abs(x1 - x0), Abs(y1 - y0))
    ensures s.steep <==> Abs(x0 - x1) < Abs(y0 - y1)
    ensures (Place(s.steep, s.x0, s.y0) == Point(x0, y0) && Place(s.steep, s.x1, s.y1) == Point(x1, y1))
         || (Place(s.steep, s.x0, s.y0) == Point(x1, y1) && Place(s.steep, s.x1, s.y1) == Point(x0, y0))
  {
    var steep := Abs(x0 - x1) < Abs(y0 - y1);
    var a0 := if steep then y0 else x0;
    var b0 := if steep then x0 else y0;
    var a1 := if steep then y1 else x1;
    var b1 := if steep then x1 else y1;
    if a0 > a1 then Setup(steep, a1, b1, a0, b0) else Setup(steep, a0, b0, a1, b1)
  }

  /** A point of the (possibly swapped) loop coordinates, as passed to `set`. */
  function Place(steep: bool, major: int, minor: int): Point
  {
    if steep then Point(minor, major) else Point(major, minor)
  }

  /** The minor coordinate after `k` steps of `y1 > y0 ? 1 : -1`. */
  function MinorAfter(s: Setup, k: int): int
  {
    if s.y1 > s.y0 then s.y0 + k else s.y0 - k
  }

  /** Length along the major axis and along the minor axis of normalised arguments. */
  function Run(s: Setup): int { s.x1 - s.x0 }
  function Rise(s: Setup): nat { Abs(s.y1 - s.y0) }

  /**
   How many minor-axis steps the loop has taken after `i` iterations, in
   closed form: `i * ady / dx` rounded to the nearest integer, halves rounded
   down.
   */
  function MinorSteps(i: int, dx: int, ady: int): int
  {
    if dx <= 0 then 0 else (2 * i * ady + dx - 1) / (2 * dx)
  }

  /** The doubled error term the loop keeps after `i` iterations. */
  function ErrorAfter(i: int, dx: int, ady: int): int
  {
    2 * i * ady - 2 * dx * MinorSteps(i, dx, ady)
  }

  /** The error term stays within `(-dx, dx]`. */
  lemma ErrorBounded(i: int, dx: int, ady: int)
    requires 0 < dx && 0 <= i && 0 <= ady
    ensures -dx < ErrorAfter(i, dx, ady) <= dx
  {
    var n := 2 * i * ady + dx - 1;
    var d := 2 * dx;
    assert n == d * (n / d) + n % d;
    assert ErrorAfter(i, dx, ady) == n % d - dx + 1;
  }

  /** The error bound determines the number of minor steps. */
  lemma MinorStepsUnique(i: int, dx: int, ady: int, k: int)
    requires 0 < dx && 0 <= i && 0 <= ady
    requires -dx < 2 * i * ady - 2 * dx * k <= dx
    ensures MinorSteps(i, dx, ady) == k
  {
    var q := MinorSteps(i, dx, ady);
    ErrorBounded(i, dx, ady);
    if q < k {
      MulMonotone(2 * dx, q + 1, k);
    } else if k < q {
      MulMonotone(2 * dx, k + 1, q);
    }
  }

  /** One loop iteration: the minor coordinate advances exactly when the error passes `dx`. */
  lemma MinorStepsNext(i: int, dx: int, ady: int)
    requires 0 < dx && 0 <= i && 0 <= ady <= dx
    ensures MinorSteps(i + 1, dx, ady) ==
              if ErrorAfter(i, dx, ady) + 2 * ady > dx then MinorSteps(i, dx, ady) + 1
              else MinorSteps(i, dx, ady)
  {
    var k := MinorSteps(i, dx, ady);
    ErrorBounded(i, dx, ady);
    if ErrorAfter(i, dx, ady) + 2 * ady > dx {
      MinorStepsUnique(i + 1, dx, ady, k + 1);
    } else {
      MinorStepsUnique(i + 1, dx, ady, k);
    }
  }

  /** The minor coordinate starts at 0 steps and ends at `ady` steps, and stays in between. */
  lemma MinorStepsRange(i: int, dx: int, ady: int)
    requires 0 < dx && 0 <= i <= dx && 0 <= ady <= dx
    ensures MinorSteps(0, dx, ady) == 0
    ensures MinorSteps(dx, dx, ady) == ady
    ensures 0 <= MinorSteps(i, dx, ady) <= ady
  {
    MinorStepsUnique(0, dx, ady, 0);
    MinorStepsUnique(dx, dx, ady, ady);
    MinorStepsAtLeastZero(i, dx, ady);
    MinorStepsAtMostRise(i, dx, ady);
  }

  lemma MinorStepsAtLeastZero(i: int, dx: int, ady: int)
    requires 0 < dx && 0 <= i && 0 <= ady
    ensures 0 <= MinorSteps(i, dx, ady)
  {
    MulMonotone(2 * i, 0, ady);
    assert 0 <= 2 * i * ady + dx - 1;
  }

  lemma MinorStepsAtMostRise(i: int, dx: int, ady: int)
    requires 0 < dx && 0 <= i <= dx && 0 <= ady
    ensures MinorSteps(i, dx, ady) <= ady
  {
    var n, d := 2 * i * ady + dx - 1, 2 * dx;
    var q := n / d;
    assert d * q <= n by {
      assert n == d * q + n % d;
    }
    assert n < d * (ady + 1) by {
      TwiceMonotone(i, dx, ady);
      TwiceNext(dx, ady);
    }
    if q > ady {
      MulMonotone(d, ady + 1, q);
    }
  }

  /** The bounds on the minor steps that place a pixel near the segment. */
  lemma MinorStepsBounds(i: int, dx: int, ady: int)
    requires 0 <= i <= dx && 0 <= ady <= dx
    ensures 0 <= MinorSteps(i, dx, ady) <= ady
    ensures -dx <= 2 * (i * ady) - 2 * (dx * MinorSteps(i, dx, ady)) <= dx
  {
    var k := MinorSteps(i, dx, ady);
    if dx > 0 {
      ErrorBounded(i, dx, ady);
      MinorStepsRange(i, dx, ady);
      Twice(i, ady);
      Twice(dx, k);
    } else {
      assert i == 0 && ady == 0 && k == 0;
    }
  }

  lemma TwiceMonotone(i: int, dx: int, ady: int)
    requires 0 <= i <= dx && 0 <= ady
    ensures 2 * i * ady <= 2 * dx * ady
  {
    MulMonotone(ady, i, dx);
    Twice(i, ady);
    Twice(dx, ady);
  }

  lemma TwiceNext(dx: int, ady: int)
    ensures 2 * dx * (ady + 1) == 2 * dx * ady + 2 * dx
  {
  }

  lemma Twice(a: int, b: int)
    ensures 2 * a * b == 2 * (a * b)
  {
  }

  /** Consecutive iterations take zero or one minor step. */
  lemma MinorStepsIncrement(i: int, dx: int, ady: int)
    requires 0 < dx && 0 <= i && 0 <= ady <= dx
    ensures 0 <= MinorSteps(i + 1, dx, ady) - MinorSteps(i, dx, ady) <= 1
  {
    MinorStepsNext(i, dx, ady);
  }

  /** The error update of one iteration: add `2 * ady`, and subtract `2 * dx` when a minor step is taken. */
  lemma ErrorNext(i: int, dx: int, ady: int)
    requires 0 < dx && 0 <= ady <= dx && 0 <= i
    ensures var e1 := ErrorAfter(i, dx, ady) + 2 * ady;
            (if e1 > dx then e1 - 2 * dx else e1) == ErrorAfter(i + 1, dx, ady)
  {
    var k := MinorSteps(i, dx, ady);
    MinorStepsNext(i, dx, ady);
    assert 2 * (i + 1) * ady == 2 * i * ady + 2 * ady;
    assert 2 * dx * (k + 1) == 2 * dx * k + 2 * dx;
  }

  /** The loop's minor coordinate and doubled error term. */
  datatype Walker = Walker(y: int, err: int)

  /** The loop state after `i` iterations, as the loop itself computes it. */
  function Walk(s: Setup, i: nat): Walker
  {
    if i == 0 then Walker(s.y0, 0) else Advance(s, Walk(s, i - 1))
  }

  /** One loop iteration's update of the minor coordinate and the error term. */
  function Advance(s: Setup, w: Walker): Walker
  {
    var e1 := w.err + 2 * Rise(s);
    if e1 > Run(s) then Walker(w.y + (if s.y1 > s.y0 then 1 else -1), e1 - 2 * Run(s))
    else Walker(w.y, e1)
  }

  /**
   The loop agrees with the closed form: after `i` iterations the minor
   coordinate has taken `MinorSteps(i)` steps, and the error term stays in
   `(-dx, dx]`.
   */
  lemma {:induction false} WalkClosedForm(s: Setup, i: nat)
    requires s.x0 <= s.x1 && Rise(s) <= Run(s)
    ensures Walk(s, i).y == MinorAfter(s, MinorSteps(i, Run(s), Rise(s)))
    ensures Walk(s, i).err == ErrorAfter(i, Run(s), Rise(s))
    ensures Run(s) > 0 ==> -Run(s) < Walk(s, i).err <= Run(s)
  {
    var dx, ady := Run(s), Rise(s);
    if i == 0 {
      if dx > 0 {
        MinorStepsUnique(0, dx, ady, 0);
      }
    } else {
      WalkClosedForm(s, i - 1);
      AdvanceClosedForm(s, i - 1);
    }
    if dx > 0 {
      ErrorBounded(i, dx, ady);
    }
  }

  /** One iteration maps the closed-form state after `i` iterations to the one after `i + 1`. */
  lemma AdvanceClosedForm(s: Setup, i: nat)
    requires s.x0 <= s.x1 && Rise(s) <= Run(s)
    ensures var dx, ady := Run(s), Rise(s);
            Advance(s, Walker(MinorAfter(s, MinorSteps(i, dx, ady)), ErrorAfter(i, dx, ady)))
            == Walker(MinorAfter(s, MinorSteps(i + 1, dx, ady)), ErrorAfter(i + 1, dx, ady))
  {
    var dx, ady := Run(s), Rise(s);
    if dx > 0 {
      MinorStepsNext(i, dx, ady);
      ErrorNext(i, dx, ady);
    } else {
      assert ady == 0;
    }
  }

  /** The `i`-th pixel written for normalised arguments `s`. */
  function PixelAt(s: Setup, i: int): Point
  {
    Place(s.steep, s.x0 + i, MinorAfter(s, MinorSteps(i, Run(s), Rise(s))))
  }

  /** The pixels `gl::line` writes, in order, as an independent closed form. */
  function LinePixels(x0: int, y0: int, x1: int, y1: int): (ps: seq<Point>)
    ensures |ps| == Max(Abs(x1 - x0), Abs(y1 - y0)) + 1
  {
    Pixels(Normalize(x0, y0, x1, y1))
  }

  /** All pixels of normalised arguments, one per major coordinate from `x0` to `x1`. */
  function Pixels(s: Setup): seq<Point>
    requires s.x0 <= s.x1
  {
    seq(Run(s) + 1, i requires 0 <= i <= Run(s) => PixelAt(s, i))
  }

  /** The pixels of the first `n` iterations, as traced by `Walk`. */
  function WalkWrites(s: Setup, n: nat): (ws: seq<Point>)
    ensures |ws| == n
    ensures forall j :: 0 <= j < n ==> ws[j] == Place(s.steep, s.x0 + j, Walk(s, j).y)
  {
    if n == 0 then [] else WalkWrites(s, n - 1) + [Place(s.steep, s.x0 + n - 1, Walk(s, n - 1).y)]
  }

  /** The loop's pixels, as traced by `Walk`, are the closed-form pixels. */
  lemma WalkPixels(s: Setup, writes: seq<Point>)
    requires s.x0 <= s.x1 && Rise(s) <= Run(s)
    requires |writes| == Run(s) + 1
    requires forall j :: 0 <= j < |writes| ==> writes[j] == Place(s.steep, s.x0 + j, Walk(s, j).y)
    ensures writes == Pixels(s)
  {
    forall j | 0 <= j < |writes|
      ensures writes[j] == Pixels(s)[j]
    {
      WalkClosedForm(s, j);
    }
  }

  /** The image after `set(p.x, p.y, c)` for each point in turn. */
  function Plot(img: Image, ps: seq<Point>, c: UInt32): (r: Image)
    requires Valid(img)
    ensures Valid(r)
    ensures r.width == img.width && r.height == img.height && |r.buffer| == |img.buffer|
    decreases |ps|
  {
    if |ps| == 0 then img
    else
      var last := ps[|ps| - 1];
      Set(Plot(img, ps[..|ps| - 1], c), last.x, last.y, c)
  }

  /** Cell `j` is the cell of some in-bounds point of `ps`. */
  ghost predicate Hits(img: Image, ps: seq<Point>, j: int)
  {
    exists i :: 0 <= i < |ps| && InBounds(img, ps[i].x, ps[i].y) && CellOf(img, ps[i].x, ps[i].y) == j
  }

  /** Plotting paints exactly the in-bounds cells of the points and leaves every other cell alone. */
  lemma {:induction false} PlotEffect(img: Image, ps: seq<Point>, c: UInt32, j: int)
    requires Valid(img) && 0 <= j < |img.buffer|
    ensures Plot(img, ps, c).buffer[j] == if Hits(img, ps, j) then c else img.buffer[j]
    decreases |ps|
  {
    if |ps| > 0 {
      var init := ps[..|ps| - 1];
      var last := ps[|ps| - 1];
      PlotEffect(img, init, c, j);
      var mid := Plot(img, init, c);
      if InBounds(img, last.x, last.y) && CellOf(img, last.x, last.y) == j {
        assert Hits(img, ps, j) by {
          assert ps[|ps| - 1] == last;
        }
      } else {
        if Hits(img, ps, j) {
          var i :| 0 <= i < |ps| && InBounds(img, ps[i].x, ps[i].y) && CellOf(img, ps[i].x, ps[i].y) == j;
          assert i < |ps| - 1 && init[i] == ps[i];
        }
        if Hits(img, init, j) {
          var i :| 0 <= i < |init| && InBounds(img, init[i].x, init[i].y) && CellOf(img, init[i].x, init[i].y) == j;
          assert ps[i] == init[i];
        }
      }
    }
  }

  /**
   The loop of `gl::line(x0, y0, x1, y1, image, color)`, returning the pixels
   passed to `image.set`, one per iteration and in order. The effect on the
   image is `DrawLine` below.
   */
  method Line(x0: int, y0: int, x1: int, y1: int) returns (writes: seq<Point>)
    ensures writes == LinePixels(x0, y0, x1, y1)
    ensures |writes| == Max(Abs(x1 - x0), Abs(y1 - y0)) + 1
  {
    var steep := false;
    var sx0, sy0, sx1, sy1 := x0, y0, x1, y1;
    if Abs(sx0 - sx1) < Abs(sy0 - sy1) {
      sx0, sy0 := sy0, sx0;
      sx1, sy1 := sy1, sx1;
      steep := true;
    }
    if sx0 > sx1 {
      sx0, sx1 := sx1, sx0;
      sy0, sy1 := sy1, sy0;
    }
    assert Setup(steep, sx0, sy0, sx1, sy1) == Normalize(x0, y0, x1, y1);
    writes := LineLoop(steep, sx0, sy0, sx1, sy1);
  }

  /** The loop of `gl::line` on arguments already swapped into normal form. */
  method LineLoop(steep: bool, sx0: int, sy0: int, sx1: int, sy1: int) returns (writes: seq<Point>)
    requires sx0 <= sx1 && Abs(sy1 - sy0) <= sx1 - sx0
    ensures writes == Pixels(Setup(steep, sx0, sy0, sx1, sy1))
  {
    ghost var s := Setup(steep, sx0, sy0, sx1, sy1);
    var dx := sx1 - sx0;
    var dy := sy1 - sy0;
    var derror2 := Abs(dy) * 2;
    var error2 := 0;
    var y := sy0;
    var x := sx0;
    writes := [];
    assert dx == Run(s) && derror2 == 2 * Rise(s);
    ghost var i: nat := 0;
    while x <= sx1
      invariant x == sx0 + i && i <= Run(s) + 1
      invariant writes == WalkWrites(s, i)
      invariant Walker(y, error2) == Walk(s, i)
    {
      var p := if steep then Point(y, x) else Point(x, y);
      writes := writes + [p];
      assert Walk(s, i + 1) == Advance(s, Walker(y, error2));
      error2 := error2 + derror2;
      if error2 > dx {
        y := y + (if sy1 > sy0 then 1 else -1);
        error2 := error2 - dx * 2;
      }
      x := x + 1;
      i := i + 1;
    }
    WalkPixels(s, writes);
  }

  /** `gl::line` normalises `(a, b)` and `(b, a)` to the same arguments. */
  lemma NormalizeSymmetric(x0: int, y0: int, x1: int, y1: int)
    ensures Normalize(x0, y0, x1, y1) == Normalize(x1, y1, x0, y0)
  {
  }

  /** Drawing from `a` to `b` writes the same pixels, in the same order, as drawing from `b` to `a`. */
  lemma LinePixelsSymmetric(x0: int, y0: int, x1: int, y1: int)
    ensures LinePixels(x0, y0, x1, y1) == LinePixels(x1, y1, x0, y0)
  {
    NormalizeSymmetric(x0, y0, x1, y1);
  }

  /** The first written pixel is the normalised start and the last is the normalised end. */
  lemma PixelsEnds(s: Setup)
    requires s.x0 <= s.x1 && Rise(s) <= Run(s)
    ensures Pixels(s)[0] == Place(s.steep, s.x0, s.y0)
    ensures Pixels(s)[Run(s)] == Place(s.steep, s.x1, s.y1)
  {
    if Run(s) > 0 {
      MinorStepsRange(0, Run(s), Rise(s));
    }
  }

  /** Both endpoints given to `gl::line` are among the written pixels. */
  lemma LinePixelsEndpoints(x0: int, y0: int, x1: int, y1: int)
    ensures Point(x0, y0) in LinePixels(x0, y0, x1, y1)
    ensures Point(x1, y1) in LinePixels(x0, y0, x1, y1)
  {
    var s := Normalize(x0, y0, x1, y1);
    PixelsEnds(s);
    var ps := LinePixels(x0, y0, x1, y1);
    assert ps[0] == Place(s.steep, s.x0, s.y0);
    assert ps[Run(s)] == Place(s.steep, s.x1, s.y1);
  }

  /** Largest coordinate difference: 1 for two 8-connected neighbours. */
  function Chebyshev(p: Point, q: Point): nat
  {
    Max(Abs(p.x - q.x), Abs(p.y - q.y))
  }

  /** Consecutive writes are 8-connected neighbours: one step on the major axis, at most one on the minor. */
  lemma LinePixelsConnected(x0: int, y0: int, x1: int, y1: int)
    ensures var ps := LinePixels(x0, y0, x1, y1);
            forall i :: 0 <= i < |ps| - 1 ==> Chebyshev(ps[i], ps[i + 1]) == 1
  {
    var s := Normalize(x0, y0, x1, y1);
    var ps := LinePixels(x0, y0, x1, y1);
    forall i | 0 <= i < |ps| - 1
      ensures Chebyshev(ps[i], ps[i + 1]) == 1
    {
      MinorStepsIncrement(i, Run(s), Rise(s));
    }
  }

  /** One step of normalised arguments moves no coordinate away from the last pixel. */
  lemma StepTowardEnd(s: Setup, i: int)
    requires s.x0 <= s.x1 && Rise(s) <= Run(s) && 0 <= i < Run(s)
    ensures var last := PixelAt(s, Run(s));
            && Abs(PixelAt(s, i + 1).x - last.x) <= Abs(PixelAt(s, i).x - last.x)
            && Abs(PixelAt(s, i + 1).y - last.y) <= Abs(PixelAt(s, i).y - last.y)
  {
    var dx, ady := Run(s), Rise(s);
    MinorStepsIncrement(i, dx, ady);
    MinorStepsRange(i, dx, ady);
    MinorStepsRange(i + 1, dx, ady);
  }

  /**
   Every write moves toward the last pixel written: neither coordinate ever
   moves away from it, so the pixels run monotonically from one endpoint to
   the other.
   */
  lemma LinePixelsMonotone(x0: int, y0: int, x1: int, y1: int)
    ensures var ps := LinePixels(x0, y0, x1, y1);
            forall i :: 0 <= i < |ps| - 1 ==>
              && Abs(ps[i + 1].x - ps[|ps| - 1].x) <= Abs(ps[i].x - ps[|ps| - 1].x)
              && Abs(ps[i + 1].y - ps[|ps| - 1].y) <= Abs(ps[i].y - ps[|ps| - 1].y)
  {
    var s := Normalize(x0, y0, x1, y1);
    var ps := LinePixels(x0, y0, x1, y1);
    forall i | 0 <= i < |ps| - 1
      ensures && Abs(ps[i + 1].x - ps[|ps| - 1].x) <= Abs(ps[i].x - ps[|ps| - 1].x)
              && Abs(ps[i + 1].y - ps[|ps| - 1].y) <= Abs(ps[i].y - ps[|ps| - 1].y)
    {
      StepTowardEnd(s, i);
    }
  }

  /** Twice the signed area of the triangle `a`, `b`, `p`: zero exactly when `p` is on the line through `a` and `b`. */
  function Cross(p: Point, a: Point, b: Point): int
  {
    (p.x - a.x) * (b.y - a.y) - (p.y - a.y) * (b.x - a.x)
  }

  /** `p` lies in the bounding box of `a` and `b`. */
  predicate InBox(p: Point, a: Point, b: Point)
  {
    Min(a.x, b.x) <= p.x <= Max(a.x, b.x) && Min(a.y, b.y) <= p.y <= Max(a.y, b.y)
  }

  lemma CrossReverse(p: Point, a: Point, b: Point)
    ensures Cross(p, b, a) == -Cross(p, a, b)
  {
    assert p.x - b.x == (p.x - a.x) - (b.x - a.x);
    assert p.y - b.y == (p.y - a.y) - (b.y - a.y);
  }

  lemma CrossTranspose(p: Point, a: Point, b: Point)
    ensures Cross(Point(p.y, p.x), Point(a.y, a.x), Point(b.y, b.x)) == -Cross(p, a, b)
  {
  }

  lemma CrossUp(s: Setup, i: int, k: int)
    requires s.y1 > s.y0
    ensures 2 * Cross(Point(s.x0 + i, MinorAfter(s, k)), Point(s.x0, s.y0), Point(s.x1, s.y1))
            == 2 * (i * Rise(s)) - 2 * (Run(s) * k)
  {
  }

  lemma CrossDown(s: Setup, i: int, k: int)
    requires s.y1 <= s.y0
    ensures 2 * Cross(Point(s.x0 + i, MinorAfter(s, k)), Point(s.x0, s.y0), Point(s.x1, s.y1))
            == -(2 * (i * Rise(s)) - 2 * (Run(s) * k))
  {
    var r: int := Rise(s);
    assert s.y1 - s.y0 == -r;
    assert MinorAfter(s, k) - s.y0 == -k;
  }

  /** A point `k` minor steps off after `i` major steps, with the loop's error bound, is near the segment. */
  lemma NearSegment(s: Setup, i: int, k: int)
    requires 0 <= i <= Run(s) && 0 <= k <= Rise(s)
    requires -Run(s) <= 2 * (i * Rise(s)) - 2 * (Run(s) * k) <= Run(s)
    ensures var q := Point(s.x0 + i, MinorAfter(s, k));
            && 2 * Abs(Cross(q, Point(s.x0, s.y0), Point(s.x1, s.y1))) <= Run(s)
            && InBox(q, Point(s.x0, s.y0), Point(s.x1, s.y1))
  {
    if s.y1 > s.y0 {
      CrossUp(s, i, k);
    } else {
      CrossDown(s, i, k);
    }
  }

  /** In normalised coordinates the `i`-th pixel is within half a pixel of the ideal segment. */
  lemma PixelNearSegment(s: Setup, i: int)
    requires s.x0 <= s.x1 && Rise(s) <= Run(s) && 0 <= i <= Run(s)
    ensures var q := Point(s.x0 + i, MinorAfter(s, MinorSteps(i, Run(s), Rise(s))));
            && 2 * Abs(Cross(q, Point(s.x0, s.y0), Point(s.x1, s.y1))) <= Run(s)
            && InBox(q, Point(s.x0, s.y0), Point(s.x1, s.y1))
  {
    MinorStepsBounds(i, Run(s), Rise(s));
    NearSegment(s, i, MinorSteps(i, Run(s), Rise(s)));
  }

  /**
   Every written pixel is a point of the line from `(x0, y0)` to `(x1, y1)`:
   inside its bounding box, and at most half a pixel off the ideal segment
   along the minor axis. Steep lines, computed with the axes exchanged, are
   written back transposed, so this holds in the caller's coordinates.
   */
  lemma LinePixelsNearLine(x0: int, y0: int, x1: int, y1: int)
    ensures forall p :: p in LinePixels(x0, y0, x1, y1) ==>
              && InBox(p, Point(x0, y0), Point(x1, y1))
              && 2 * Abs(Cross(p, Point(x0, y0), Point(x1, y1))) <= Max(Abs(x1 - x0), Abs(y1 - y0))
  {
    var s := Normalize(x0, y0, x1, y1);
    var ps := LinePixels(x0, y0, x1, y1);
    var a, b := Point(x0, y0), Point(x1, y1);
    var a', b' := Point(s.x0, s.y0), Point(s.x1, s.y1);
    forall p | p in ps
      ensures InBox(p, a, b) && 2 * Abs(Cross(p, a, b)) <= Max(Abs(x1 - x0), Abs(y1 - y0))
    {
      var i :| 0 <= i < |ps| && ps[i] == p;
      PixelNearSegment(s, i);
      var q := Point(s.x0 + i, MinorAfter(s, MinorSteps(i, Run(s), Rise(s))));
      assert p == Place(s.steep, q.x, q.y);
      CrossTranspose(q, a', b');
      var pa, pb := Place(s.steep, a'.x, a'.y), Place(s.steep, b'.x, b'.y);
      assert Abs(Cross(p, pa, pb)) == Abs(Cross(q, a', b'));
      assert InBox(p, pa, pb);
      CrossReverse(p, pa, pb);
    }
  }

  /** The image after `gl::line(x0, y0, x1, y1, image, color)`: one `set` per written pixel. */
  function DrawLine(img: Image, x0: int, y0: int, x1: int, y1: int, color: UInt32): (r: Image)
    requires Valid(img)
    ensures Valid(r) && r.width == img.width && r.height == img.height
  {
    Plot(img, LinePixels(x0, y0, x1, y1), color)
  }

  /** The image effect is the same whichever way round the endpoints are given. */
  lemma DrawLineSymmetric(img: Image, x0: int, y0: int, x1: int, y1: int, color: UInt32)
    requires Valid(img)
    ensures DrawLine(img, x0, y0, x1, y1, color) == DrawLine(img, x1, y1, x0, y0, color)
  {
    LinePixelsSymmetric(x0, y0, x1, y1);
  }

  /** An endpoint inside the image is painted with the line's colour. */
  lemma DrawLinePaintsEndpoints(img: Image, x0: int, y0: int, x1: int, y1: int, color: UInt32)
    requires Valid(img)
    ensures InBounds(img, x0, y0) ==> Get(DrawLine(img, x0, y0, x1, y1, color), x0, y0) == color
    ensures InBounds(img, x1, y1) ==> Get(DrawLine(img, x0, y0, x1, y1, color), x1, y1) == color
  {
    var ps := LinePixels(x0, y0, x1, y1);
    LinePixelsEndpoints(x0, y0, x1, y1);
    var i0 :| 0 <= i0 < |ps| && ps[i0] == Point(x0, y0);
    var i1 :| 0 <= i1 < |ps| && ps[i1] == Point(x1, y1);
    if InBounds(img, x0, y0) {
      PlotPaints(img, ps, color, i0);
    }
    if InBounds(img, x1, y1) {
      PlotPaints(img, ps, color, i1);
    }
  }

  /** A point of the sequence that lies on the image ends up in the plotted colour. */
  lemma PlotPaints(img: Image, ps: seq<Point>, c: UInt32, i: int)
    requires Valid(img) && 0 <= i < |ps| && InBounds(img, ps[i].x, ps[i].y)
    ensures Get(Plot(img, ps, c), ps[i].x, ps[i].y) == c
  {
    var p := ps[i];
    CellInBuffer(img, p.x, p.y);
    assert Hits(img, ps, CellOf(img, p.x, p.y));
    PlotEffect(img, ps, c, CellOf(img, p.x, p.y));
  }
}
