/**
 The render tasks of the thread pool: `VertexTransformTask`, which moves a
 range of model vertices through the combined transform, and
 `RenderLineTask`, which draws the clipped wireframe edges of a range of
 faces. The 4x4 matrix product is an arbitrary map `mvp` on homogeneous
 points.
 */
module Render {
  import opened Words
  import opened Results
  import opened Geometry
  import opened Images
  import opened Meshes
  import opened Gl

  /** A half-open range `[lo, hi)` of vertex or face numbers handed to one task. */
  datatype Span = Span(lo: int, hi: int)

  predicate InSpan(sp: Span, i: int)
  {
    sp.lo <= i < sp.hi
  }

  // ----- VertexTransformTask -----

  /** A task's vertex range can be read: empty, or inside the vertex list. */
  predicate SpanFits(sp: Span, n: int)
  {
    sp.hi <= sp.lo || (0 <= sp.lo && sp.hi <= n)
  }

  /** The transformed list after one task: the range recomputed from the model's vertices, the rest kept. */
  function TransformSpan(m: Model, mvp: Vec4 -> Vec4, sp: Span): (r: Model)
    requires |m.transformed| == |m.verts| && SpanFits(sp, |m.verts|)
    ensures r.verts == m.verts && r.norms == m.norms && r.faces == m.faces
    ensures |r.transformed| == |m.transformed|
    ensures forall i :: 0 <= i < |m.verts| ==>
              r.transformed[i] == if InSpan(sp, i) then mvp(Homogeneous(m.verts[i])) else m.transformed[i]
  {
    m.(transformed := seq(|m.transformed|, i requires 0 <= i < |m.transformed| =>
                        if InSpan(sp, i) then mvp(Homogeneous(m.verts[i])) else m.transformed[i]))
  }

  /** `VertexTransformTask::doWork`: the loop over the task's range. */
  method VertexTransform(m: Model, mvp: Vec4 -> Vec4, sp: Span) returns (out: Model)
    requires |m.transformed| == |m.verts| && SpanFits(sp, |m.verts|)
    ensures out.verts == m.verts && out.norms == m.norms && out.faces == m.faces
    ensures |out.transformed| == |m.transformed|
    ensures forall i :: 0 <= i < |m.verts| && InSpan(sp, i) ==> out.transformed[i] == mvp(Homogeneous(m.verts[i]))
    ensures forall i :: 0 <= i < |m.verts| && !InSpan(sp, i) ==> out.transformed[i] == m.transformed[i]
  {
    out := m;
    var i := sp.lo;
    while i < sp.hi
      invariant sp.lo <= i && (sp.lo < sp.hi ==> i <= sp.hi) && (sp.hi <= sp.lo ==> i == sp.lo)
      invariant out.verts == m.verts && out.norms == m.norms && out.faces == m.faces
      invariant |out.transformed| == |m.transformed|
      invariant forall j :: 0 <= j < |m.verts| ==>
                  out.transformed[j] == if sp.lo <= j < i then mvp(Homogeneous(m.verts[j])) else m.transformed[j]
    {
      out := out.(transformed := out.transformed[i := mvp(Homogeneous(Vert(m, i)))]);
      i := i + 1;
    }
  }

  /**
   Two tasks give the same list in either order, even when their ranges
   overlap: every slot written is computed from the untouched vertex list.
   */
  lemma TransformSpansCommute(m: Model, mvp: Vec4 -> Vec4, a: Span, b: Span)
    requires |m.transformed| == |m.verts| && SpanFits(a, |m.verts|) && SpanFits(b, |m.verts|)
    ensures TransformSpan(TransformSpan(m, mvp, a), mvp, b) == TransformSpan(TransformSpan(m, mvp, b), mvp, a)
  {
    var ab := TransformSpan(TransformSpan(m, mvp, a), mvp, b);
    var ba := TransformSpan(TransformSpan(m, mvp, b), mvp, a);
    assert ab.transformed == ba.transformed;
  }

  /** Running a task twice leaves what running it once leaves. */
  lemma TransformSpanIdempotent(m: Model, mvp: Vec4 -> Vec4, a: Span)
    requires |m.transformed| == |m.verts| && SpanFits(a, |m.verts|)
    ensures TransformSpan(TransformSpan(m, mvp, a), mvp, a) == TransformSpan(m, mvp, a)
  {
    assert TransformSpan(TransformSpan(m, mvp, a), mvp, a).transformed == TransformSpan(m, mvp, a).transformed;
  }

  predicate AllFit(sps: seq<Span>, n: int)
  {
    forall k :: 0 <= k < |sps| ==> SpanFits(sps[k], n)
  }

  predicate Covers(sps: seq<Span>, i: int)
  {
    exists k :: 0 <= k < |sps| && InSpan(sps[k], i)
  }

  /** A batch of tasks run one after another, in the given order. */
  function TransformAll(m: Model, mvp: Vec4 -> Vec4, sps: seq<Span>): (r: Model)
    requires |m.transformed| == |m.verts| && AllFit(sps, |m.verts|)
    ensures r.verts == m.verts && |r.transformed| == |m.transformed|
    decreases |sps|
  {
    if |sps| == 0 then m
    else TransformSpan(TransformAll(m, mvp, sps[..|sps| - 1]), mvp, sps[|sps| - 1])
  }

  /**
   Whatever the order of the tasks, a vertex ends transformed exactly when
   some task's range holds it, and keeps its old value otherwise.
   */
  lemma {:induction false} TransformAllEffect(m: Model, mvp: Vec4 -> Vec4, sps: seq<Span>, i: int)
    requires |m.transformed| == |m.verts| && AllFit(sps, |m.verts|) && 0 <= i < |m.verts|
    ensures TransformAll(m, mvp, sps).transformed[i] ==
              if Covers(sps, i) then mvp(Homogeneous(m.verts[i])) else m.transformed[i]
    decreases |sps|
  {
    if |sps| > 0 {
      var init := sps[..|sps| - 1];
      assert AllFit(init, |m.verts|) by {
        forall k | 0 <= k < |init| ensures SpanFits(init[k], |m.verts|) {
          assert init[k] == sps[k];
        }
      }
      TransformAllEffect(m, mvp, init, i);
      if Covers(init, i) {
        var k :| 0 <= k < |init| && InSpan(init[k], i);
        assert InSpan(sps[k], i);
      }
      if Covers(sps, i) && !InSpan(sps[|sps| - 1], i) {
        var k :| 0 <= k < |sps| && InSpan(sps[k], i);
        assert k < |init| && InSpan(init[k], i);
      }
    }
  }

  /** Tasks whose ranges together cover every vertex leave the whole list transformed. */
  lemma TransformAllComplete(m: Model, mvp: Vec4 -> Vec4, sps: seq<Span>)
    requires |m.transformed| == |m.verts| && AllFit(sps, |m.verts|)
    requires forall i :: 0 <= i < |m.verts| ==> Covers(sps, i)
    ensures forall i :: 0 <= i < |m.verts| ==>
              TransformAll(m, mvp, sps).transformed[i] == mvp(Homogeneous(m.verts[i]))
  {
    forall i | 0 <= i < |m.verts|
      ensures TransformAll(m, mvp, sps).transformed[i] == mvp(Homogeneous(m.verts[i]))
    {
      TransformAllEffect(m, mvp, sps, i);
    }
  }

  // ----- RenderLineTask -----

  /** The wireframe colour: white with alpha 0, `0x00FFFFFF`. */
  const White: UInt32 := 0xFF_FFFF

  /** The depth window an edge's ends must both lie in. */
  const ZNear: real := 0.1
  const ZFar: real := 100.0

  /** One call of `gl::line`: two integer endpoints and a colour. */
  datatype LineCmd = LineCmd(x0: int, y0: int, x1: int, y1: int, color: UInt32)

  function MinReal(a: real, b: real): real
  {
    if a <= b then a else b
  }

  function MaxReal(a: real, b: real): real
  {
    if a >= b then a else b
  }

  /** The conversion of a `float` to `int`: truncation toward zero. */
  function Trunc(r: real): (n: int)
    ensures 0.0 <= r ==> n as real <= r < n as real + 1.0
    ensures r < 0.0 ==> n as real - 1.0 < r <= n as real
  {
    if r >= 0.0 then r.Floor else -((-r).Floor)
  }

  /** Truncation toward zero is odd and keeps integers. */
  lemma TruncOdd(r: real, k: int)
    ensures Trunc(-r) == -Trunc(r)
    ensures Trunc(k as real) == k
  {
  }

  /** The perspective divide. */
  function Divide(v: Vec4): (p: Vec4)
    requires v.w != 0.0
    ensures p.w == 1.0 && p.x * v.w == v.x && p.y * v.w == v.y && p.z * v.w == v.z
  {
    Vec4(v.x / v.w, v.y / v.w, v.z / v.w, v.w / v.w)
  }

  /** The divide is defined for the edge: one end is behind the eye, or neither `w` is zero. */
  predicate Dividable(v1: Vec4, v2: Vec4)
  {
    v1.w < 0.0 || v2.w < 0.0 || (v1.w != 0.0 && v2.w != 0.0)
  }

  predicate InDepth(p: Vec4)
  {
    ZNear <= p.z <= ZFar
  }

  /** The box of the two ends meets the image's extent. */
  predicate BoxMeets(p1: Vec4, p2: Vec4, width: int, height: int)
  {
    && MaxReal(p1.x, p2.x) >= 0.0 && MaxReal(p1.y, p2.y) >= 0.0
    && MinReal(p1.x, p2.x) < width as real && MinReal(p1.y, p2.y) < height as real
  }

  /**
   One edge of `RenderLineTask::doWork`: skipped when an end is behind the
   eye, when an end leaves the depth window after the divide, or when the
   edge's box misses the image; otherwise a white line between the divided
   ends, truncated to integers.
   */
  function EdgeLine(v1: Vec4, v2: Vec4, width: int, height: int): (r: Option<LineCmd>)
    requires Dividable(v1, v2)
    ensures r.Some? <==> (&& v1.w > 0.0 && v2.w > 0.0
                          && InDepth(Divide(v1)) && InDepth(Divide(v2))
                          && BoxMeets(Divide(v1), Divide(v2), width, height))
    ensures r.Some? ==> r.value.color == White
    ensures r.Some? ==> (&& r.value.x0 == Trunc(Divide(v1).x) && r.value.y0 == Trunc(Divide(v1).y)
                         && r.value.x1 == Trunc(Divide(v2).x) && r.value.y1 == Trunc(Divide(v2).y))
  {
    if v1.w < 0.0 || v2.w < 0.0 then None
    else
      var p1, p2 := Divide(v1), Divide(v2);
      if p1.z < ZNear || p1.z > ZFar || p2.z < ZNear || p2.z > ZFar then None
      else if MaxReal(p1.x, p2.x) < 0.0 || MaxReal(p1.y, p2.y) < 0.0
              || MinReal(p1.x, p2.x) >= width as real || MinReal(p1.y, p2.y) >= height as real then None
      else Some(LineCmd(Trunc(p1.x), Trunc(p1.y), Trunc(p2.x), Trunc(p2.y), White))
  }

  function Reverse(c: LineCmd): LineCmd
  {
    LineCmd(c.x1, c.y1, c.x0, c.y0, c.color)
  }

  /** Swapping an edge's ends swaps the line's ends and changes nothing else. */
  lemma EdgeLineSymmetric(v1: Vec4, v2: Vec4, width: int, height: int)
    requires Dividable(v1, v2)
    ensures EdgeLine(v2, v1, width, height) ==
              match EdgeLine(v1, v2, width, height)
              case None => None
              case Some(c) => Some(Reverse(c))
  {
  }

  function Scale(v: Vec4, s: real): Vec4
  {
    Vec4(s * v.x, s * v.y, s * v.z, s * v.w)
  }

  lemma DivScale(a: real, b: real, s: real)
    requires b != 0.0 && s != 0.0
    ensures (s * a) / (s * b) == a / b
  {
    assert (s * a) == (a / b) * (s * b);
  }

  /**
   The divide makes the edge test a function of the projective points: scaling
   both homogeneous ends by the same positive factor changes nothing.
   */
  lemma EdgeLineScaleInvariant(v1: Vec4, v2: Vec4, s: real, width: int, height: int)
    requires Dividable(v1, v2) && s > 0.0
    ensures Dividable(Scale(v1, s), Scale(v2, s))
    ensures EdgeLine(Scale(v1, s), Scale(v2, s), width, height) == EdgeLine(v1, v2, width, height)
  {
    ScaleKeepsSign(v1.w, s);
    ScaleKeepsSign(v2.w, s);
    if v1.w >= 0.0 && v2.w >= 0.0 {
      DivideScale(v1, s);
      DivideScale(v2, s);
    }
  }

  lemma ScaleKeepsSign(w: real, s: real)
    requires s > 0.0
    ensures s * w < 0.0 <==> w < 0.0
    ensures s * w == 0.0 <==> w == 0.0
  {
  }

  lemma DivideScale(v: Vec4, s: real)
    requires v.w != 0.0 && s > 0.0
    ensures Scale(v, s).w != 0.0 && Divide(Scale(v, s)) == Divide(v)
  {
    ScaleKeepsSign(v.w, s);
    DivScale(v.x, v.w, s);
    DivScale(v.y, v.w, s);
    DivScale(v.z, v.w, s);
    DivScale(v.w, v.w, s);
  }

  lemma ScaledBelow(d: real, t: real)
    requires 0.0 <= d && 0.0 <= t <= 1.0
    ensures 0.0 <= t * d <= d
  {
    assert d - t * d == (1.0 - t) * d;
  }

  lemma Between(a: real, b: real, t: real)
    requires 0.0 <= t <= 1.0
    ensures MinReal(a, b) <= Lerp(a, b, t) <= MaxReal(a, b)
  {
    var d := b - a;
    assert Lerp(a, b, t) == a + t * d;
    if a <= b {
      ScaledBelow(d, t);
      assert MinReal(a, b) == a && MaxReal(a, b) == b;
    } else {
      ScaledBelow(-d, t);
      NegatedScale(d, t);
      assert MinReal(a, b) == b && MaxReal(a, b) == a;
    }
  }

  lemma NegatedScale(d: real, t: real)
    ensures t * -d == -(t * d)
  {
  }

  /** The point a fraction `t` of the way from `a` to `b`. */
  function Lerp(a: real, b: real, t: real): real
  {
    a + t * (b - a)
  }

  predicate InImage(x: real, y: real, width: int, height: int)
  {
    0.0 <= x < width as real && 0.0 <= y < height as real
  }

  /** A segment whose box misses `[0, width) x [0, height)` has no point inside it. */
  lemma SegmentMissesImage(p1: Vec4, p2: Vec4, width: int, height: int, t: real)
    requires !BoxMeets(p1, p2, width, height) && 0.0 <= t <= 1.0
    ensures !InImage(Lerp(p1.x, p2.x, t), Lerp(p1.y, p2.y, t), width, height)
  {
    var x, y := Lerp(p1.x, p2.x, t), Lerp(p1.y, p2.y, t);
    Between(p1.x, p2.x, t);
    Between(p1.y, p2.y, t);
    if MaxReal(p1.x, p2.x) < 0.0 {
      assert x < 0.0;
    } else if MaxReal(p1.y, p2.y) < 0.0 {
      assert y < 0.0;
    } else if MinReal(p1.x, p2.x) >= width as real {
      assert x >= width as real;
    } else {
      assert y >= height as real;
    }
  }

  /**
   The box test only drops edges that miss the image: when both ends pass
   the depth test and the edge is still skipped, no point of the divided
   segment lies inside `[0, width) x [0, height)`.
   */
  lemma CullingKeepsVisibleEdges(v1: Vec4, v2: Vec4, width: int, height: int, t: real)
    requires v1.w > 0.0 && v2.w > 0.0 && 0.0 <= t <= 1.0
    requires InDepth(Divide(v1)) && InDepth(Divide(v2))
    requires EdgeLine(v1, v2, width, height).None?
    ensures !InImage(Lerp(Divide(v1).x, Divide(v2).x, t), Lerp(Divide(v1).y, Divide(v2).y, t), width, height)
  {
    assert !BoxMeets(Divide(v1), Divide(v2), width, height);
    SegmentMissesImage(Divide(v1), Divide(v2), width, height, t);
  }

  function Commands(e: Option<LineCmd>): seq<LineCmd>
  {
    if e.Some? then [e.value] else []
  }

  /** Face `iface`'s corner `nth` names a transformed vertex. */
  predicate CornerOk(m: Model, iface: int, nth: int)
  {
    0 <= iface * 3 + nth < |m.faces| && 0 <= m.faces[iface * 3 + nth].vert < |m.transformed|
  }

  function Corner4(m: Model, iface: int, nth: int): Vec4
    requires CornerOk(m, iface, nth)
  {
    m.transformed[VertIdx(m, iface, nth)]
  }

  /** What the task needs of a face: three readable corners and dividable edges. */
  predicate FaceReady(m: Model, iface: int)
  {
    && CornerOk(m, iface, 0) && CornerOk(m, iface, 1) && CornerOk(m, iface, 2)
    && Dividable(Corner4(m, iface, 0), Corner4(m, iface, 1))
    && Dividable(Corner4(m, iface, 1), Corner4(m, iface, 2))
    && Dividable(Corner4(m, iface, 2), Corner4(m, iface, 0))
  }

  /** The lines of one face. */
  function FaceLines(m: Model, iface: int, width: int, height: int): seq<LineCmd>
    requires FaceReady(m, iface)
  {
    TriangleLines([Corner4(m, iface, 0), Corner4(m, iface, 1), Corner4(m, iface, 2)], width, height)
  }

  predicate SpanReady(m: Model, sp: Span)
  {
    forall iface :: sp.lo <= iface < sp.hi ==> FaceReady(m, iface)
  }

  /** The lines of consecutive faces `lo` up to `hi`, concatenated in face order. */
  function Concat(f: int -> seq<LineCmd>, lo: int, hi: int): seq<LineCmd>
    decreases hi - lo
  {
    if hi <= lo then [] else Concat(f, lo, hi - 1) + f(hi - 1)
  }

  lemma ConcatStep(f: int -> seq<LineCmd>, lo: int, hi: int)
    requires lo < hi
    ensures Concat(f, lo, hi) == Concat(f, lo, hi - 1) + f(hi - 1)
  {
  }

  lemma {:induction false} ConcatSplit(f: int -> seq<LineCmd>, lo: int, mid: int, hi: int)
    requires lo <= mid <= hi
    ensures Concat(f, lo, hi) == Concat(f, lo, mid) + Concat(f, mid, hi)
    decreases hi - mid
  {
    if mid < hi {
      ConcatSplit(f, lo, mid, hi - 1);
    }
  }

  lemma {:induction false} ConcatShape(f: int -> seq<LineCmd>, lo: int, hi: int, k: nat, color: UInt32)
    requires forall i :: lo <= i < hi ==> |f(i)| <= k
    requires forall i, n :: lo <= i < hi && 0 <= n < |f(i)| ==> f(i)[n].color == color
    ensures |Concat(f, lo, hi)| <= k * Max(hi - lo, 0)
    ensures forall n :: 0 <= n < |Concat(f, lo, hi)| ==> Concat(f, lo, hi)[n].color == color
    decreases hi - lo
  {
    if lo < hi {
      ConcatShape(f, lo, hi - 1, k, color);
      var init := Concat(f, lo, hi - 1);
      assert Concat(f, lo, hi) == init + f(hi - 1);
      forall n | 0 <= n < |Concat(f, lo, hi)|
        ensures Concat(f, lo, hi)[n].color == color
      {
        if n >= |init| {
          assert Concat(f, lo, hi)[n] == f(hi - 1)[n - |init|];
        }
      }
    }
  }

  /** Each face's lines, with nothing for a face the task could not read. */
  function FaceFn(m: Model, width: int, height: int): int -> seq<LineCmd>
  {
    iface => if FaceReady(m, iface) then FaceLines(m, iface, width, height) else []
  }

  /** The lines a task draws, in the order it draws them. */
  function LineTask(m: Model, sp: Span, width: int, height: int): seq<LineCmd>
  {
    Concat(FaceFn(m, width, height), sp.lo, sp.hi)
  }

  /** A face gives at most three lines, all white. */
  lemma FaceLinesShape(m: Model, iface: int, width: int, height: int)
    ensures |FaceFn(m, width, height)(iface)| <= 3
    ensures forall n :: 0 <= n < |FaceFn(m, width, height)(iface)| ==> FaceFn(m, width, height)(iface)[n].color == White
  {
  }

  /** A task draws at most three lines per face, all of them white. */
  lemma LineTaskShape(m: Model, sp: Span, width: int, height: int)
    ensures |LineTask(m, sp, width, height)| <= 3 * Max(sp.hi - sp.lo, 0)
    ensures forall n :: 0 <= n < |LineTask(m, sp, width, height)| ==> LineTask(m, sp, width, height)[n].color == White
  {
    var f := FaceFn(m, width, height);
    forall i | sp.lo <= i < sp.hi
      ensures |f(i)| <= 3 && forall n :: 0 <= n < |f(i)| ==> f(i)[n].color == White
    {
      FaceLinesShape(m, i, width, height);
    }
    ConcatShape(f, sp.lo, sp.hi, 3, White);
  }

  /** Splitting a range between two tasks splits the lines between them, in order. */
  lemma LineTaskSplit(m: Model, lo: int, mid: int, hi: int, width: int, height: int)
    requires lo <= mid <= hi
    ensures LineTask(m, Span(lo, hi), width, height)
            == LineTask(m, Span(lo, mid), width, height) + LineTask(m, Span(mid, hi), width, height)
  {
    ConcatSplit(FaceFn(m, width, height), lo, mid, hi);
  }

  /** One more face appends that face's lines to a task. */
  lemma LineTaskStep(m: Model, lo: int, i: int, width: int, height: int)
    requires lo <= i
    ensures LineTask(m, Span(lo, i + 1), width, height)
            == LineTask(m, Span(lo, i), width, height) + FaceFn(m, width, height)(i)
  {
    ConcatStep(FaceFn(m, width, height), lo, i + 1);
  }

  /** The lines of a triangle's three edges: 0-1, 1-2 and 2-0, each unless skipped. */
  function TriangleLines(v: seq<Vec4>, width: int, height: int): seq<LineCmd>
    requires |v| == 3 && Dividable(v[0], v[1]) && Dividable(v[1], v[2]) && Dividable(v[2], v[0])
  {
    Commands(EdgeLine(v[0], v[1], width, height)) + Commands(EdgeLine(v[1], v[2], width, height))
      + Commands(EdgeLine(v[2], v[0], width, height))
  }

  /** The inner loop of `RenderLineTask::doWork`: edge `i` runs from corner `i` to corner `(i + 1) % 3`. */
  method RunTriangle(v: seq<Vec4>, width: int, height: int) returns (face: seq<LineCmd>)
    requires |v| == 3 && Dividable(v[0], v[1]) && Dividable(v[1], v[2]) && Dividable(v[2], v[0])
    ensures face == TriangleLines(v, width, height)
    ensures |face| <= 3
  {
    face := [];
    var i := 0;
    while i < 3
      invariant 0 <= i <= 3 && |face| <= i
      invariant face == EdgesUpTo(v, i, width, height)
    {
      var edge := RunEdge(v[i], v[(i + 1) % 3], width, height);
      face := face + edge;
      i := i + 1;
    }
    assert EdgesUpTo(v, 2, width, height) == EdgesUpTo(v, 1, width, height) + Commands(EdgeLine(v[1], v[2], width, height));
  }

  /** The lines of the first `n` edges. */
  function EdgesUpTo(v: seq<Vec4>, n: int, width: int, height: int): seq<LineCmd>
    requires |v| == 3 && 0 <= n <= 3 && Dividable(v[0], v[1]) && Dividable(v[1], v[2]) && Dividable(v[2], v[0])
    decreases n
  {
    if n == 0 then [] else EdgesUpTo(v, n - 1, width, height) + Commands(EdgeLine(v[n - 1], v[n % 3], width, height))
  }

  /**
   One edge of the triangle: a single white line between the truncated
   divided ends when both ends are in front, within the depth range and the
   edge's box meets the image, and nothing otherwise.
   */
  method RunEdge(v1: Vec4, v2: Vec4, width: int, height: int) returns (edge: seq<LineCmd>)
    requires Dividable(v1, v2)
    ensures edge == Commands(EdgeLine(v1, v2, width, height))
    ensures |edge| <= 1
    ensures |edge| == 1 <==> (&& v1.w > 0.0 && v2.w > 0.0
                              && InDepth(Divide(v1)) && InDepth(Divide(v2))
                              && BoxMeets(Divide(v1), Divide(v2), width, height))
    ensures |edge| == 1 ==> (&& edge[0].color == White
                             && edge[0].x0 == Trunc(Divide(v1).x) && edge[0].y0 == Trunc(Divide(v1).y)
                             && edge[0].x1 == Trunc(Divide(v2).x) && edge[0].y1 == Trunc(Divide(v2).y))
  {
    var e := EdgeLine(v1, v2, width, height);
    edge := if e.Some? then [e.value] else [];
  }

  /** `RenderLineTask::doWork`: the loop over the task's faces. */
  method RunLineTask(m: Model, sp: Span, width: int, height: int) returns (cmds: seq<LineCmd>)
    requires SpanReady(m, sp)
    ensures cmds == LineTask(m, sp, width, height)
  {
    cmds := [];
    var iface := sp.lo;
    while iface < sp.hi
      invariant sp.lo <= iface && (sp.lo < sp.hi ==> iface <= sp.hi) && (sp.hi <= sp.lo ==> iface == sp.lo)
      invariant cmds == LineTask(m, Span(sp.lo, iface), width, height)
    {
      var face := RunFace(m, sp, iface, width, height);
      cmds := cmds + face;
      iface := iface + 1;
    }
  }

  /** The body of the task's loop for one face: read its three corners and emit its edges. */
  method RunFace(m: Model, sp: Span, iface: int, width: int, height: int) returns (face: seq<LineCmd>)
    requires SpanReady(m, sp) && sp.lo <= iface < sp.hi
    ensures LineTask(m, Span(sp.lo, iface + 1), width, height) == LineTask(m, Span(sp.lo, iface), width, height) + face
  {
    assert FaceReady(m, iface);
    var v := [Corner4(m, iface, 0), Corner4(m, iface, 1), Corner4(m, iface, 2)];
    face := RunTriangle(v, width, height);
    LineTaskStep(m, sp.lo, iface, width, height);
  }

  // ----- the lines on the image -----

  /** The image after drawing the lines one after another. */
  function DrawAll(img: Image, cmds: seq<LineCmd>): (r: Image)
    requires Valid(img)
    ensures Valid(r) && r.width == img.width && r.height == img.height && |r.buffer| == |img.buffer|
    decreases |cmds|
  {
    if |cmds| == 0 then img
    else
      var c := cmds[|cmds| - 1];
      DrawLine(DrawAll(img, cmds[..|cmds| - 1]), c.x0, c.y0, c.x1, c.y1, c.color)
  }

  ghost predicate Painted(img: Image, cmds: seq<LineCmd>, j: int)
  {
    exists n :: 0 <= n < |cmds| && Hits(img, LinePixels(cmds[n].x0, cmds[n].y0, cmds[n].x1, cmds[n].y1), j)
  }

  lemma HitsSameShape(a: Image, b: Image, ps: seq<Point>, j: int)
    requires a.width == b.width && a.height == b.height
    ensures Hits(a, ps, j) == Hits(b, ps, j)
  {
  }

  /**
   Lines of one colour leave a cell in that colour exactly when one of them
   passes over it, and untouched otherwise: the result depends on the set of
   lines only, not on their order or repetition.
   */
  lemma {:induction false} DrawAllEffect(img: Image, cmds: seq<LineCmd>, color: UInt32, j: int)
    requires Valid(img) && 0 <= j < |img.buffer|
    requires forall n :: 0 <= n < |cmds| ==> cmds[n].color == color
    ensures DrawAll(img, cmds).buffer[j] == if Painted(img, cmds, j) then color else img.buffer[j]
    decreases |cmds|
  {
    if |cmds| > 0 {
      var init, c := cmds[..|cmds| - 1], cmds[|cmds| - 1];
      DrawAllEffect(img, init, color, j);
      var mid := DrawAll(img, init);
      var ps := LinePixels(c.x0, c.y0, c.x1, c.y1);
      PlotEffect(mid, ps, c.color, j);
      HitsSameShape(mid, img, ps, j);
      PaintedStep(img, cmds, j);
    }
  }

  /** The cells painted by a batch are those of all but its last line, plus those of the last. */
  lemma PaintedStep(img: Image, cmds: seq<LineCmd>, j: int)
    requires |cmds| > 0
    ensures var c := cmds[|cmds| - 1];
            Painted(img, cmds, j)
            <==> Painted(img, cmds[..|cmds| - 1], j) || Hits(img, LinePixels(c.x0, c.y0, c.x1, c.y1), j)
  {
    var init, c := cmds[..|cmds| - 1], cmds[|cmds| - 1];
    var ps := LinePixels(c.x0, c.y0, c.x1, c.y1);
    if Painted(img, cmds, j) && !Hits(img, ps, j) {
      var n :| 0 <= n < |cmds| && Hits(img, LinePixels(cmds[n].x0, cmds[n].y0, cmds[n].x1, cmds[n].y1), j);
      assert n < |init| && init[n] == cmds[n];
    }
    if Painted(img, init, j) {
      var n :| 0 <= n < |init| && Hits(img, LinePixels(init[n].x0, init[n].y0, init[n].x1, init[n].y1), j);
      assert cmds[n] == init[n];
    }
    if Hits(img, ps, j) {
      assert cmds[|cmds| - 1] == c;
    }
  }

  /**
   Two batches of lines of one colour give the same image when they hold the
   same lines, whatever the order and however often each occurs; so the
   tasks of a frame may finish in any order.
   */
  lemma SameLinesSameImage(img: Image, a: seq<LineCmd>, b: seq<LineCmd>, color: UInt32)
    requires Valid(img)
    requires forall n :: 0 <= n < |a| ==> a[n].color == color
    requires forall n :: 0 <= n < |b| ==> b[n].color == color
    requires forall c :: c in a <==> c in b
    ensures DrawAll(img, a) == DrawAll(img, b)
  {
    forall j | 0 <= j < |img.buffer|
      ensures DrawAll(img, a).buffer[j] == DrawAll(img, b).buffer[j]
    {
      DrawAllEffect(img, a, color, j);
      DrawAllEffect(img, b, color, j);
      if Painted(img, a, j) {
        var n :| 0 <= n < |a| && Hits(img, LinePixels(a[n].x0, a[n].y0, a[n].x1, a[n].y1), j);
        assert a[n] in b;
        var m :| 0 <= m < |b| && b[m] == a[n];
      }
      if Painted(img, b, j) {
        var n :| 0 <= n < |b| && Hits(img, LinePixels(b[n].x0, b[n].y0, b[n].x1, b[n].y1), j);
        assert b[n] in a;
        var m :| 0 <= m < |a| && a[m] == b[n];
      }
    }
  }
}
