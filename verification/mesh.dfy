/**
 The Wavefront OBJ loader of `Model` and its accessors. The loader reads the
 file line by line and dispatches on the line's prefix; the numeric reading
 inside a line (the stream extraction of floats and of `v/uv/n` corners, and
 the normalisation of normals) is a `Reader` the model is parameterised by.
 */
module Meshes {
  import opened Results
  import opened Geometry

  /** A face corner as the file writes it: `v/uv/n`, 1-based. */
  datatype Corner = Corner(v: int, uv: int, n: int)

  /** A face corner as the model stores it: 0-based indices. */
  datatype FaceIndex = FaceIndex(vert: int, norm: int, uv: int)

  /** The conversion of a corner from 1-based to 0-based indices. */
  function ToIndex(c: Corner): (f: FaceIndex)
    ensures f.vert == c.v - 1 && f.norm == c.n - 1 && f.uv == c.uv - 1
  {
    FaceIndex(c.v - 1, c.n - 1, c.uv - 1)
  }

  /** Writing a stored corner back in the file's 1-based form. */
  function ToCorner(f: FaceIndex): Corner
  {
    Corner(f.vert + 1, f.uv + 1, f.norm + 1)
  }

  /** The index conversion loses nothing: the file's corner can be recovered. */
  lemma ToIndexRoundTrip(c: Corner)
    ensures ToCorner(ToIndex(c)) == c
  {
  }

  /** How the loader files a text line. */
  datatype LineKind = ObjectName | VertexLine | NormalLine | FaceLine | Ignored

  predicate HasPrefix(line: string, p: string)
  {
    |p| <= |line| && line[..|p|] == p
  }

  /** The loader's dispatch, tried in the source's order. */
  function Kind(line: string): LineKind
  {
    if HasPrefix(line, "o ") then ObjectName
    else if HasPrefix(line, "v ") then VertexLine
    else if HasPrefix(line, "vn ") then NormalLine
    else if HasPrefix(line, "f ") then FaceLine
    else Ignored
  }

  /** The prefix each kind of line starts with. */
  function PrefixOf(k: LineKind): string
    requires k != Ignored
  {
    match k
    case ObjectName => "o "
    case VertexLine => "v "
    case NormalLine => "vn "
    case FaceLine => "f "
  }

  /**
   The four prefixes exclude each other, so the order of the tests does not
   matter: a line is of a kind exactly when it starts with that kind's
   prefix, and is ignored exactly when it starts with none of them.
   */
  lemma KindByPrefix(line: string, k: LineKind)
    ensures k != Ignored ==> (Kind(line) == k <==> HasPrefix(line, PrefixOf(k)))
    ensures Kind(line) == Ignored <==> !HasPrefix(line, "o ") && !HasPrefix(line, "v ")
                                       && !HasPrefix(line, "vn ") && !HasPrefix(line, "f ")
  {
    if k != Ignored && HasPrefix(line, PrefixOf(k)) {
      assert line[0] == PrefixOf(k)[0];
      assert line[1] == PrefixOf(k)[1];
    }
  }

  /** The text-level readers of one line's payload. */
  datatype Reader = Reader(
    vertex: string -> Vec3,
    normal: string -> Vec3,
    corners: string -> seq<Corner>)

  datatype LoadError = CannotOpen | NotTriangulated

  /** `Model`: vertices, unit normals, three corners per face, and the transformed vertices. */
  datatype Model = Model(verts: seq<Vec3>, norms: seq<Vec3>, faces: seq<FaceIndex>, transformed: seq<Vec4>)

  const EmptyModel := Model([], [], [], [])

  function Indices(cs: seq<Corner>): (r: seq<FaceIndex>)
    ensures |r| == |cs|
    ensures forall i :: 0 <= i < |cs| ==> r[i] == ToIndex(cs[i])
  {
    seq(|cs|, i requires 0 <= i < |cs| => ToIndex(cs[i]))
  }

  /** One line of the loader's loop: the model after it, or the error it throws. */
  function ReadLine(m: Model, line: string, rd: Reader): Result<Model, LoadError>
  {
    match Kind(line)
    case ObjectName => Ok(m)
    case VertexLine => Ok(m.(verts := m.verts + [rd.vertex(line)]))
    case NormalLine => Ok(m.(norms := m.norms + [rd.normal(line)]))
    case FaceLine =>
      var cs := rd.corners(line);
      if |cs| != 3 then Err(NotTriangulated) else Ok(m.(faces := m.faces + Indices(cs)))
    case Ignored => Ok(m)
  }

  /** The loader's loop over the file's lines; the first bad face ends it. */
  function ReadLines(lines: seq<string>, rd: Reader): Result<Model, LoadError>
  {
    if |lines| == 0 then Ok(EmptyModel)
    else
      match ReadLines(lines[..|lines| - 1], rd)
      case Err(e) => Err(e)
      case Ok(m) => ReadLine(m, lines[|lines| - 1], rd)
  }

  /** The vertex appended with the homogeneous coordinate 1. */
  function Homogeneous(v: Vec3): Vec4
  {
    Vec4(v.x, v.y, v.z, 1.0)
  }

  function Cartesian(v: Vec4): Vec3
  {
    Vec3(v.x, v.y, v.z)
  }

  /**
   The constructor: a file that cannot be opened or holds a face without
   exactly three corners is refused; otherwise the lines are read and every
   vertex is copied into the transformed list with w = 1.
   */
  function Load(file: Option<seq<string>>, rd: Reader): Result<Model, LoadError>
  {
    match file
    case None => Err(CannotOpen)
    case Some(lines) =>
      match ReadLines(lines, rd)
      case Err(e) => Err(e)
      case Ok(m) => Ok(m.(transformed := seq(|m.verts|, i requires 0 <= i < |m.verts| => Homogeneous(m.verts[i]))))
  }

  // ----- the reference description: lines of each kind, in file order -----

  function Select(lines: seq<string>, k: LineKind): seq<string>
  {
    if |lines| == 0 then []
    else Select(lines[..|lines| - 1], k) + (if Kind(lines[|lines| - 1]) == k then [lines[|lines| - 1]] else [])
  }

  function Apply(f: string -> Vec3, ls: seq<string>): (r: seq<Vec3>)
    ensures |r| == |ls|
    ensures forall i :: 0 <= i < |ls| ==> r[i] == f(ls[i])
  {
    seq(|ls|, i requires 0 <= i < |ls| => f(ls[i]))
  }

  /** Every face line of the file has exactly three corners. */
  predicate Triangulated(lines: seq<string>, rd: Reader)
  {
    forall i :: 0 <= i < |lines| && Kind(lines[i]) == FaceLine ==> |rd.corners(lines[i])| == 3
  }

  /**
   Reading succeeds exactly when every face line has three corners; it then
   holds the vertex lines' vertices and the normal lines' normals in file
   order and three corners for each face line, and fails with
   `NotTriangulated` otherwise.
   */
  lemma {:induction false} ReadLinesSpec(lines: seq<string>, rd: Reader)
    ensures ReadLines(lines, rd).Ok? <==> Triangulated(lines, rd)
    ensures ReadLines(lines, rd).Err? ==> ReadLines(lines, rd).error == NotTriangulated
    ensures ReadLines(lines, rd).Ok? ==>
              var m := ReadLines(lines, rd).value;
              && m.verts == Apply(rd.vertex, Select(lines, VertexLine))
              && m.norms == Apply(rd.normal, Select(lines, NormalLine))
              && |m.faces| == 3 * |Select(lines, FaceLine)|
              && m.transformed == []
  {
    if |lines| > 0 {
      var init, last := lines[..|lines| - 1], lines[|lines| - 1];
      ReadLinesSpec(init, rd);
      assert forall i :: 0 <= i < |init| ==> init[i] == lines[i];
      if Triangulated(init, rd) {
        var m := ReadLines(init, rd).value;
        if Kind(last) == VertexLine {
          assert Apply(rd.vertex, Select(lines, VertexLine)) == Apply(rd.vertex, Select(init, VertexLine)) + [rd.vertex(last)];
        }
        if Kind(last) == NormalLine {
          assert Apply(rd.normal, Select(lines, NormalLine)) == Apply(rd.normal, Select(init, NormalLine)) + [rd.normal(last)];
        }
      } else {
        var i :| 0 <= i < |init| && Kind(init[i]) == FaceLine && |rd.corners(init[i])| != 3;
        assert lines[i] == init[i];
      }
    }
  }

  /** The `k`-th stored corner of the `j`-th face is the `k`-th corner of the `j`-th face line, made 0-based. */
  lemma {:induction false} FaceCorner(lines: seq<string>, rd: Reader, j: int, k: int)
    requires ReadLines(lines, rd).Ok?
    requires 0 <= j && 0 <= k < 3 && 3 * j + k < |ReadLines(lines, rd).value.faces|
    ensures j < |Select(lines, FaceLine)|
    ensures |rd.corners(Select(lines, FaceLine)[j])| == 3
    ensures ReadLines(lines, rd).value.faces[3 * j + k] == ToIndex(rd.corners(Select(lines, FaceLine)[j])[k])
  {
    var init, last := lines[..|lines| - 1], lines[|lines| - 1];
    ReadLinesSpec(lines, rd);
    ReadLinesSpec(init, rd);
    var F := Select(init, FaceLine);
    if j < |F| {
      FaceCorner(init, rd, j, k);
    } else {
      assert Kind(last) == FaceLine && j == |F|;
    }
  }

  /** The constructor's outcome: refused when the file cannot be opened or a
      face is not a triangle; otherwise one vertex, normal and face per line of
      that kind, and the transformed list is every vertex with w = 1. */
  lemma LoadSpec(file: Option<seq<string>>, rd: Reader)
    ensures file.None? ==> Load(file, rd) == Err(CannotOpen)
    ensures file.Some? ==> (Load(file, rd).Ok? <==> Triangulated(file.value, rd))
    ensures file.Some? && Load(file, rd).Err? ==> Load(file, rd).error == NotTriangulated
    ensures Load(file, rd).Ok? ==>
              var m := Load(file, rd).value;
              && NVerts(m) == |Select(file.value, VertexLine)|
              && NNorms(m) == |Select(file.value, NormalLine)|
              && NFaces(m) == |Select(file.value, FaceLine)|
              && |m.transformed| == NVerts(m)
              && (forall i :: 0 <= i < NVerts(m) ==> Cartesian(m.transformed[i]) == Vert(m, i) && m.transformed[i].w == 1.0)
  {
    if file.Some? {
      ReadLinesSpec(file.value, rd);
    }
  }

  // ----- accessors -----

  function NVerts(m: Model): nat
  {
    |m.verts|
  }

  function NNorms(m: Model): nat
  {
    |m.norms|
  }

  /** The number of faces: the corner list read three at a time. */
  function NFaces(m: Model): (n: nat)
    ensures 3 * n <= |m.faces| < 3 * n + 3
  {
    |m.faces| / 3
  }

  function Vert(m: Model, i: int): Vec3
    requires 0 <= i < |m.verts|
  {
    m.verts[i]
  }

  function Norm(m: Model, i: int): Vec3
    requires 0 <= i < |m.norms|
  {
    m.norms[i]
  }

  function VertIdx(m: Model, iface: int, nth: int): int
    requires 0 <= iface * 3 + nth < |m.faces|
  {
    m.faces[iface * 3 + nth].vert
  }

  function NormIdx(m: Model, iface: int, nth: int): int
    requires 0 <= iface * 3 + nth < |m.faces|
  {
    m.faces[iface * 3 + nth].norm
  }

  /** The `nth` vertex of face `iface`, which must name a vertex that exists. */
  function FaceVert(m: Model, iface: int, nth: int): Vec3
    requires 0 <= iface * 3 + nth < |m.faces|
    requires 0 <= VertIdx(m, iface, nth) < |m.verts|
  {
    m.verts[VertIdx(m, iface, nth)]
  }

  function FaceNorm(m: Model, iface: int, nth: int): Vec3
    requires 0 <= iface * 3 + nth < |m.faces|
    requires 0 <= NormIdx(m, iface, nth) < |m.norms|
  {
    m.norms[NormIdx(m, iface, nth)]
  }

  /**
   On a loaded model, corner `nth` of face `iface` reads back the vertex and
   normal numbers the file gave for that corner of that face line, less one;
   the vertex and the normal it names are the ones read from those lines.
   */
  lemma LoadedFaceAccess(lines: seq<string>, rd: Reader, iface: int, nth: int)
    requires Load(Some(lines), rd).Ok?
    requires 0 <= iface < NFaces(Load(Some(lines), rd).value) && 0 <= nth < 3
    ensures iface < |Select(lines, FaceLine)|
    ensures |rd.corners(Select(lines, FaceLine)[iface])| == 3
    ensures NVerts(Load(Some(lines), rd).value) == |Select(lines, VertexLine)|
    ensures NNorms(Load(Some(lines), rd).value) == |Select(lines, NormalLine)|
    ensures var m, c := Load(Some(lines), rd).value, rd.corners(Select(lines, FaceLine)[iface])[nth];
            && VertIdx(m, iface, nth) == c.v - 1
            && NormIdx(m, iface, nth) == c.n - 1
            && (1 <= c.v <= NVerts(m) ==> FaceVert(m, iface, nth) == rd.vertex(Select(lines, VertexLine)[c.v - 1]))
            && (1 <= c.n <= NNorms(m) ==> FaceNorm(m, iface, nth) == rd.normal(Select(lines, NormalLine)[c.n - 1]))
  {
    ReadLinesSpec(lines, rd);
    FaceCorner(lines, rd, iface, nth);
  }
}
