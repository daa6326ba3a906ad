/**
 The `Image` framebuffer: a width, a height and a flat buffer of 32-bit
 pixels addressed row by row. The buffer only ever grows, so it may hold more
 cells than `width * height`.
 */
module Images {
  import opened Words

  datatype Image = Image(width: int, height: int, buffer: seq<UInt32>)

  /** What every operation keeps: non-negative sizes and a buffer that holds a full frame. */
  ghost predicate Valid(img: Image)
  {
    0 <= img.width && 0 <= img.height && |img.buffer| >= img.width * img.height
  }

  predicate InBounds(img: Image, x: int, y: int)
  {
    0 <= x < img.width && 0 <= y < img.height
  }

  /** The cell that pixel (x, y) occupies in the flat buffer. */
  function CellOf(img: Image, x: int, y: int): int
  {
    img.width * y + x
  }

  /** Every in-bounds pixel of a valid image has its cell inside the buffer. */
  lemma CellInBuffer(img: Image, x: int, y: int)
    requires Valid(img) && InBounds(img, x, y)
    ensures 0 <= CellOf(img, x, y) < img.width * img.height <= |img.buffer|
  {
    MulMonotone(img.width, 0, y);
    MulMonotone(img.width, y + 1, img.height);
  }

  /** Distinct in-bounds pixels occupy distinct cells. */
  lemma CellInjective(img: Image, x1: int, y1: int, x2: int, y2: int)
    requires InBounds(img, x1, y1) && InBounds(img, x2, y2)
    requires CellOf(img, x1, y1) == CellOf(img, x2, y2)
    ensures x1 == x2 && y1 == y2
  {
    var w := img.width;
    if y1 < y2 {
      MulMonotone(w, y1 + 1, y2);
    } else if y2 < y1 {
      MulMonotone(w, y2 + 1, y1);
    }
  }

  /** `Image(w, h)`: a zero-filled buffer of exactly `w * h` cells. */
  function Make(w: int, h: int): (img: Image)
    requires 0 <= w && 0 <= h
    ensures Valid(img)
    ensures img.width == w && img.height == h
    ensures |img.buffer| == w * h
    ensures forall i :: 0 <= i < |img.buffer| ==> img.buffer[i] == 0
  {
    MulMonotone(w, 0, h);
    Image(w, h, seq(w * h, _ => 0))
  }

  /** `size()`: the number of pixels in one frame, which never exceeds the buffer. */
  function Size(img: Image): (n: int)
    requires Valid(img)
    ensures 0 <= n <= |img.buffer|
  {
    MulMonotone(img.width, 0, img.height);
    img.width * img.height
  }

  /** `clear(c)`: every buffer cell becomes `c`, including cells beyond one frame. */
  function Clear(img: Image, c: UInt32): (r: Image)
    ensures r.width == img.width && r.height == img.height
    ensures |r.buffer| == |img.buffer|
    ensures forall i :: 0 <= i < |r.buffer| ==> r.buffer[i] == c
    ensures Valid(img) ==> Valid(r)
  {
    img.(buffer := seq(|img.buffer|, _ => c))
  }

  /**
   `resize(w, h)`: the new sizes are taken, and the buffer grows, zero-filled,
   only when it is too small for them. Existing cells keep their contents.
   */
  function Resize(img: Image, w: int, h: int): (r: Image)
    requires 0 <= w && 0 <= h
    ensures Valid(r)
    ensures r.width == w && r.height == h
    ensures |r.buffer| == Max(|img.buffer|, w * h)
    ensures r.buffer[..|img.buffer|] == img.buffer
  {
    MulMonotone(w, 0, h);
    if w * h > |img.buffer| then
      Image(w, h, img.buffer + seq(w * h - |img.buffer|, _ => 0))
    else
      Image(w, h, img.buffer)
  }

  /**
   `set(x, y, c)`: an out-of-bounds pixel is ignored; an in-bounds pixel
   writes its own cell and nothing else.
   */
  function Set(img: Image, x: int, y: int, c: UInt32): (r: Image)
    requires Valid(img)
    ensures Valid(r)
    ensures r.width == img.width && r.height == img.height
    ensures |r.buffer| == |img.buffer|
    ensures !InBounds(img, x, y) ==> r == img
    ensures InBounds(img, x, y) ==>
              0 <= CellOf(img, x, y) < |img.buffer| && r.buffer[CellOf(img, x, y)] == c
    ensures forall i :: 0 <= i < |r.buffer| && i != CellOf(img, x, y) ==> r.buffer[i] == img.buffer[i]
  {
    if y >= img.height || y < 0 || x >= img.width || x < 0 then
      img
    else
      CellInBuffer(img, x, y);
      img.(buffer := img.buffer[CellOf(img, x, y) := c])
  }

  /** The colour of an in-bounds pixel. */
  function Get(img: Image, x: int, y: int): UInt32
    requires Valid(img) && InBounds(img, x, y)
  {
    CellInBuffer(img, x, y);
    img.buffer[CellOf(img, x, y)]
  }

  /** What `set` wrote is what a later read of the same pixel sees. */
  lemma SetThenGet(img: Image, x: int, y: int, c: UInt32)
    requires Valid(img) && InBounds(img, x, y)
    ensures Get(Set(img, x, y, c), x, y) == c
  {
  }

  /** A write to one pixel leaves every other in-bounds pixel's colour alone. */
  lemma SetKeepsOtherPixels(img: Image, x: int, y: int, c: UInt32, x': int, y': int)
    requires Valid(img) && InBounds(img, x', y') && (x, y) != (x', y')
    ensures Get(Set(img, x, y, c), x', y') == Get(img, x', y')
  {
    CellInBuffer(img, x', y');
    if InBounds(img, x, y) && CellOf(img, x, y) == CellOf(img, x', y') {
      CellInjective(img, x, y, x', y');
    }
    var r := Set(img, x, y, c);
    assert r.buffer[CellOf(img, x', y')] == img.buffer[CellOf(img, x', y')];
  }

  /** Writes to different pixels commute. */
  lemma SetCommutes(img: Image, x1: int, y1: int, c1: UInt32, x2: int, y2: int, c2: UInt32)
    requires Valid(img) && (x1, y1) != (x2, y2)
    ensures Set(Set(img, x1, y1, c1), x2, y2, c2) == Set(Set(img, x2, y2, c2), x1, y1, c1)
  {
    var a := Set(Set(img, x1, y1, c1), x2, y2, c2);
    var b := Set(Set(img, x2, y2, c2), x1, y1, c1);
    if InBounds(img, x1, y1) && InBounds(img, x2, y2) {
      if CellOf(img, x1, y1) == CellOf(img, x2, y2) {
        CellInjective(img, x1, y1, x2, y2);
      }
    }
    assert a.buffer == b.buffer;
  }

  /** A second write to the same pixel hides the first one. */
  lemma SetLastWins(img: Image, x: int, y: int, c1: UInt32, c2: UInt32)
    requires Valid(img)
    ensures Set(Set(img, x, y, c1), x, y, c2) == Set(img, x, y, c2)
  {
    var a := Set(Set(img, x, y, c1), x, y, c2);
    var b := Set(img, x, y, c2);
    assert a.buffer == b.buffer;
  }

  /** Clearing discards every earlier write. */
  lemma ClearAfterSet(img: Image, x: int, y: int, c: UInt32, fill: UInt32)
    requires Valid(img)
    ensures Clear(Set(img, x, y, c), fill) == Clear(img, fill)
  {
  }

  /** Two resizes keep the larger of all the buffer lengths involved. */
  lemma ResizeTwice(img: Image, w1: int, h1: int, w2: int, h2: int)
    requires 0 <= w1 && 0 <= h1 && 0 <= w2 && 0 <= h2
    ensures |Resize(Resize(img, w1, h1), w2, h2).buffer| == Max(Max(|img.buffer|, w1 * h1), w2 * h2)
    ensures Resize(Resize(img, w1, h1), w2, h2).buffer[..|img.buffer|] == img.buffer
  {
    var r1 := Resize(img, w1, h1);
    var r2 := Resize(r1, w2, h2);
    assert r2.buffer[..|img.buffer|] == r2.buffer[..|r1.buffer|][..|img.buffer|];
  }

  /**
   A resize to a smaller frame keeps the whole buffer, so `size()` then falls
   short of the buffer length: the cells past the frame stay in place.
   */
  lemma ResizeSmallerKeepsBuffer(img: Image, w: int, h: int)
    requires Valid(img) && 0 <= w && 0 <= h && w * h < |img.buffer|
    ensures Resize(img, w, h).buffer == img.buffer
    ensures Size(Resize(img, w, h)) == w * h < |Resize(img, w, h).buffer|
  {
  }
}
