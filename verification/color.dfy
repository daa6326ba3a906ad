/**
 The `Color` class: three byte channels plus an alpha byte, packed into one
 32-bit ARGB word by `color()`. Every constructor leaves alpha at 0.
 */
module Colors {
  import opened Words

  datatype Color = Color(r: Byte, g: Byte, b: Byte, a: Byte)

  /** Weights of the four channels inside a packed word. */
  const AlphaShift: int := 0x100_0000
  const RedShift: int := 0x1_0000
  const GreenShift: int := 0x100

  /** The default constructor: every channel 0. */
  function Default(): (c: Color)
    ensures c.a == 0
    ensures Pack(c) == 0
  {
    Color(0, 0, 0, 0)
  }

  /** The byte constructor: channels as given, alpha 0. */
  function FromBytes(r: Byte, g: Byte, b: Byte): (c: Color)
    ensures c.a == 0
    ensures Red(Pack(c)) == r && Green(Pack(c)) == g && Blue(Pack(c)) == b
    ensures Pack(c) < 0x100_0000
  {
    PackUnpack(Color(r, g, b, 0));
    Color(r, g, b, 0)
  }

  /**
   One channel of the float constructor. The argument is `int(x * 255)`, the
   truncated product, which the float code computes before this point. The
   code takes `min` with 255 and stores the result in a `uint8_t`, which keeps
   it modulo 256: values above 255 saturate, while negative values wrap.
   */
  function Channel(t: int): (v: Byte)
    ensures 0 <= t <= 255 ==> v == t
    ensures t >= 255 ==> v == 255
    ensures -256 <= t < 0 ==> v == t + 256
    ensures t < 0 ==> (v - t) % 256 == 0
  {
    Min(t, 255) % 256
  }

  /** The float constructor, given the three truncated products. */
  function FromScaled(tr: int, tg: int, tb: int): (c: Color)
    ensures c.a == 0
    ensures 0 <= tr && 0 <= tg && 0 <= tb ==>
              c.r == Min(tr, 255) && c.g == Min(tg, 255) && c.b == Min(tb, 255)
  {
    Color(Channel(tr), Channel(tg), Channel(tb), 0)
  }

  /** `color()`: alpha in the top byte, then red, green and blue. */
  function Pack(c: Color): UInt32
  {
    c.a * AlphaShift + c.r * RedShift + c.g * GreenShift + c.b
  }

  /** The inverse of `Pack` channel by channel: shift right and mask. */
  function Alpha(p: UInt32): Byte { p / AlphaShift }
  function Red(p: UInt32): Byte { (p / RedShift) % 0x100 }
  function Green(p: UInt32): Byte { (p / GreenShift) % 0x100 }
  function Blue(p: UInt32): Byte { p % 0x100 }

  /** Unpacking a packed colour gives back every channel: no channel carries into its neighbour. */
  lemma PackUnpack(c: Color)
    ensures Alpha(Pack(c)) == c.a
    ensures Red(Pack(c)) == c.r
    ensures Green(Pack(c)) == c.g
    ensures Blue(Pack(c)) == c.b
  {
    var p := Pack(c);
    var low := c.g * GreenShift + c.b;
    assert 0 <= low < RedShift;
    var mid := c.a * 0x100 + c.r;
    assert p == mid * RedShift + low;
    assert p / RedShift == mid;
    assert p / AlphaShift == c.a;
    assert p / GreenShift == (c.a * 0x100 + c.r) * 0x100 + c.g;
  }

  /** Packing is injective: different colours never share a word. */
  lemma PackInjective(c1: Color, c2: Color)
    requires Pack(c1) == Pack(c2)
    ensures c1 == c2
  {
    PackUnpack(c1);
    PackUnpack(c2);
  }

  /** With alpha 0 the packed word is exactly the 24-bit RGB value. */
  lemma PackOpaqueRange(c: Color)
    requires c.a == 0
    ensures Pack(c) == c.r * 0x1_0000 + c.g * 0x100 + c.b
    ensures Pack(c) < 0x100_0000
  {
  }

  /** Every constructor produces a packed word below 2^24, alpha being 0. */
  lemma ConstructorsHaveNoAlpha(r: Byte, g: Byte, b: Byte, tr: int, tg: int, tb: int)
    ensures Alpha(Pack(Default())) == 0
    ensures Alpha(Pack(FromBytes(r, g, b))) == 0
    ensures Alpha(Pack(FromScaled(tr, tg, tb))) == 0
  {
    PackUnpack(Default());
    PackUnpack(FromBytes(r, g, b));
    PackUnpack(FromScaled(tr, tg, tb));
  }
}
