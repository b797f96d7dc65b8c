/** The RGBA sample buffer the rasteriser reads: `width × height` pixels,
    row-major, four bytes per pixel in the order red, green, blue, alpha. */
module Frame {

  /** One channel of a canvas image-data buffer. */
  type Byte = x: int | 0 <= x < 256

  datatype Pixel = Pixel(red: Byte, green: Byte, blue: Byte, alpha: Byte)

  datatype Image = Image(width: nat, height: nat, data: seq<Byte>) {
    /** The buffer holds exactly four channels for every pixel. */
    predicate Valid() {
      |data| == width * height * 4
    }
  }

  lemma MulLeq(a: int, b: int, c: nat)
    requires a <= b
    ensures a * c <= b * c
  {
  }

  lemma DivModOf(q: nat, r: nat, d: nat)
    requires r < d
    ensures (q * d + r) / d == q
    ensures (q * d + r) % d == r
  {
    var n := q * d + r;
    var k, m := n / d, n % d;
    assert k * d + m == q * d + r && 0 <= m < d;
    if k > q {
      MulLeq(q + 1, k, d);
    } else if k < q {
      MulLeq(k + 1, q, d);
    }
  }

  /** Index of the red channel of pixel (x, y): all four channels of the
      pixel lie inside a buffer of `width × height` pixels. */
  function PixelOffset(width: nat, height: nat, x: nat, y: nat): (off: nat)
    requires x < width && y < height
    ensures off + 3 < width * height * 4
  {
    assert y * width + x < (y + 1) * width <= height * width;
    (y * width + x) * 4
  }

  /** The pixel can be recovered from its offset, so distinct pixels never
      share a channel. */
  lemma PixelOffsetInverse(width: nat, height: nat, x: nat, y: nat)
    requires x < width && y < height
    ensures PixelOffset(width, height, x, y) % 4 == 0
    ensures (PixelOffset(width, height, x, y) / 4) % width == x
    ensures (PixelOffset(width, height, x, y) / 4) / width == y
  {
    DivModOf(y, x, width);
    DivModOf(y * width + x, 0, 4);
  }

  lemma PixelOffsetInjective(width: nat, height: nat, x1: nat, y1: nat, x2: nat, y2: nat)
    requires x1 < width && y1 < height && x2 < width && y2 < height
    requires PixelOffset(width, height, x1, y1) == PixelOffset(width, height, x2, y2)
    ensures x1 == x2 && y1 == y2
  {
    PixelOffsetInverse(width, height, x1, y1);
    PixelOffsetInverse(width, height, x2, y2);
  }

  /** The four channels of pixel (x, y). */
  function PixelAt(img: Image, x: nat, y: nat): Pixel
    requires img.Valid() && x < img.width && y < img.height
  {
    var off := PixelOffset(img.width, img.height, x, y);
    Pixel(img.data[off], img.data[off + 1], img.data[off + 2], img.data[off + 3])
  }

  /** The pixel at (x, y) is the whole group of four bytes at its offset, in
      the order red, green, blue, alpha. */
  lemma PixelGroup(img: Image, x: nat, y: nat)
    requires img.Valid() && x < img.width && y < img.height
    ensures var p := PixelAt(img, x, y);
      var off := PixelOffset(img.width, img.height, x, y);
      img.data[off..off + 4] == [p.red, p.green, p.blue, p.alpha]
  {
  }

}
