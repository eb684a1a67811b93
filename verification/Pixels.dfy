/** Pixel buffers: four bytes a pixel, blue, green, red, alpha, in rows of `w` pixels. */
module Pixels {

  type Byte = b: int | 0 <= b < 256

  /** `as u8`. */
  function Truncate(n: int): Byte {
    n % 256
  }

  datatype Rect = Rect(x: int, y: int, w: int, h: int)

  datatype Color = Color(r: Byte, g: Byte, b: Byte, a: Byte)

  datatype Pixel = Pixel(b: Byte, g: Byte, r: Byte, a: Byte)

  /** `c` is `n` divided by 255, rounded down, said without dividing. */
  predicate IsShare(c: int, n: int) {
    255 * c <= n < 255 * c + 255
  }

  /** The value at byte `c` of a pixel. */
  function Channel(p: Pixel, c: int): Byte {
    if c == 0 then p.b else if c == 1 then p.g else if c == 2 then p.r else p.a
  }

  function PixelX(i: nat, w: nat): nat
    requires w > 0
  {
    (i / 4) % w
  }

  function PixelY(i: nat, w: nat): nat
    requires w > 0
  {
    (i / 4) / w
  }

  /** The position in the buffer of a pixel's first byte. */
  function Offset(x: nat, y: nat, w: nat): nat {
    (y * w + x) * 4
  }

  predicate Premultiplied(p: Pixel) {
    p.b <= p.a && p.g <= p.a && p.r <= p.a
  }

  /** The pixel in the four bytes from `at` on. */
  function PixelAt(s: seq<Byte>, at: nat): Pixel
    requires at + 4 <= |s|
  {
    Pixel(s[at], s[at + 1], s[at + 2], s[at + 3])
  }

  ghost predicate PremultipliedBuffer(s: seq<Byte>) {
    forall at: nat :: at % 4 == 0 && at + 4 <= |s| ==> Premultiplied(PixelAt(s, at))
  }

  lemma OffsetIsAligned(x: nat, y: nat, w: nat)
    ensures Offset(x, y, w) % 4 == 0
  {
  }

  lemma {:induction false} LaterRow(q: nat, y: nat, w: nat)
    ensures q < y ==> q * w + w <= y * w
  {
    if q < y {
      assert q * w + w == (q + 1) * w <= y * w;
    }
  }

  lemma {:induction false} DivModUnique(p: nat, w: nat, x: nat, y: nat)
    requires x < w && p == y * w + x
    ensures p / w == y && p % w == x
  {
    var q, r := p / w, p % w;
    assert p == q * w + r && 0 <= r < w;
    LaterRow(q, y, w);
    LaterRow(y, q, w);
    assert q == y;
  }

  /** The bytes of the pixel at (x, y) are the four from its offset on. */
  lemma {:induction false} BytesOfPixel(i: nat, x: nat, y: nat, w: nat)
    requires x < w
    ensures PixelX(i, w) == x && PixelY(i, w) == y <==> Offset(x, y, w) <= i < Offset(x, y, w) + 4
    ensures Offset(x, y, w) <= i < Offset(x, y, w) + 4 ==> i % 4 == i - Offset(x, y, w)
  {
    var p := i / 4;
    assert p == (p / w) * w + p % w;
    if Offset(x, y, w) <= i < Offset(x, y, w) + 4 {
      assert p == y * w + x && i % 4 == i - 4 * p;
      DivModUnique(p, w, x, y);
    }
  }

  lemma PixelXInRow(i: nat, w: nat)
    requires w > 0
    ensures PixelX(i, w) < w
  {
  }

  lemma {:induction false} SamePixel(at: nat, c: nat, w: nat)
    requires w > 0 && at % 4 == 0 && c < 4
    ensures PixelX(at + c, w) == PixelX(at, w) && PixelY(at + c, w) == PixelY(at, w) && (at + c) % 4 == c
  {
    assert (at + c) / 4 == at / 4;
  }

  /** Four aligned bytes are one pixel. */
  lemma {:induction false} WholePixel(at: nat, w: nat)
    requires w > 0 && at % 4 == 0
    ensures Offset(PixelX(at, w), PixelY(at, w), w) == at
    ensures PixelX(at, w) == PixelX(at + 1, w) == PixelX(at + 2, w) == PixelX(at + 3, w)
    ensures PixelY(at, w) == PixelY(at + 1, w) == PixelY(at + 2, w) == PixelY(at + 3, w)
    ensures (at + 1) % 4 == 1 && (at + 2) % 4 == 2 && (at + 3) % 4 == 3
  {
    PixelXInRow(at, w);
    BytesOfPixel(at, PixelX(at, w), PixelY(at, w), w);
    OffsetIsAligned(PixelX(at, w), PixelY(at, w), w);
    SamePixel(at, 1, w);
    SamePixel(at, 2, w);
    SamePixel(at, 3, w);
    hide PixelX, PixelY, Offset;
  }

  /** A pixel inside the picture lies inside a buffer that holds the picture. */
  lemma {:induction false} OffsetFits(x: nat, y: nat, w: nat, h: nat)
    requires x < w && y < h
    ensures Offset(x, y, w) + 4 <= w * h * 4
  {
    LaterRow(y, h, w);
  }

  lemma {:induction false} RowOfByte(i: nat, w: nat, h: nat)
    requires w > 0
    ensures i < w * h * 4 <==> PixelY(i, w) < h
  {
    var p := i / 4;
    var q, r := p / w, p % w;
    assert p == q * w + r;
    LaterRow(q, h, w);
    if q >= h {
      assert q * w >= h * w;
    }
  }

  /** Writes one pixel. */
  method WritePixel(buf: array<Byte>, at: nat, p: Pixel)
    requires at + 4 <= buf.Length
    modifies buf
    ensures forall i :: 0 <= i < buf.Length ==>
      buf[i] == if at <= i < at + 4 then Channel(p, i - at) else old(buf[i])
  {
    buf[at] := p.b;
    buf[at + 1] := p.g;
    buf[at + 2] := p.r;
    buf[at + 3] := p.a;
  }
}
