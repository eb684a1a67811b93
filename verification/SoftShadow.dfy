/** Compositing a premultiplied card buffer onto a larger surface buffer. */
module SoftShadow {
  import opened Pixels

  /** One channel of SRC_OVER in 8-bit integers; `inv` is 255 minus the source alpha. */
  function Over(src: Byte, dst: Byte, inv: Byte): int {
    src + dst * inv / 255
  }

  /** The general blend formula, with the byte casts of the code. */
  function Blend(src: Pixel, dst: Pixel): Pixel {
    var inv := 255 - src.a;
    Pixel(Truncate(Over(src.b, dst.b, inv)), Truncate(Over(src.g, dst.g, inv)), Truncate(Over(src.r, dst.r, inv)),
          Truncate(Over(src.a, dst.a, inv)))
  }

  /** What the code stores: a transparent source is skipped, an opaque one copied. */
  function Composed(src: Pixel, dst: Pixel): Pixel {
    if src.a == 0 then dst else if src.a == 255 then src else Blend(src, dst)
  }

  // ----- The arithmetic -----

  lemma {:induction false} OverBounds(src: Byte, dst: Byte, sa: Byte, da: Byte)
    requires src <= sa && dst <= da
    ensures 0 <= Over(src, dst, 255 - sa) <= Over(sa, da, 255 - sa) <= 255
    ensures sa <= Over(sa, da, 255 - sa)
  {
    var inv := 255 - sa;
    Products(dst, da, inv);
    Quotients(dst * inv, da * inv, inv);
  }

  lemma Products(dst: int, da: int, inv: int)
    requires 0 <= dst <= da <= 255 && 0 <= inv
    ensures 0 <= dst * inv <= da * inv <= 255 * inv
  {
  }

  lemma Quotients(a: int, b: int, inv: int)
    requires 0 <= a <= b <= 255 * inv
    ensures 0 <= a / 255 <= b / 255 <= inv
  {
  }

  /** On premultiplied pixels no byte wraps. */
  lemma {:induction false} BlendNeverWraps(src: Pixel, dst: Pixel)
    requires Premultiplied(src) && Premultiplied(dst)
    ensures
      var inv, result := 255 - src.a, Blend(src, dst);
      && result.b == Over(src.b, dst.b, inv) && result.g == Over(src.g, dst.g, inv)
      && result.r == Over(src.r, dst.r, inv) && result.a == Over(src.a, dst.a, inv)
  {
    hide Over, Truncate;
    OverBounds(src.b, dst.b, src.a, dst.a);
    OverBounds(src.g, dst.g, src.a, dst.a);
    OverBounds(src.r, dst.r, src.a, dst.a);
    OverBounds(src.a, dst.a, src.a, dst.a);
    var inv := 255 - src.a;
    TruncateFits(Over(src.b, dst.b, inv));
    TruncateFits(Over(src.g, dst.g, inv));
    TruncateFits(Over(src.r, dst.r, inv));
    TruncateFits(Over(src.a, dst.a, inv));
  }

  lemma TruncateFits(n: int)
    ensures 0 <= n < 256 ==> Truncate(n) == n
  {
  }

  /** The result is premultiplied again, and at least as opaque as the source. */
  lemma {:induction false} ComposedPremultiplied(src: Pixel, dst: Pixel)
    requires Premultiplied(src) && Premultiplied(dst)
    ensures Premultiplied(Composed(src, dst)) && Composed(src, dst).a >= src.a
  {
    hide Over, Blend;
    BlendNeverWraps(src, dst);
    OverBounds(src.b, dst.b, src.a, dst.a);
    OverBounds(src.g, dst.g, src.a, dst.a);
    OverBounds(src.r, dst.r, src.a, dst.a);
  }

  /**
   * The fast path for opaque pixels always agrees with the formula, the one for transparent pixels exactly
   * when they are premultiplied.
   */
  lemma {:induction false} FastPathsAgree(src: Pixel, dst: Pixel)
    ensures src.a == 255 ==> Composed(src, dst) == Blend(src, dst)
    ensures src.a == 0 ==> (Composed(src, dst) == Blend(src, dst) <==> Premultiplied(src))
  {
    hide Over, Truncate;
    if src.a == 255 {
      OpaqueChannel(src.b, dst.b);
      OpaqueChannel(src.g, dst.g);
      OpaqueChannel(src.r, dst.r);
      OpaqueChannel(src.a, dst.a);
    }
    if src.a == 0 {
      TransparentChannel(src.b, dst.b);
      TransparentChannel(src.g, dst.g);
      TransparentChannel(src.r, dst.r);
      TransparentChannel(src.a, dst.a);
    }
  }

  lemma OpaqueChannel(src: Byte, dst: Byte)
    ensures Truncate(Over(src, dst, 0)) == src
  {
  }

  lemma {:induction false} TransparentChannel(src: Byte, dst: Byte)
    ensures Truncate(Over(src, dst, 255)) == dst <==> src == 0
  {
    assert dst * 255 / 255 == dst;
  }

  /**
   * Every channel is the source's plus what the source lets through of the destination's, rounded down, for every
   * alpha, on the fast paths and off them.
   */
  lemma {:induction false} ComposedIsOver(src: Pixel, dst: Pixel)
    requires Premultiplied(src) && Premultiplied(dst)
    ensures
      var inv, result := 255 - src.a, Composed(src, dst);
      && IsShare(result.b - src.b, dst.b * inv) && IsShare(result.g - src.g, dst.g * inv)
      && IsShare(result.r - src.r, dst.r * inv) && IsShare(result.a - src.a, dst.a * inv)
  {
    FastPathsAgree(src, dst);
    BlendNeverWraps(src, dst);
    var inv := 255 - src.a;
    OverIsShare(src.b, dst.b, inv);
    OverIsShare(src.g, dst.g, inv);
    OverIsShare(src.r, dst.r, inv);
    OverIsShare(src.a, dst.a, inv);
    hide Over, Blend, IsShare;
  }

  lemma OverIsShare(src: Byte, dst: Byte, inv: Byte)
    ensures IsShare(Over(src, dst, inv) - src, dst * inv)
  {
  }

  // ----- The loop -----

  /** Byte `i` of the destination after compositing. */
  function ComposedByte(was: seq<Byte>, dstW: nat, dstH: nat, src: seq<Byte>, srcW: nat, srcH: nat,
                        dstX: nat, dstY: nat, i: nat): Byte
    requires i < |was| && dstW > 0
  {
    var px, py := PixelX(i, dstW), PixelY(i, dstW);
    var x, y := px - dstX, py - dstY;
    if py < dstH && 0 <= x < srcW && 0 <= y < srcH
       && Offset(x, y, srcW) + 4 <= |src| && Offset(px, py, dstW) + 4 <= |was|
    then
      Channel(Composed(PixelAt(src, Offset(x, y, srcW)), PixelAt(was, Offset(px, py, dstW))), i % 4)
    else was[i]
  }

  /** The pixel of byte `i` comes before pixel (x, y) of the card in drawing order. */
  predicate Before(i: nat, dstW: nat, dstX: nat, dstY: nat, x: int, y: int)
    requires dstW > 0
  {
    PixelY(i, dstW) - dstY < y || (PixelY(i, dstW) - dstY == y && PixelX(i, dstW) - dstX < x)
  }

  ghost predicate DoneBefore(dst: array<Byte>, was: seq<Byte>, dstW: nat, dstH: nat, src: seq<Byte>, srcW: nat,
      srcH: nat,
                             dstX: nat, dstY: nat, x: int, y: int)
    requires dstW > 0 && dst.Length == |was|
    reads dst
  {
    forall i :: 0 <= i < dst.Length ==>
      dst[i] == if Before(i, dstW, dstX, dstY, x, y) then ComposedByte(was, dstW, dstH, src, srcW, srcH, dstX, dstY, i)
                else was[i]
  }

  method CompositeCardOntoSurface(dst: array<Byte>, dstW: nat, dstH: nat, src: seq<Byte>, srcW: nat, srcH: nat,
                                  dstX: nat, dstY: nat)
    modifies dst
    ensures dstW == 0 ==> dst[..] == old(dst[..])
    ensures dstW > 0 ==> forall i :: 0 <= i < dst.Length ==>
      dst[i] == ComposedByte(old(dst[..]), dstW, dstH, src, srcW, srcH, dstX, dstY, i)
  {
    if dstW == 0 {
      return; // every column lies beyond the surface
    }
    ghost var was := dst[..];
    Borders(was, dstW, dstH, src, srcW, srcH, dstX, dstY, 0);
    hide ComposedByte, Before, PixelX, PixelY, Offset, Composed, Channel;
    var y := 0;
    while y < srcH
      invariant 0 <= y <= srcH
      invariant DoneBefore(dst, was, dstW, dstH, src, srcW, srcH, dstX, dstY, 0, y)
    {
      if dstY + y >= dstH {
        break;
      }
      for x := 0 to srcW
        invariant DoneBefore(dst, was, dstW, dstH, src, srcW, srcH, dstX, dstY, x, y)
      {
        CompositePixel(dst, was, dstW, dstH, src, srcW, srcH, dstX, dstY, x, y);
      }
      Borders(was, dstW, dstH, src, srcW, srcH, dstX, dstY, y);
      y := y + 1;
    }
    Borders(was, dstW, dstH, src, srcW, srcH, dstX, dstY, y);
  }

  /** One turn of the inner loop. */
  method CompositePixel(dst: array<Byte>, ghost was: seq<Byte>, dstW: nat, dstH: nat, src: seq<Byte>, srcW: nat,
      srcH: nat,
                        dstX: nat, dstY: nat, x: nat, y: nat)
    requires dstW > 0 && |was| == dst.Length && x < srcW && y < srcH && dstY + y < dstH
    requires DoneBefore(dst, was, dstW, dstH, src, srcW, srcH, dstX, dstY, x, y)
    modifies dst
    ensures DoneBefore(dst, was, dstW, dstH, src, srcW, srcH, dstX, dstY, x + 1, y)
  {
    hide ComposedByte, Before, PixelX, PixelY, Offset, Composed, Channel;
    var dx, dy := dstX + x, dstY + y;
    ghost var before := dst[..];
    ghost var at := -4;
    ghost var pixel := Pixel(0, 0, 0, 0);
    if dx < dstW {
      var si, di := Offset(x, y, srcW), Offset(dx, dy, dstW);
      if si + 4 <= |src| && di + 4 <= dst.Length {
        PixelNotYet(was, dstW, dstH, src, srcW, srcH, dstX, dstY, x, y);
        assert !Before(di, dstW, dstX, dstY, x, y) && !Before(di + 1, dstW, dstX, dstY, x, y);
        assert !Before(di + 2, dstW, dstX, dstY, x, y) && !Before(di + 3, dstW, dstX, dstY, x, y);
        var s, d := PixelAt(src, si), Pixel(dst[di], dst[di + 1], dst[di + 2], dst[di + 3]);
        assert d == PixelAt(was, di);
        at, pixel := di, Composed(s, d);
        StorePixel(dst, di, s, d);
      }
    }
    forall i | 0 <= i < dst.Length
      ensures dst[i] == if Before(i, dstW, dstX, dstY, x + 1, y)
                        then ComposedByte(was, dstW, dstH, src, srcW, srcH, dstX, dstY, i) else was[i]
    {
      assert before[i] == if Before(i, dstW, dstX, dstY, x, y)
                          then ComposedByte(was, dstW, dstH, src, srcW, srcH, dstX, dstY, i) else was[i];
      assert dst[i] == if at <= i < at + 4 then Channel(pixel, i - at) else before[i];
      PixelIsNext(was, dstW, dstH, src, srcW, srcH, dstX, dstY, x, y, i);
    }
  }

  /** The three ways a pixel is stored. */
  method StorePixel(dst: array<Byte>, di: nat, s: Pixel, d: Pixel)
    requires di + 4 <= dst.Length
    requires d == Pixel(dst[di], dst[di + 1], dst[di + 2], dst[di + 3])
    modifies dst
    ensures forall i :: 0 <= i < dst.Length ==>
      dst[i] == if di <= i < di + 4 then Channel(Composed(s, d), i - di) else old(dst[i])
  {
    if s.a == 0 {
      return;
    }
    if s.a == 255 {
      WritePixel(dst, di, s);
      return;
    }
    var inv := 255 - s.a;
    dst[di] := Truncate(Over(s.b, dst[di], inv));
    dst[di + 1] := Truncate(Over(s.g, dst[di + 1], inv));
    dst[di + 2] := Truncate(Over(s.r, dst[di + 2], inv));
    dst[di + 3] := Truncate(Over(s.a, dst[di + 3], inv));
  }

  lemma {:induction false} PixelNotYet(was: seq<Byte>, dstW: nat, dstH: nat, src: seq<Byte>, srcW: nat, srcH: nat,
                                       dstX: nat, dstY: nat, x: nat, y: nat)
    requires dstW > 0 && dstX + x < dstW
    ensures forall i :: Offset(dstX + x, dstY + y, dstW) <= i < Offset(dstX + x, dstY + y, dstW) + 4 ==>
      !Before(i, dstW, dstX, dstY, x, y)
  {
    var at := Offset(dstX + x, dstY + y, dstW);
    forall i | at <= i < at + 4 ensures !Before(i, dstW, dstX, dstY, x, y) {
      BytesOfPixel(i, dstX + x, dstY + y, dstW);
    }
  }

  /** What turning to pixel (x, y) means for byte `i` of the destination. */
  lemma {:induction false} PixelIsNext(was: seq<Byte>, dstW: nat, dstH: nat, src: seq<Byte>, srcW: nat, srcH: nat,
                                       dstX: nat, dstY: nat, x: nat, y: nat, i: nat)
    requires dstW > 0 && x < srcW && y < srcH && i < |was| && dstY + y < dstH
    ensures
      var dx, dy := dstX + x, dstY + y;
      var here := PixelX(i, dstW) == dx && PixelY(i, dstW) == dy;
      && (Before(i, dstW, dstX, dstY, x + 1, y) <==> Before(i, dstW, dstX, dstY, x, y) || here)
      && (here ==> dx < dstW && !Before(i, dstW, dstX, dstY, x, y))
      && (dx < dstW ==> (here <==> Offset(dx, dy, dstW) <= i < Offset(dx, dy, dstW) + 4))
      && (here ==>
            ComposedByte(was, dstW, dstH, src, srcW, srcH, dstX, dstY, i)
            == if Offset(x, y, srcW) + 4 <= |src| && Offset(dx, dy, dstW) + 4 <= |was| then
                 Channel(Composed(PixelAt(src, Offset(x, y, srcW)), PixelAt(was, Offset(dx, dy, dstW))),
                         i - Offset(dx, dy, dstW))
               else was[i])
  {
    hide PixelX, PixelY, Offset, Composed;
    var dx, dy := dstX + x, dstY + y;
    PixelXInRow(i, dstW);
    if dx < dstW {
      BytesOfPixel(i, dx, dy, dstW);
      OffsetIsAligned(dx, dy, dstW);
    }
  }

  /** Outside the card's columns and rows nothing changes, so passing over them keeps the bytes right. */
  lemma {:induction false} Borders(was: seq<Byte>, dstW: nat, dstH: nat, src: seq<Byte>, srcW: nat, srcH: nat,
                                   dstX: nat, dstY: nat, y: nat)
    requires dstW > 0
    ensures forall i :: 0 <= i < |was| && Before(i, dstW, dstX, dstY, 0, 0) ==>
      ComposedByte(was, dstW, dstH, src, srcW, srcH, dstX, dstY, i) == was[i]
    ensures forall i :: 0 <= i < |was| && Before(i, dstW, dstX, dstY, srcW, y) ==> Before(i, dstW, dstX, dstY, 0, y + 1)
    ensures forall i :: (0 <= i < |was| && Before(i, dstW, dstX, dstY, 0, y + 1) &&
                         !Before(i, dstW, dstX, dstY, srcW, y)) ==>
      ComposedByte(was, dstW, dstH, src, srcW, srcH, dstX, dstY, i) == was[i]
    ensures y >= srcH || dstY + y >= dstH ==>
      forall i :: 0 <= i < |was| && !Before(i, dstW, dstX, dstY, 0, y) ==>
        ComposedByte(was, dstW, dstH, src, srcW, srcH, dstX, dstY, i) == was[i]
  {
    hide PixelX, PixelY, Offset, Composed, Channel;
  }

  // ----- What it does to the picture -----

  /** Bytes outside the card's rectangle, or of rows beyond the surface, stay as they were. */
  lemma {:induction false} OutsideUntouched(was: seq<Byte>, dstW: nat, dstH: nat, src: seq<Byte>, srcW: nat, srcH: nat,
                                            dstX: nat, dstY: nat, i: nat)
    requires dstW > 0 && i < |was|
    requires !(dstX <= PixelX(i, dstW) < dstX + srcW
        && dstY <= PixelY(i, dstW) < dstY + srcH) || PixelY(i, dstW) >= dstH
    ensures ComposedByte(was, dstW, dstH, src, srcW, srcH, dstX, dstY, i) == was[i]
  {
  }

  /** Every card pixel that falls on the surface is composed with the surface pixel below it. */
  lemma {:induction false} CardIsComposed(was: seq<Byte>, now: seq<Byte>, dstW: nat, dstH: nat, src: seq<Byte>,
                                          srcW: nat, srcH: nat, dstX: nat, dstY: nat, x: nat, y: nat)
    requires dstW > 0 && |now| == |was| && x < srcW && y < srcH && dstX + x < dstW && dstY + y < dstH
    requires Offset(x, y, srcW) + 4 <= |src| && Offset(dstX + x, dstY + y, dstW) + 4 <= |was|
    requires forall i :: 0 <= i < |was| ==>
      now[i] == ComposedByte(was, dstW, dstH, src, srcW, srcH, dstX, dstY, i)
    ensures
      var at := Offset(dstX + x, dstY + y, dstW);
      PixelAt(now, at) == Composed(PixelAt(src, Offset(x, y, srcW)), PixelAt(was, at))
  {
    var at := Offset(dstX + x, dstY + y, dstW);
    var pixel := Composed(PixelAt(src, Offset(x, y, srcW)), PixelAt(was, at));
    forall c: nat | c < 4 ensures now[at + c] == Channel(pixel, c) {
      BytesOfPixel(at + c, dstX + x, dstY + y, dstW);
      hide PixelX, PixelY, Offset, Composed, Channel;
    }
    assert Channel(pixel, 0) == pixel.b && Channel(pixel, 1) == pixel.g && Channel(pixel, 2) == pixel.r
        && Channel(pixel, 3) == pixel.a;
    hide Composed, Channel, Offset;
  }

  /** A surface of premultiplied pixels stays one, every pixel of it. */
  lemma {:induction false} SurfaceStaysPremultiplied(was: seq<Byte>, now: seq<Byte>, dstW: nat, dstH: nat,
                                                     src: seq<Byte>, srcW: nat, srcH: nat, dstX: nat, dstY: nat)
    requires dstW > 0 && PremultipliedBuffer(was) && PremultipliedBuffer(src) && |now| == |was|
    requires forall i :: 0 <= i < |was| ==>
      now[i] == ComposedByte(was, dstW, dstH, src, srcW, srcH, dstX, dstY, i)
    ensures PremultipliedBuffer(now)
  {
    forall at: nat | at % 4 == 0 && at + 4 <= |now| ensures Premultiplied(PixelAt(now, at)) {
      PixelComposed(was, dstW, dstH, src, srcW, srcH, dstX, dstY, at);
    }
  }

  lemma {:induction false} PixelComposed(was: seq<Byte>, dstW: nat, dstH: nat, src: seq<Byte>, srcW: nat, srcH: nat,
                                         dstX: nat, dstY: nat, at: nat)
    requires dstW > 0 && PremultipliedBuffer(was) && PremultipliedBuffer(src)
    requires at % 4 == 0 && at + 4 <= |was|
    ensures Premultiplied(Pixel(ComposedByte(was, dstW, dstH, src, srcW, srcH, dstX, dstY, at),
                                ComposedByte(was, dstW, dstH, src, srcW, srcH, dstX, dstY, at + 1),
                                ComposedByte(was, dstW, dstH, src, srcW, srcH, dstX, dstY, at + 2),
                                ComposedByte(was, dstW, dstH, src, srcW, srcH, dstX, dstY, at + 3)))
  {
    var px, py := PixelX(at, dstW), PixelY(at, dstW);
    WholePixel(at, dstW);
    assert Premultiplied(PixelAt(was, at));
    var x, y := px - dstX, py - dstY;
    if 0 <= x < srcW && 0 <= y < srcH && Offset(x, y, srcW) + 4 <= |src| {
      OffsetIsAligned(x, y, srcW);
      assert Premultiplied(PixelAt(src, Offset(x, y, srcW)));
      ComposedPremultiplied(PixelAt(src, Offset(x, y, srcW)), PixelAt(was, at));
    }
    hide PixelX, PixelY, Offset, Composed;
  }
}
