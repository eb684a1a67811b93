/**
 * The screenshot region picker: the selection a drag makes, and the overlay painted around it.  The status
 * text painted last is not part of this model.
 */
module RegionPicker {
  import opened Arithmetic
  import opened Pixels
  import opened Text

  const BORDER_THICKNESS := 3

  const DIM := Pixel(0, 0, 0, 160)
  const CLEAR := Pixel(0, 0, 0, 0)
  const WHITE := Pixel(255, 255, 255, 255)

  type U32 = n: int | 0 <= n < 0x1_0000_0000

  type I32 = n: int | -0x8000_0000 <= n <= I32_MAX

  datatype Point = Point(x: I32, y: I32)

  datatype RegionRect = RegionRect(x: int, y: int, width: int, height: int)

  /** `as i32`: a canvas of more than 2^31 - 1 pixels a side turns negative. */
  function AsI32(n: U32): I32 {
    if n > I32_MAX then n - 0x1_0000_0000 else n
  }

  // ----- The selection -----

  function RectFromDrag(start: Point, current: Point, canvasW: U32, canvasH: U32): Option<RegionRect> {
    var x0 := Max(Min(start.x, current.x), 0);
    var y0 := Max(Min(start.y, current.y), 0);
    var x1 := Min(Max(start.x, current.x), AsI32(canvasW));
    var y1 := Min(Max(start.y, current.y), AsI32(canvasH));
    if x1 <= x0 || y1 <= y0 then None else Some(RegionRect(x0, y0, x1 - x0, y1 - y0))
  }

  predicate Contains(rect: RegionRect, x: int, y: int) {
    rect.x <= x < rect.x + rect.width && rect.y <= y < rect.y + rect.height
  }

  /** The half-open box spanned by the two ends of a drag. */
  predicate Between(a: Point, b: Point, x: int, y: int) {
    (a.x <= x < b.x || b.x <= x < a.x) && (a.y <= y < b.y || b.y <= y < a.y)
  }

  predicate InCanvas(rect: RegionRect, canvasW: int, canvasH: int) {
    0 <= rect.x && 0 < rect.width && rect.x + rect.width <= canvasW
    && 0 <= rect.y && 0 < rect.height && rect.y + rect.height <= canvasH
  }

  /** It does not matter from which corner the drag started. */
  lemma {:induction false} DragSymmetric(a: Point, b: Point, canvasW: U32, canvasH: U32)
    ensures RectFromDrag(a, b, canvasW, canvasH) == RectFromDrag(b, a, canvasW, canvasH)
    ensures RectFromDrag(a, b, canvasW, canvasH) == RectFromDrag(Point(a.x, b.y), Point(b.x, a.y), canvasW, canvasH)
  {
  }

  /**
   * On a canvas whose sides fit an i32 the selection is the pixels of the drag's box that lie on the canvas;
   * there is none exactly when no pixel does.
   */
  lemma {:induction false} DragSelectsBoxOnCanvas(a: Point, b: Point, canvasW: U32, canvasH: U32)
    requires canvasW <= I32_MAX && canvasH <= I32_MAX
    ensures
      var r := RectFromDrag(a, b, canvasW, canvasH);
      && (r.Some? ==> InCanvas(r.value, canvasW, canvasH))
      && forall x, y :: Between(a, b, x, y) && 0 <= x < canvasW && 0 <= y < canvasH
                        <==> r.Some? && Contains(r.value, x, y)
  {
  }

  /** A side beyond that range is cast to a negative number, and every drag is refused. */
  lemma {:induction false} HugeCanvasSelectsNothing(a: Point, b: Point, canvasW: U32, canvasH: U32)
    requires canvasW > I32_MAX || canvasH > I32_MAX
    ensures RectFromDrag(a, b, canvasW, canvasH) == None
  {
  }

  // ----- The edges of a selection on a canvas -----

  function Clamp(v: int, hi: int): int {
    Max(0, Min(v, hi))
  }

  datatype Edges = Edges(x0: int, y0: int, x1: int, y1: int)

  function EdgesOf(rect: RegionRect, cw: int, ch: int): Edges {
    Edges(Clamp(rect.x, cw), Clamp(rect.y, ch), Clamp(rect.x + rect.width, cw), Clamp(rect.y + rect.height, ch))
  }

  /** Otherwise the code's i32 arithmetic overflows, or `clamp` panics. */
  predicate FitsI32(rect: RegionRect, cw: int, ch: int) {
    && 0 <= cw <= I32_MAX && 0 <= ch <= I32_MAX
    && -0x8000_0000 <= rect.x <= I32_MAX && 0 <= rect.width && rect.x + rect.width <= I32_MAX
    && -0x8000_0000 <= rect.y <= I32_MAX && 0 <= rect.height && rect.y + rect.height <= I32_MAX
  }

  predicate Inside(e: Edges, x: int, y: int) {
    e.x0 <= x < e.x1 && e.y0 <= y < e.y1
  }

  // ----- Dimming -----

  function DimmedByte(was: seq<Byte>, w: nat, h: nat, i: nat): Byte
    requires i < |was|
  {
    if |was| >= w * h * 4 && i < w * h * 4 then Channel(DIM, i % 4) else was[i]
  }

  method FillDim(canvas: array<Byte>, w: nat, h: nat)
    modifies canvas
    ensures forall i :: 0 <= i < canvas.Length ==> canvas[i] == DimmedByte(old(canvas[..]), w, h, i)
    ensures canvas.Length < w * h * 4 ==> canvas[..] == old(canvas[..])
  {
    var total := w * h * 4;
    if canvas.Length < total {
      return;
    }
    ghost var was := canvas[..];
    for k := 0 to w * h
      invariant forall i :: 0 <= i < canvas.Length ==> canvas[i] == if i < 4 * k then Channel(DIM, i % 4) else was[i]
    {
      WritePixel(canvas, 4 * k, DIM);
    }
  }

  // ----- Clearing the selection -----

  /** Rows are cleared from the top until one does not fit the buffer. */
  function ClearedByte(was: seq<Byte>, cw: nat, e: Edges, i: nat): Byte
    requires i < |was| && cw > 0
  {
    var x, y := PixelX(i, cw), PixelY(i, cw);
    if Inside(e, x, y) && (y * cw + e.x1) * 4 <= |was| then 0 else was[i]
  }

  ghost predicate ClearedBefore(canvas: array<Byte>, was: seq<Byte>, cw: nat, e: Edges, x: int, y: int)
    requires cw > 0 && canvas.Length == |was|
    reads canvas
  {
    forall i :: 0 <= i < canvas.Length ==>
      canvas[i] == if PixelY(i, cw) < y || (PixelY(i, cw) == y && PixelX(i, cw) < x)
          then ClearedByte(was, cw, e, i) else was[i]
  }

  method ClearRectInterior(canvas: array<Byte>, cw: nat, ch: nat, rect: RegionRect)
    requires FitsI32(rect, cw, ch)
    modifies canvas
    ensures cw == 0 ==> canvas[..] == old(canvas[..])
    ensures cw > 0 ==> forall i :: 0 <= i < canvas.Length ==>
      canvas[i] == ClearedByte(old(canvas[..]), cw, EdgesOf(rect, cw, ch), i)
  {
    var e := EdgesOf(rect, cw, ch);
    ghost var was := canvas[..];
    if e.x1 <= e.x0 || e.y1 <= e.y0 {
      return;
    }
    hide PixelX, PixelY, Offset;
    var y := e.y0;
    while y < e.y1
      invariant e.y0 <= y <= e.y1
      invariant ClearedBefore(canvas, was, cw, e, 0, y)
    {
      if (y * cw + e.x1) * 4 > canvas.Length {
        LaterRowsDoNotFit(was, cw, e, y);
        break;
      }
      for x := e.x0 to e.x1
        invariant ClearedBefore(canvas, was, cw, e, x, y)
      {
        RowFits(x, y, cw, e.x1);
        forall i | 0 <= i < canvas.Length
          ensures PixelX(i, cw) == x && PixelY(i, cw) == y <==> Offset(x, y, cw) <= i < Offset(x, y, cw) + 4
        {
          BytesOfPixel(i, x, y, cw);
        }
        WritePixel(canvas, Offset(x, y, cw), CLEAR);
      }
      y := y + 1;
    }
  }

  lemma {:induction false} RowFits(x: nat, y: nat, cw: nat, x1: nat)
    requires x < x1
    ensures Offset(x, y, cw) + 4 <= (y * cw + x1) * 4
  {
  }

  lemma {:induction false} LaterRowsDoNotFit(was: seq<Byte>, cw: nat, e: Edges, y: nat)
    requires cw > 0 && (y * cw + e.x1) * 4 > |was|
    ensures forall i :: 0 <= i < |was| && PixelY(i, cw) >= y ==> ClearedByte(was, cw, e, i) == was[i]
  {
    forall i | 0 <= i < |was| && PixelY(i, cw) >= y ensures ClearedByte(was, cw, e, i) == was[i] {
      assert PixelY(i, cw) * cw >= y * cw;
    }
  }

  // ----- The border -----

  /** Within `thickness` of either end of an interval. */
  predicate OnEdge(v: int, lo: int, hi: int, thickness: int) {
    lo <= v < lo + thickness || hi - thickness <= v < hi
  }

  /** Every point the border loops paint, on the canvas or off it. */
  predicate Painted(e: Edges, thickness: int, x: int, y: int) {
    || (e.x0 <= x < e.x1 && OnEdge(y, e.y0, e.y1, thickness))
    || (e.y0 <= y < e.y1 && OnEdge(x, e.x0, e.x1, thickness))
  }

  /** The points painted when rounds 0..t are complete,
      and of round `t` the columns before `kx` and rows before `ky`. */
  predicate PaintedSoFar(e: Edges, t: int, kx: int, ky: int, x: int, y: int) {
    || Painted(e, t, x, y)
    || (e.x0 <= x < kx && (y == e.y0 + t || y == e.y1 - 1 - t))
    || (e.y0 <= y < ky && (x == e.x0 + t || x == e.x1 - 1 - t))
  }

  /** Byte `i` belongs to a pixel that is on the canvas and wholly in the buffer. */
  predicate Writable(i: nat, cw: nat, ch: nat, length: nat)
    requires cw > 0
  {
    PixelY(i, cw) < ch && Offset(PixelX(i, cw), PixelY(i, cw), cw) + 3 < length
  }

  function BorderedByte(was: seq<Byte>, cw: nat, ch: nat, e: Edges, thickness: int, i: nat): Byte
    requires i < |was| && cw > 0
  {
    if Writable(i, cw, ch, |was|) && Painted(e, thickness, PixelX(i, cw), PixelY(i, cw)) then 255 else was[i]
  }

  ghost predicate BorderedSoFar(canvas: array<Byte>, was: seq<Byte>, cw: nat, ch: nat, e: Edges, t: int, kx: int,
      ky: int)
    requires cw > 0 && canvas.Length == |was|
    reads canvas
  {
    forall i :: 0 <= i < canvas.Length ==>
      canvas[i] == if Writable(i, cw, ch, |was|) && PaintedSoFar(e, t, kx, ky, PixelX(i, cw), PixelY(i, cw)) then 255
                   else was[i]
  }

  /** Paints one point if it is on the canvas. */
  method Put(canvas: array<Byte>, cw: nat, ch: nat, x: int, y: int)
    requires cw > 0
    modifies canvas
    ensures forall i :: 0 <= i < canvas.Length ==>
      canvas[i] == if Writable(i, cw, ch, canvas.Length) && PixelX(i, cw) == x && PixelY(i, cw) == y then 255
                   else old(canvas[i])
  {
    if x < 0 || y < 0 || x >= cw || y >= ch {
      assert forall i: nat :: PixelX(i, cw) < cw;
      return;
    }
    hide PixelX, PixelY, Offset;
    forall i | 0 <= i < canvas.Length
      ensures PixelX(i, cw) == x && PixelY(i, cw) == y <==> Offset(x, y, cw) <= i < Offset(x, y, cw) + 4
    {
      BytesOfPixel(i, x, y, cw);
    }
    if Offset(x, y, cw) + 3 < canvas.Length {
      WritePixel(canvas, Offset(x, y, cw), WHITE);
    }
  }

  /** Paints the points of column `x` in the top and bottom edges of round `t`. */
  method PutTopAndBottom(canvas: array<Byte>, ghost was: seq<Byte>, cw: nat, ch: nat, e: Edges, t: int, x: int)
    requires cw > 0 && |was| == canvas.Length && e.x0 <= x
    requires BorderedSoFar(canvas, was, cw, ch, e, t, x, e.y0)
    modifies canvas
    ensures BorderedSoFar(canvas, was, cw, ch, e, t, x + 1, e.y0)
  {
    hide PixelX, PixelY, Offset, Writable, Painted;
    Put(canvas, cw, ch, x, e.y0 + t);
    Put(canvas, cw, ch, x, e.y1 - 1 - t);
  }

  /** Paints the points of row `y` in the left and right edges of round `t`. */
  method PutLeftAndRight(canvas: array<Byte>, ghost was: seq<Byte>, cw: nat, ch: nat, e: Edges, t: int, y: int)
    requires cw > 0 && |was| == canvas.Length && e.y0 <= y
    requires BorderedSoFar(canvas, was, cw, ch, e, t, e.x1, y)
    modifies canvas
    ensures BorderedSoFar(canvas, was, cw, ch, e, t, e.x1, y + 1)
  {
    hide PixelX, PixelY, Offset, Writable, Painted;
    Put(canvas, cw, ch, e.x0 + t, y);
    Put(canvas, cw, ch, e.x1 - 1 - t, y);
  }

  method DrawRectBorder(canvas: array<Byte>, cw: nat, ch: nat, rect: RegionRect, thickness: int)
    requires FitsI32(rect, cw, ch)
    modifies canvas
    ensures
      var e := EdgesOf(rect, cw, ch);
      if e.x1 <= e.x0 || e.y1 <= e.y0 then canvas[..] == old(canvas[..])
      else cw > 0 && forall i :: 0 <= i < canvas.Length ==>
        canvas[i] == BorderedByte(old(canvas[..]), cw, ch, e, Max(thickness, 0), i)
  {
    var e := EdgesOf(rect, cw, ch);
    if e.x1 <= e.x0 || e.y1 <= e.y0 {
      return;
    }
    ghost var was := canvas[..];
    hide PixelX, PixelY, Offset, Writable, PaintedSoFar, Painted;
    Rounds(e);
    var t := 0;
    while t < thickness
      invariant 0 <= t <= Max(thickness, 0)
      invariant BorderedSoFar(canvas, was, cw, ch, e, t, e.x0, e.y0)
    {
      for x := e.x0 to e.x1
        invariant BorderedSoFar(canvas, was, cw, ch, e, t, x, e.y0)
      {
        PutTopAndBottom(canvas, was, cw, ch, e, t, x);
      }
      for y := e.y0 to e.y1
        invariant BorderedSoFar(canvas, was, cw, ch, e, t, e.x1, y)
      {
        PutLeftAndRight(canvas, was, cw, ch, e, t, y);
      }
      t := t + 1;
    }
  }

  /** How the set of painted points grows from round to round. */
  lemma {:induction false} Rounds(e: Edges)
    requires e.x0 < e.x1 && e.y0 < e.y1
    ensures forall x, y :: !PaintedSoFar(e, 0, e.x0, e.y0, x, y)
    ensures forall t, x, y :: t >= 0 ==>
      (PaintedSoFar(e, t + 1, e.x0, e.y0, x, y) <==> PaintedSoFar(e, t, e.x1, e.y1, x, y))
    ensures forall t, x, y :: PaintedSoFar(e, t, e.x0, e.y0, x, y) <==> Painted(e, t, x, y)
  {
  }

  // ----- The whole overlay -----

  /** The pixel the overlay shows at (x, y). */
  function OverlayPixel(selection: Option<RegionRect>, cw: int, ch: int, x: int, y: int): Pixel {
    if selection.None? then DIM
    else
      var e := EdgesOf(selection.value, cw, ch);
      if e.x1 <= e.x0 || e.y1 <= e.y0 then DIM
      else if Painted(e, BORDER_THICKNESS, x, y) then WHITE
      else if Inside(e, x, y) then CLEAR
      else DIM
  }

  method DrawOverlay(canvas: array<Byte>, cw: nat, ch: nat, selection: Option<RegionRect>)
    requires selection.Some? ==> FitsI32(selection.value, cw, ch)
    modifies canvas
    ensures cw > 0 && canvas.Length >= cw * ch * 4 ==>
      forall i :: 0 <= i < cw * ch * 4 ==>
        canvas[i] == Channel(OverlayPixel(selection, cw, ch, PixelX(i, cw), PixelY(i, cw)), i % 4)
  {
    FillDim(canvas, cw, ch);
    ghost var dimmed := canvas[..];
    if selection.Some? {
      ClearRectInterior(canvas, cw, ch, selection.value);
      ghost var cleared := canvas[..];
      DrawRectBorder(canvas, cw, ch, selection.value, BORDER_THICKNESS);
      if cw > 0 && canvas.Length >= cw * ch * 4 {
        forall i | 0 <= i < cw * ch * 4
          ensures canvas[i] == Channel(OverlayPixel(selection, cw, ch, PixelX(i, cw), PixelY(i, cw)), i % 4)
        {
          assert cleared[i] == ClearedByte(dimmed, cw, EdgesOf(selection.value, cw, ch), i);
          OnCanvas(i, cw, ch, canvas.Length, EdgesOf(selection.value, cw, ch));
          hide PixelX, PixelY, Offset;
        }
      }
    }
  }

  /** A byte of the picture is writable, and its row fits the buffer. */
  lemma {:induction false} OnCanvas(i: nat, cw: nat, ch: nat, length: nat, e: Edges)
    requires cw > 0 && i < cw * ch * 4 <= length && e.x1 <= cw
    ensures Writable(i, cw, ch, length)
    ensures PixelX(i, cw) < cw && PixelY(i, cw) < ch && (PixelY(i, cw) * cw + e.x1) * 4 <= length
  {
    RowOfByte(i, cw, ch);
    OffsetFits(PixelX(i, cw), PixelY(i, cw), cw, ch);
    LaterRow(PixelY(i, cw), ch, cw);
  }

  /** The 3-pixel rim of a selection. */
  predicate OnRim(rect: RegionRect, x: int, y: int) {
    Contains(rect, x, y)
    && !(rect.x + 3 <= x < rect.x + rect.width - 3 && rect.y + 3 <= y < rect.y + rect.height - 3)
  }

  /** Around a selection of at least 3 by 3 pixels: a white rim, nothing inside it, and dimming outside. */
  lemma {:induction false} OverlayOfSelection(rect: RegionRect, cw: int, ch: int, x: int, y: int)
    requires InCanvas(rect, cw, ch) && rect.width >= 3 && rect.height >= 3
    requires 0 <= x < cw && 0 <= y < ch
    ensures OverlayPixel(Some(rect), cw, ch, x, y)
         == if OnRim(rect, x, y) then WHITE else if Contains(rect, x, y) then CLEAR else DIM
  {
  }

  /** Smaller selections spill white pixels outside themselves, except along an axis where they fill the canvas. */
  lemma {:induction false} BorderStaysInsideIff(rect: RegionRect, cw: int, ch: int)
    requires InCanvas(rect, cw, ch)
    ensures (forall x, y :: 0 <= x < cw && 0 <= y < ch && OverlayPixel(Some(rect), cw, ch, x, y) == WHITE ==>
        Contains(rect, x, y))
      <==> (rect.width >= 3 || rect.width == cw) && (rect.height >= 3 || rect.height == ch)
  {
    var e := EdgesOf(rect, cw, ch);
    assert e == Edges(rect.x, rect.y, rect.x + rect.width, rect.y + rect.height);
    if rect.width < 3 && rect.width != cw {
      var x := if rect.x > 0 then rect.x - 1 else rect.x + rect.width;
      assert Painted(e, 3, x, rect.y);
      assert OverlayPixel(Some(rect), cw, ch, x, rect.y) == WHITE && !Contains(rect, x, rect.y);
    }
    if rect.height < 3 && rect.height != ch {
      var y := if rect.y > 0 then rect.y - 1 else rect.y + rect.height;
      assert Painted(e, 3, rect.x, y);
      assert OverlayPixel(Some(rect), cw, ch, rect.x, y) == WHITE && !Contains(rect, rect.x, y);
    }
  }
}
