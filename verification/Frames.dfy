/** The assembly of placed stripes into one image, later stripes over earlier ones. */
module Frames {
  import opened Bytes
  import opened Options
  import opened Products
  import opened Overlap
  import opened Movement

  /** The geometry of an assembly: the frame size and the width of the image. */
  datatype Context = Context(d: Dims, imageWidth: nat)

  predicate AllFrames(d: Dims, frames: seq<Frame>) {
    forall i | 0 <= i < |frames| :: FrameOk(d, frames[i])
  }

  // ----- one stripe ------------------------------------------------------------------

  /** The stripe placed at (x, y) has a pixel at (ix, iy) of the image. */
  predicate Covered(d: Dims, x: int, y: int, ix: int, iy: int) {
    0 <= ix - x < d.w && 0 <= iy - y < d.h
  }

  function Index(width: nat, ix: nat, iy: nat): nat { ix + iy * width }

  lemma IndexInside(width: nat, height: nat, ix: nat, iy: nat)
    requires ix < width && iy < height
    ensures Index(width, ix, iy) < width * height
  {
    SmallerProduct(iy + 1, height, width, width);
    assert (iy + 1) * width == iy * width + width;
  }

  lemma IndexInjective(width: nat, ix: nat, iy: nat, jx: nat, jy: nat)
    requires ix < width && jx < width && Index(width, ix, iy) == Index(width, jx, jy)
    ensures ix == jx && iy == jy
  {
    assert (iy - jy) * width == jx - ix;
    assert iy - jy >= 1 ==> (iy - jy) * width >= width;
    assert iy - jy <= -1 ==> (iy - jy) * width <= -(width as int);
  }

  function At(data: array<Byte>, width: nat, height: nat, ix: nat, iy: nat): Byte
    requires data.Length == width * height && ix < width && iy < height
    reads data
  {
    IndexInside(width, height, ix, iy);
    data[Index(width, ix, iy)]
  }

  /** One row of a stripe, clipped to the image. */
  method BlitRow(d: Dims, frame: Frame, data: array<Byte>, width: nat, height: nat, x: int, y: int, iy: nat)
    requires FrameOk(d, frame) && data.Length == width * height && iy < height && 0 <= iy - y < d.h
    modifies data
    ensures forall jx, jy | 0 <= jx < width && 0 <= jy < height ::
              At(data, width, height, jx, jy) ==
              if jy == iy && Covered(d, x, y, jx, jy) then frame[iy - y][jx - x] else old(At(data, width, height, jx, jy))
  {
    var fx, ix := if x < 0 then -x else 0, if x < 0 then 0 else x;
    while fx < d.w && ix < width
      invariant fx == ix - x && 0 <= fx && 0 <= ix && (x < 0 || ix >= x)
      invariant forall jx, jy | 0 <= jx < width && 0 <= jy < height ::
                  At(data, width, height, jx, jy) ==
                  if jy == iy && Covered(d, x, y, jx, jy) && jx < ix then frame[iy - y][jx - x]
                  else old(At(data, width, height, jx, jy))
    {
      IndexInside(width, height, ix, iy);
      StorePixel(data, width, height, ix, iy, frame[iy - y][fx]);
      fx, ix := fx + 1, ix + 1;
    }
  }

  method StorePixel(data: array<Byte>, width: nat, height: nat, ix: nat, iy: nat, b: Byte)
    requires data.Length == width * height && ix < width && iy < height
    modifies data
    ensures forall jx, jy | 0 <= jx < width && 0 <= jy < height ::
              At(data, width, height, jx, jy) ==
              if jx == ix && jy == iy then b else old(At(data, width, height, jx, jy))
  {
    IndexInside(width, height, ix, iy);
    data[Index(width, ix, iy)] := b;
    forall jx, jy | 0 <= jx < width && 0 <= jy < height
      ensures At(data, width, height, jx, jy) ==
              if jx == ix && jy == iy then b else old(At(data, width, height, jx, jy))
    {
      IndexInside(width, height, jx, jy);
      if Index(width, ix, iy) == Index(width, jx, jy) { IndexInjective(width, ix, iy, jx, jy); }
    }
  }

  /** A stripe at (x, y), partly or wholly outside the image perhaps: exactly the covered pixels change. */
  method BlitStripe(d: Dims, frame: Frame, data: array<Byte>, width: nat, height: nat, x: int, y: int)
    requires FrameOk(d, frame) && data.Length == width * height
    modifies data
    ensures forall jx, jy | 0 <= jx < width && 0 <= jy < height ::
              At(data, width, height, jx, jy) ==
              if Covered(d, x, y, jx, jy) then frame[jy - y][jx - x] else old(At(data, width, height, jx, jy))
  {
    var fy, iy := if y < 0 then -y else 0, if y < 0 then 0 else y;
    while fy < d.h && iy < height
      invariant fy == iy - y && 0 <= fy && 0 <= iy && (y < 0 || iy >= y)
      invariant forall jx, jy | 0 <= jx < width && 0 <= jy < height ::
                  At(data, width, height, jx, jy) ==
                  if Covered(d, x, y, jx, jy) && jy < iy then frame[jy - y][jx - x]
                  else old(At(data, width, height, jx, jy))
    {
      BlitRow(d, frame, data, width, height, x, y, iy);
      fy, iy := fy + 1, iy + 1;
    }
  }

  // ----- the whole image ---------------------------------------------------------------

  /** The sum of the first n deltas. */
  function Sum(deltas: seq<Delta>, n: nat): Delta
    requires n <= |deltas|
  {
    if n == 0 then Delta(0, 0)
    else Delta(Sum(deltas, n - 1).x + deltas[n - 1].x, Sum(deltas, n - 1).y + deltas[n - 1].y)
  }

  /** The C division by two, towards zero. */
  function Half(n: int): int { if n >= 0 then n / 2 else -(-n / 2) }

  predicate Reverse(deltas: seq<Delta>) { Sum(deltas, |deltas|).y < 0 }

  function Height(d: Dims, deltas: seq<Delta>): nat { Abs(Sum(deltas, |deltas|).y) + d.h }

  /** Where the first stripe would go: centred, at the top or, reversed, at the bottom. */
  function Start(ctx: Context, deltas: seq<Delta>): Delta {
    Delta(Half(ctx.imageWidth - ctx.d.w), if Reverse(deltas) then Height(ctx.d, deltas) - ctx.d.h else 0)
  }

  function Place(start: Delta, deltas: seq<Delta>, k: nat): Delta
    requires k < |deltas|
  {
    Delta(start.x + Sum(deltas, k + 1).x, start.y + Sum(deltas, k + 1).y)
  }

  /** The pixel after the first n stripes. */
  function Composite(d: Dims, frames: seq<Frame>, start: Delta, deltas: seq<Delta>, n: nat, ix: int, iy: int): Byte
    requires AllFrames(d, frames) && n <= |frames| == |deltas|
  {
    if n == 0 then 0
    else
      var p := Place(start, deltas, n - 1);
      if Covered(d, p.x, p.y, ix, iy) then frames[n - 1][iy - p.y][ix - p.x]
      else Composite(d, frames, start, deltas, n - 1, ix, iy)
  }

  predicate CoveredBy(d: Dims, start: Delta, deltas: seq<Delta>, k: nat, ix: int, iy: int)
    requires k < |deltas|
  {
    Covered(d, Place(start, deltas, k).x, Place(start, deltas, k).y, ix, iy)
  }

  /** The pixel is that of the last stripe that covers it. */
  lemma {:induction false} CompositeIsLast(
      d: Dims, frames: seq<Frame>, start: Delta, deltas: seq<Delta>, n: nat, ix: int, iy: int, k: nat)
    requires AllFrames(d, frames) && k < n <= |frames| == |deltas|
    requires CoveredBy(d, start, deltas, k, ix, iy)
    requires forall l | k < l < n :: !CoveredBy(d, start, deltas, l, ix, iy)
    ensures Composite(d, frames, start, deltas, n, ix, iy) ==
            frames[k][iy - Place(start, deltas, k).y][ix - Place(start, deltas, k).x]
  {
    if k < n - 1 {
      assert !CoveredBy(d, start, deltas, n - 1, ix, iy);
      CompositeIsLast(d, frames, start, deltas, n - 1, ix, iy, k);
    }
  }

  /** A pixel no stripe covers is zero. */
  lemma {:induction false} CompositeIsZero(
      d: Dims, frames: seq<Frame>, start: Delta, deltas: seq<Delta>, n: nat, ix: int, iy: int)
    requires AllFrames(d, frames) && n <= |frames| == |deltas|
    requires forall l | 0 <= l < n :: !CoveredBy(d, start, deltas, l, ix, iy)
    ensures Composite(d, frames, start, deltas, n, ix, iy) == 0
  {
    if n > 0 {
      assert !CoveredBy(d, start, deltas, n - 1, ix, iy);
      CompositeIsZero(d, frames, start, deltas, n - 1, ix, iy);
    }
  }

  datatype Image = Image(data: array<Byte>, width: nat, height: nat, flipped: bool)

  method SumHeights(deltas: seq<Delta>) returns (height: int)
    ensures height == Sum(deltas, |deltas|).y
  {
    height := 0;
    for l := 0 to |deltas|
      invariant height == Sum(deltas, l).y
    {
      height := height + deltas[l].y;
    }
  }

  /** For any deltas, every pixel is that of the composite; the first delta is reset. */
  method AssembleFrames(ctx: Context, frames: seq<Frame>, deltas: array<Delta>) returns (r: Option<Image>)
    requires AllFrames(ctx.d, frames) && |frames| == deltas.Length
    modifies deltas
    ensures r.None? <==> frames == []
    ensures frames != [] ==> deltas[..] == old(deltas[..])[0 := Delta(0, 0)]
    ensures r.Some? ==>
              var img, start := r.value, Start(ctx, deltas[..]);
              img.width == ctx.imageWidth && img.height == Height(ctx.d, deltas[..]) &&
              (img.flipped <==> !Reverse(deltas[..])) &&
              ShowsComposite(img.data, img.width, img.height, ctx.d, frames, start, deltas[..], |frames|)
  {
    if frames == [] { return None; }
    deltas[0] := Delta(0, 0);
    var ds := deltas[..];
    var height := SumHeights(ds);
    var reverse := height < 0;
    if reverse { height := -height; }
    height := height + ctx.d.h;
    var x, y := Half(ctx.imageWidth - ctx.d.w), if reverse then height - ctx.d.h else 0;
    var data := BlitAll(ctx.d, frames, ds, ctx.imageWidth, height, x, y);
    r := Some(Image(data, ctx.imageWidth, height, !reverse));
  }

  method BlitAll(d: Dims, frames: seq<Frame>, deltas: seq<Delta>, width: nat, height: nat, x0: int, y0: int)
    returns (data: array<Byte>)
    requires AllFrames(d, frames) && |frames| == |deltas|
    ensures fresh(data) && data.Length == width * height
    ensures ShowsComposite(data, width, height, d, frames, Delta(x0, y0), deltas, |frames|)
  {
    data := NewImage(width, height);
    var x, y := x0, y0;
    ghost var start := Delta(x0, y0);
    for l := 0 to |frames|
      invariant x == x0 + Sum(deltas, l).x && y == y0 + Sum(deltas, l).y
      invariant ShowsComposite(data, width, height, d, frames, start, deltas, l)
    {
      x, y := x + deltas[l].x, y + deltas[l].y;
      assert Place(start, deltas, l) == Delta(x, y);
      BlitNext(d, frames, data, width, height, x, y, start, deltas, l);
    }
  }

  /** Every pixel of the image is that of the first n stripes. */
  ghost predicate ShowsComposite(data: array<Byte>, width: nat, height: nat,
                                 d: Dims, frames: seq<Frame>, start: Delta, deltas: seq<Delta>, n: nat)
    reads data
  {
    AllFrames(d, frames) && n <= |frames| == |deltas| && data.Length == width * height &&
    forall jx, jy | 0 <= jx < width && 0 <= jy < height ::
      At(data, width, height, jx, jy) == Composite(d, frames, start, deltas, n, jx, jy)
  }

  method NewImage(width: nat, height: nat) returns (data: array<Byte>)
    ensures fresh(data) && data.Length == width * height
    ensures forall jx, jy | 0 <= jx < width && 0 <= jy < height :: At(data, width, height, jx, jy) == 0
  {
    var size: nat := width * height;
    data := ZeroFilled(size);
    forall jx, jy | 0 <= jx < width && 0 <= jy < height ensures At(data, width, height, jx, jy) == 0 {
      IndexInside(width, height, jx, jy);
    }
  }

  method ZeroFilled(size: nat) returns (data: array<Byte>)
    ensures fresh(data) && data.Length == size && forall i | 0 <= i < size :: data[i] == 0
  {
    data := new Byte[size](_ => 0);
  }

  method BlitNext(d: Dims, frames: seq<Frame>, data: array<Byte>, width: nat, height: nat, x: int, y: int,
                  ghost start: Delta, ghost deltas: seq<Delta>, l: nat)
    requires ShowsComposite(data, width, height, d, frames, start, deltas, l)
    requires l < |frames| && Place(start, deltas, l) == Delta(x, y)
    modifies data
    ensures ShowsComposite(data, width, height, d, frames, start, deltas, l + 1)
  {
    BlitStripe(d, frames[l], data, width, height, x, y);
  }

  /** The first stripe is centred, up to one pixel, and each further one is moved by its delta. */
  lemma StripesPlaced(ctx: Context, deltas: seq<Delta>, k: nat)
    requires k < |deltas|
    ensures var margin := ctx.imageWidth - ctx.d.w;
            if margin >= 0 then 0 <= margin - 2 * Start(ctx, deltas).x <= 1 else -1 <= margin - 2 * Start(ctx, deltas).x <= 0
    ensures var start, place := Start(ctx, deltas), Place(Start(ctx, deltas), deltas, k);
            if k == 0 then place == Delta(start.x + deltas[0].x, start.y + deltas[0].y)
            else
              var before := Place(start, deltas, k - 1);
              place == Delta(before.x + deltas[k].x, before.y + deltas[k].y)
  {
    if k == 0 { assert Sum(deltas, 0) == Delta(0, 0); }
  }

  // ----- whether the stripes fit ----------------------------------------------------------

  predicate RowsInside(ctx: Context, deltas: seq<Delta>) {
    forall k | 0 <= k < |deltas| ::
      0 <= Place(Start(ctx, deltas), deltas, k).y <= Height(ctx.d, deltas) - ctx.d.h
  }

  predicate Between(a: int, b: int, c: int) { (a <= b <= c) || (c <= b <= a) }

  /** The swipe never leaves the span between its two ends. */
  predicate StaysInSpan(deltas: seq<Delta>) {
    forall n | 0 <= n <= |deltas| :: Between(0, Sum(deltas, n).y, Sum(deltas, |deltas|).y)
  }

  lemma PlaceInside(ctx: Context, deltas: seq<Delta>, k: nat)
    requires k < |deltas|
    ensures 0 <= Place(Start(ctx, deltas), deltas, k).y <= Height(ctx.d, deltas) - ctx.d.h <==>
            Between(0, Sum(deltas, k + 1).y, Sum(deltas, |deltas|).y)
  {
  }

  /** Every row of every stripe is inside the image exactly when the swipe stays within its span. */
  lemma RowsInsideExactly(ctx: Context, deltas: seq<Delta>)
    ensures RowsInside(ctx, deltas) <==> StaysInSpan(deltas)
  {
    if RowsInside(ctx, deltas) {
      forall n | 0 <= n <= |deltas| ensures Between(0, Sum(deltas, n).y, Sum(deltas, |deltas|).y) {
        if n > 0 { PlaceInside(ctx, deltas, n - 1); }
      }
    }
    if StaysInSpan(deltas) {
      forall k | 0 <= k < |deltas|
        ensures 0 <= Place(Start(ctx, deltas), deltas, k).y <= Height(ctx.d, deltas) - ctx.d.h
      {
        PlaceInside(ctx, deltas, k);
      }
    }
  }

  lemma {:induction false} SumsGrow(deltas: seq<Delta>, m: nat, n: nat)
    requires m <= n <= |deltas| && forall k | 0 <= k < |deltas| :: deltas[k].y >= 0
    ensures Sum(deltas, m).y <= Sum(deltas, n).y
  {
    if m < n { SumsGrow(deltas, m, n - 1); }
  }

  lemma {:induction false} SumsShrink(deltas: seq<Delta>, m: nat, n: nat)
    requires m <= n <= |deltas| && forall k | 0 <= k < |deltas| :: deltas[k].y <= 0
    ensures Sum(deltas, m).y >= Sum(deltas, n).y
  {
    if m < n { SumsShrink(deltas, m, n - 1); }
  }

  /** A swipe in one direction, forward or reversed, has every stripe row inside the image. */
  lemma OneDirectionFits(ctx: Context, deltas: seq<Delta>)
    requires (forall k | 0 <= k < |deltas| :: deltas[k].y >= 0) || (forall k | 0 <= k < |deltas| :: deltas[k].y <= 0)
    ensures RowsInside(ctx, deltas)
  {
    forall n | 0 <= n <= |deltas| ensures Between(0, Sum(deltas, n).y, Sum(deltas, |deltas|).y) {
      if j :| 0 <= j < |deltas| && deltas[j].y < 0 {
        SumsShrink(deltas, 0, n);
        SumsShrink(deltas, n, |deltas|);
      } else {
        SumsGrow(deltas, 0, n);
        SumsGrow(deltas, n, |deltas|);
      }
    }
    RowsInsideExactly(ctx, deltas);
  }

  /** The movements estimated for the swipe of BothDirections push its second stripe out of the image. */
  lemma EstimatedSwipeIsClipped(ctx: Context, s: seq<Frame>)
    requires IsSwipe(s)
    ensures FramesOk(SMALL, s) && Turns(PassesOf(SMALL, s))
    ensures !RowsInside(ctx, SwipeDeltas())
  {
    BothDirections(s);
    SwipeLeavesSpan();
    RowsInsideExactly(ctx, SwipeDeltas());
  }

  lemma SwipeLeavesSpan()
    ensures !StaysInSpan(SwipeDeltas())
  {
    var s := SwipeDeltas();
    assert Sum(s, 1) == Delta(0, 0) && Sum(s, 2) == Delta(-8, -2);
    assert Sum(s, 3) == Delta(0, 0) && Sum(s, 4) == Delta(8, 2);
  }
}
