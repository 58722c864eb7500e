/**
 The overlap search between two frames of a swipe sensor: an exhaustive comparison
 over vertical and horizontal shifts, with the error normalised in 32-bit arithmetic.
 */
module Overlap {
  import opened Bytes
  import opened Products

  const INT_MAX: nat := 0x7fff_ffff

  datatype Dims = Dims(w: nat, h: nat)

  /** A frame is its rows of pixels. */
  type Frame = seq<seq<Byte>>

  predicate FrameOk(d: Dims, f: Frame) {
    |f| == d.h && forall y | 0 <= y < |f| :: |f[y]| == d.w
  }

  function Abs(n: int): nat { if n < 0 then -n else n }

  predicate Candidate(d: Dims, dx: int, dy: int) { 2 <= dy < d.h && -8 <= dx < 8 }

  // ----- where the comparison reads --------------------------------------------------

  /** The unsigned width of the compared region. */
  function CompareWidth(d: Dims, dx: int): nat { (d.w as int - Abs(dx) as int) % U32 }

  function FirstX(dx: int): nat { if dx < 0 then 0 else dx }

  function SecondX(dx: int): nat { if dx < 0 then -dx else 0 }

  /** The comparison of one candidate reads only pixels of both frames. */
  predicate ReadsInside(d: Dims, dx: int, dy: int)
    requires Candidate(d, dx, dy)
  {
    FirstX(dx) + CompareWidth(d, dx) <= d.w && SecondX(dx) + CompareWidth(d, dx) <= d.w &&
    dy + (d.h - dy) <= d.h
  }

  /** The search stays inside both frames exactly when they are at least 8 pixels wide (or too low to search). */
  lemma ReadsInsideExactly(d: Dims)
    requires d.w < U32 && d.h < U32
    ensures (forall dx, dy | Candidate(d, dx, dy) :: ReadsInside(d, dx, dy)) <==> d.w >= 8 || d.h <= 2
  {
    if d.w < 8 && d.h > 2 {
      assert Candidate(d, -8, 2);
      assert !ReadsInside(d, -8, 2);
    }
  }

  // ----- the error of one candidate ----------------------------------------------------

  function Distance(a: Byte, b: Byte): nat { if a > b then a as int - b as int else b as int - a as int }

  function RowDifference(a: seq<Byte>, b: seq<Byte>, x1: nat, x2: nat, n: nat): nat
    requires x1 + n <= |a| && x2 + n <= |b|
  {
    if n == 0 then 0 else RowDifference(a, b, x1, x2, n - 1) + Distance(a[x1 + n - 1], b[x2 + n - 1])
  }

  /** The sum over the first n rows of the overlap of `first` with `second` shifted up by dy. */
  function AreaDifference(d: Dims, first: Frame, second: Frame, dx: int, dy: int, n: nat): nat
    requires FrameOk(d, first) && FrameOk(d, second) && d.w >= 8 && Candidate(d, dx, dy) && n <= d.h - dy
  {
    if n == 0 then 0
    else AreaDifference(d, first, second, dx, dy, n - 1) +
         RowDifference(first[n - 1], second[dy + n - 1], FirstX(dx), SecondX(dx), d.w - Abs(dx))
  }

  lemma {:induction false} RowDifferenceBound(a: seq<Byte>, b: seq<Byte>, x1: nat, x2: nat, n: nat)
    requires x1 + n <= |a| && x2 + n <= |b|
    ensures RowDifference(a, b, x1, x2, n) <= 255 * n
  {
    if n > 0 { RowDifferenceBound(a, b, x1, x2, n - 1); }
  }

  lemma {:induction false} AreaDifferenceBound(d: Dims, first: Frame, second: Frame, dx: int, dy: int, n: nat)
    requires FrameOk(d, first) && FrameOk(d, second) && d.w >= 8 && Candidate(d, dx, dy) && n <= d.h - dy
    ensures AreaDifference(d, first, second, dx, dy, n) <= 255 * ((d.w - Abs(dx)) * n)
  {
    var w := d.w - Abs(dx);
    if n > 0 {
      AreaDifferenceBound(d, first, second, dx, dy, n - 1);
      RowDifferenceBound(first[n - 1], second[dy + n - 1], FirstX(dx), SecondX(dx), w);
      assert w * n == w * (n - 1) + w;
    }
  }

  /** Frames whose error fits 32 bits after it is scaled by the frame area. */
  predicate Fits(d: Dims) {
    d.w >= 8 && 255 * Area(d) * Area(d) < U32
  }

  function Area(d: Dims): nat { d.w * d.h }

  /** The error of a candidate as a fraction of the compared area, scaled to the whole frame. */
  function Error(d: Dims, first: Frame, second: Frame, dx: int, dy: int): nat
    requires FrameOk(d, first) && FrameOk(d, second) && d.w >= 8 && Candidate(d, dx, dy)
  {
    var w, h := d.w - Abs(dx), d.h - dy;
    if w == 0 then INT_MAX else Scaled(AreaDifference(d, first, second, dx, dy, h), Area(d), w * h)
  }

  function Scaled(sum: nat, whole: nat, part: nat): nat {
    if part == 0 then 0 else sum * whole / part
  }

  /** No sum, product or bound of the search leaves 32 bits. */
  lemma NothingOverflows(d: Dims, sum: nat, w: nat, h: nat)
    requires Fits(d) && w <= d.w && h <= d.h && sum <= 255 * (w * h)
    ensures sum < U32 && sum * Area(d) < U32 && w * h <= Area(d) < U32
    ensures 255 * Area(d) < INT_MAX
  {
    var area := Area(d);
    SmallerProduct(w, d.w, h, d.h);
    SmallerProduct(sum, 255 * area, area, area);
    if area > 0 {
      SmallerProduct(1, area, 255 * area, 255 * area);
      if area >= 0x1_0000 { SmallerProduct(0x1_0000, area, 0x1_0000, area); }
    }
  }

  /** Error never exceeds the initial bound of the search (a candidate without columns aside). */
  lemma ErrorBound(d: Dims, first: Frame, second: Frame, dx: int, dy: int)
    requires FrameOk(d, first) && FrameOk(d, second) && d.w >= 8 && Candidate(d, dx, dy) && d.w > Abs(dx)
    ensures Error(d, first, second, dx, dy) <= 255 * Area(d)
  {
    var w, h := d.w - Abs(dx), d.h - dy;
    var sum, whole := AreaDifference(d, first, second, dx, dy, h), Area(d);
    AreaDifferenceBound(d, first, second, dx, dy, h);
    ScaledBound(sum, whole, w * h);
  }

  lemma ScaledBound(sum: nat, whole: nat, part: nat)
    requires sum <= 255 * part
    ensures Scaled(sum, whole, part) <= 255 * whole
  {
    if part > 0 {
      SmallerProduct(sum, 255 * part, whole, whole);
      assert 255 * part * whole == 255 * whole * part;
      QuotientBetween(sum * whole, part, 0, 255 * whole);
    }
  }

  /** One row of the comparison, added to the error so far. */
  method AddRow(a: seq<Byte>, b: seq<Byte>, x1: nat, x2: nat, width: nat, before: nat) returns (err: nat)
    requires x1 + width <= |a| && x2 + width <= |b|
    requires before + RowDifference(a, b, x1, x2, width) < U32
    ensures err == before + RowDifference(a, b, x1, x2, width)
  {
    err := before;
    var j := 0;
    while j < width
      invariant j <= width && err == before + RowDifference(a, b, x1, x2, j)
    {
      RowDifferenceGrows(a, b, x1, x2, j + 1, width);
      err := (err + Distance(a[x1 + j], b[x2 + j])) % U32;
      j := j + 1;
    }
  }

  method Normalise(d: Dims, sum: nat, width: nat, height: nat) returns (err: nat)
    requires Fits(d) && 0 < width <= d.w && 0 < height <= d.h && sum <= 255 * (width * height)
    ensures err == Scaled(sum, Area(d), width * height)
  {
    NothingOverflows(d, sum, width, height);
    SmallerProduct(1, width, 1, height);
    err := ScaleWrapped(sum, Area(d), width * height);
  }

  /** The two assignments that normalise, each product reduced to 32 bits. */
  function ScaleWrapped(sum: nat, whole: nat, part: nat): (r: nat)
    requires sum * whole < U32 && whole < U32 && 0 < part < U32
    ensures r == Scaled(sum, whole, part)
  {
    var product := sum * Wrap(whole);
    Wrap(product) / Wrap(part)
  }

  function Wrap(n: nat): (r: nat)
    ensures n < U32 ==> r == n
  {
    n % U32
  }

  method CalcError(d: Dims, first: Frame, second: Frame, dx: int, dy: int) returns (err: nat)
    requires FrameOk(d, first) && FrameOk(d, second) && Fits(d) && Candidate(d, dx, dy)
    ensures err == Error(d, first, second, dx, dy)
  {
    var width, height := d.w - Abs(dx), d.h - dy;
    if height == 0 || width == 0 { return INT_MAX; }
    var i := 0;
    err := 0;
    while i < height
      invariant i <= height && err == AreaDifference(d, first, second, dx, dy, i)
    {
      AreaDifferenceBound(d, first, second, dx, dy, i + 1);
      NothingOverflows(d, AreaDifference(d, first, second, dx, dy, i + 1), width, i + 1);
      err := AddRow(first[i], second[dy + i], FirstX(dx), SecondX(dx), width, err);
      i := i + 1;
    }
    AreaDifferenceBound(d, first, second, dx, dy, height);
    err := Normalise(d, err, width, height);
  }

  lemma {:induction false} RowDifferenceGrows(a: seq<Byte>, b: seq<Byte>, x1: nat, x2: nat, m: nat, n: nat)
    requires m <= n && x1 + n <= |a| && x2 + n <= |b|
    ensures RowDifference(a, b, x1, x2, m) <= RowDifference(a, b, x1, x2, n)
  {
    if m < n { RowDifferenceGrows(a, b, x1, x2, m, n - 1); }
  }

  // ----- the search ------------------------------------------------------------------------

  /** Scan order: rows of shifts from 2 upwards, each from -8 to 7. */
  predicate Before(dx: int, dy: int, ex: int, ey: int) {
    dy < ey || (dy == ey && dx < ex)
  }

  /** The shift (dx, dy) has the least error, below the limit, and is the first such in scan order. */
  ghost predicate FirstMinimum(d: Dims, first: Frame, second: Frame, dx: int, dy: int, limit: nat)
    requires FrameOk(d, first) && FrameOk(d, second) && d.w >= 8 && Candidate(d, dx, dy)
  {
    Error(d, first, second, dx, dy) < limit &&
    forall ex, ey | Candidate(d, ex, ey) ::
      Error(d, first, second, dx, dy) <= Error(d, first, second, ex, ey) &&
      (Before(ex, ey, dx, dy) ==> Error(d, first, second, dx, dy) < Error(d, first, second, ex, ey))
  }

  lemma FirstMinimumUnique(d: Dims, first: Frame, second: Frame, dx: int, dy: int, ex: int, ey: int, limit: nat)
    requires FrameOk(d, first) && FrameOk(d, second) && d.w >= 8 && Candidate(d, dx, dy) && Candidate(d, ex, ey)
    requires FirstMinimum(d, first, second, dx, dy, limit) && FirstMinimum(d, first, second, ex, ey, limit)
    ensures dx == ex && dy == ey
  {
    assert dx != ex || dy != ey ==> Before(dx, dy, ex, ey) || Before(ex, ey, dx, dy);
  }

  /** No shift has an error below the limit. */
  ghost predicate NoneBelow(d: Dims, first: Frame, second: Frame, limit: nat)
    requires FrameOk(d, first) && FrameOk(d, second) && d.w >= 8
  {
    forall ex, ey | Candidate(d, ex, ey) :: Error(d, first, second, ex, ey) >= limit
  }

  function Limit(d: Dims): nat { 255 * Area(d) }

  /** The state of the search after the candidates before (atX, atY). */
  ghost predicate Scanned(d: Dims, first: Frame, second: Frame, found: bool, cx: int, cy: int, min: nat, atX: int, atY: int)
    requires FrameOk(d, first) && FrameOk(d, second) && d.w >= 8
  {
    (found ==> Candidate(d, cx, cy) && Before(cx, cy, atX, atY) && min == Error(d, first, second, cx, cy) < Limit(d)) &&
    (!found ==> min == Limit(d)) &&
    forall ex, ey | Candidate(d, ex, ey) && Before(ex, ey, atX, atY) ::
      min <= Error(d, first, second, ex, ey) &&
      (found && Before(ex, ey, cx, cy) ==> min < Error(d, first, second, ex, ey))
  }

  lemma ScanStep(d: Dims, first: Frame, second: Frame, found: bool, cx: int, cy: int, min: nat, dx: int, dy: int)
    requires FrameOk(d, first) && FrameOk(d, second) && d.w >= 8 && Candidate(d, dx, dy)
    requires Scanned(d, first, second, found, cx, cy, min, dx, dy)
    ensures var err := Error(d, first, second, dx, dy);
            if err < min then Scanned(d, first, second, true, dx, dy, err, dx + 1, dy)
            else Scanned(d, first, second, found, cx, cy, min, dx + 1, dy)
  {
    forall ex, ey | Candidate(d, ex, ey) && Before(ex, ey, dx + 1, dy)
      ensures Before(ex, ey, dx, dy) || (ex == dx && ey == dy)
    {
    }
  }

  lemma ScanRow(d: Dims, first: Frame, second: Frame, found: bool, cx: int, cy: int, min: nat, dy: int)
    requires FrameOk(d, first) && FrameOk(d, second) && d.w >= 8
    requires Scanned(d, first, second, found, cx, cy, min, 8, dy)
    ensures Scanned(d, first, second, found, cx, cy, min, -8, dy + 1)
  {
    forall ex, ey | Candidate(d, ex, ey) && Before(ex, ey, -8, dy + 1) ensures Before(ex, ey, 8, dy) {
    }
  }

  lemma ScanDone(d: Dims, first: Frame, second: Frame, found: bool, cx: int, cy: int, min: nat, dy: int)
    requires FrameOk(d, first) && FrameOk(d, second) && d.w >= 8 && dy >= d.h
    requires Scanned(d, first, second, found, cx, cy, min, -8, dy)
    ensures found <==> !NoneBelow(d, first, second, Limit(d))
    ensures found ==> Candidate(d, cx, cy) && FirstMinimum(d, first, second, cx, cy, Limit(d)) &&
                      min == Error(d, first, second, cx, cy)
    ensures min <= Limit(d)
  {
    forall ex, ey | Candidate(d, ex, ey) ensures Before(ex, ey, -8, dy) {
    }
  }

  /**
   The shift found is the first minimum in scan order, with dx negated; when no shift is
   below 255 times the area, the caller's shift is left alone.
   */
  method FindOverlap(d: Dims, first: Frame, second: Frame, dx0: int, dy0: int)
    returns (dxOut: int, dyOut: int, minError: nat)
    requires FrameOk(d, first) && FrameOk(d, second) && Fits(d)
    ensures NoneBelow(d, first, second, Limit(d)) ==> dxOut == dx0 && dyOut == dy0 && minError == Limit(d)
    ensures !NoneBelow(d, first, second, Limit(d)) ==>
              Candidate(d, -dxOut, dyOut) && FirstMinimum(d, first, second, -dxOut, dyOut, Limit(d)) &&
              minError == Error(d, first, second, -dxOut, dyOut)
    ensures minError <= Limit(d) < U32
  {
    minError := Limit(d);
    dxOut, dyOut := dx0, dy0;
    var dy := 2;
    ghost var found := false;
    while dy < d.h
      invariant Scanned(d, first, second, found, -dxOut, dyOut, minError, -8, dy)
      invariant !found ==> dxOut == dx0 && dyOut == dy0
    {
      dxOut, dyOut, minError, found := ScanShifts(d, first, second, dy, dxOut, dyOut, minError, found);
      dy := dy + 1;
    }
    ScanDone(d, first, second, found, -dxOut, dyOut, minError, dy);
    LimitFits(d);
  }

  lemma LimitFits(d: Dims)
    requires Fits(d)
    ensures Limit(d) < INT_MAX
  {
    NothingOverflows(d, 0, 0, 0);
  }

  /** The inner loop of the search: every horizontal shift for one vertical one. */
  method ScanShifts(d: Dims, first: Frame, second: Frame, dy: int, dx0: int, dy0: int, min0: nat, ghost found0: bool)
    returns (dxOut: int, dyOut: int, minError: nat, ghost found: bool)
    requires FrameOk(d, first) && FrameOk(d, second) && Fits(d) && 2 <= dy < d.h
    requires Scanned(d, first, second, found0, -dx0, dy0, min0, -8, dy)
    ensures Scanned(d, first, second, found, -dxOut, dyOut, minError, -8, dy + 1)
    ensures found0 ==> found
    ensures !found ==> dxOut == dx0 && dyOut == dy0
  {
    dxOut, dyOut, minError, found := dx0, dy0, min0, found0;
    var dx := -8;
    while dx < 8
      invariant -8 <= dx <= 8
      invariant Scanned(d, first, second, found, -dxOut, dyOut, minError, dx, dy)
      invariant found0 ==> found
      invariant !found ==> dxOut == dx0 && dyOut == dy0
    {
      ScanStep(d, first, second, found, -dxOut, dyOut, minError, dx, dy);
      var err := CalcError(d, first, second, dx, dy);
      if err < minError {
        dxOut, dyOut, minError, found := -dx, dy, err, true;
      }
      dx := dx + 1;
    }
    ScanRow(d, first, second, found, -dxOut, dyOut, minError, dy);
  }

  // ----- which pixels are compared -------------------------------------------------------

  /** The difference of pixel x of one row and pixel x - dx of another, if there is one. */
  function ShiftedPair(a: seq<Byte>, b: seq<Byte>, dx: int, x: nat): nat
    requires x < |a|
  {
    if 0 <= x - dx < |b| then Abs(a[x] as int - b[x - dx] as int) else 0
  }

  function ShiftedRow(a: seq<Byte>, b: seq<Byte>, dx: int, n: nat): nat
    requires n <= |a|
  {
    if n == 0 then 0 else ShiftedRow(a, b, dx, n - 1) + ShiftedPair(a, b, dx, n - 1)
  }

  /** The sum over the first n rows of the differences between pixel (x, y) of one frame and (x - dx, y + dy) of the other. */
  function ShiftedArea(d: Dims, first: Frame, second: Frame, dx: int, dy: nat, n: nat): nat
    requires FrameOk(d, first) && FrameOk(d, second) && n + dy <= d.h
  {
    if n == 0 then 0
    else ShiftedArea(d, first, second, dx, dy, n - 1) + ShiftedRow(first[n - 1], second[n - 1 + dy], dx, d.w)
  }

  lemma {:induction false} RightShift(a: seq<Byte>, b: seq<Byte>, dx: nat, n: nat)
    requires |a| == |b| && n <= |a| && dx <= |a|
    ensures ShiftedRow(a, b, dx, n) == if n <= dx then 0 else RowDifference(a, b, dx, 0, n - dx)
  {
    if n > 0 { RightShift(a, b, dx, n - 1); }
  }

  lemma {:induction false} LeftShift(a: seq<Byte>, b: seq<Byte>, dx: nat, n: nat)
    requires |a| == |b| && n <= |a| && dx <= |a|
    ensures ShiftedRow(a, b, -(dx as int), n) == RowDifference(a, b, 0, dx, if n <= |a| - dx then n else |a| - dx)
  {
    if n > 0 { LeftShift(a, b, dx, n - 1); }
  }

  lemma {:induction false} AreaIsShifted(d: Dims, first: Frame, second: Frame, dx: int, dy: int, n: nat)
    requires FrameOk(d, first) && FrameOk(d, second) && d.w >= 8 && Candidate(d, dx, dy) && n <= d.h - dy
    ensures AreaDifference(d, first, second, dx, dy, n) == ShiftedArea(d, first, second, dx, dy, n)
  {
    if n > 0 {
      AreaIsShifted(d, first, second, dx, dy, n - 1);
      if dx >= 0 {
        RightShift(first[n - 1], second[n - 1 + dy], dx, d.w);
      } else {
        LeftShift(first[n - 1], second[n - 1 + dy], -dx, d.w);
      }
    }
  }

  /**
   What the error of a shift is: the differences between the pixels that lie on top of each
   other when the second frame is moved, scaled from the area they cover to the whole frame.
   */
  lemma ErrorExactly(d: Dims, first: Frame, second: Frame, dx: int, dy: int)
    requires FrameOk(d, first) && FrameOk(d, second) && d.w >= 8 && Candidate(d, dx, dy) && Abs(dx) < d.w
    ensures var e, part := Error(d, first, second, dx, dy), (d.w - Abs(dx)) * (d.h - dy);
            var sum := ShiftedArea(d, first, second, dx, dy, d.h - dy);
            e * part <= sum * (d.w * d.h) < (e + 1) * part
  {
    var w, h := d.w - Abs(dx), d.h - dy;
    var sum, e := ShiftedArea(d, first, second, dx, dy, h), Error(d, first, second, dx, dy);
    AreaIsShifted(d, first, second, dx, dy, h);
    SmallerProduct(1, w, 1, h);
    QuotientSpan(sum * Area(d), w * h);
    assert e == Scaled(sum, Area(d), w * h);
    assert (e + 1) * (w * h) == e * (w * h) + w * h;
  }
}
